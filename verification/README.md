# OhmInfluxDB in Dafny

OhmInfluxDB is a Windows service that polls the hardware sensors exposed by
OpenHardwareMonitor on a timer and writes every reading to InfluxDB. This
project models its core:

- **Program** (`config.dfy`, module `Configuration`):
  - the five configuration fields and their defaults;
  - `ParseConfig`, which reads the application settings over those fields;
  - the collector address `{Protocol}://{Host}:{Port}`;
  - the timer period.
- **Normalize** (`normalizer.dfy`, module `Normalizer`): turns a sensor's
  identifier into an InfluxDB series and its display name into a field.
  - The series is the identifier with '/' replaced by '.', the leading
    character dropped, and everything from the last '.' removed.
  - The field is the name lower-cased, with spaces removed and '#'
    replaced by '.'.
  - The two ways the string calls throw are modelled as `Failure` values.
- **ReadSensors** (`sensors.dfy`, module `Sensors`): walks the devices and
  their sensors in order. It yields a reading for every sensor that has a
  value and warns about every sensor that does not.
- **SendMetrics and ReportMetrics** (`cycle.dfy`, module `Cycle`). One tick
  of the timer does the following:
  - increments the "iterations" counter;
  - enumerates the sensors lazily, normalising and writing each reading
    (and echoing it when the `ShowMetricsFirstRun` flag is set);
  - reports the count and clears the flag;
  - or, when a normalisation throws, stops at that sensor. The exception
    is caught and logged, and the flag stays as it was.

  A run of ticks is modelled as a fold over the timer's firings.

Supporting modules:

- `wrappers.dfy`: `Option` and `Result`.
- `strings.dfy`: the `System.String` operations used: `Replace`, removal of
  a character, ASCII `ToLower`, and `LastIndexOf`.
- `numbers.dfy`: `int.TryParse` for 32-bit integers, and the decimal
  formatting of an `int`.

The collector is modelled as the sequence of operations sent to it
(`Increment` and `Write`), and the logger as a sequence of log lines.

The code treats a '.' that is already in a sensor identifier as a separator,
because `Replace('/', '.')` runs before `LastIndexOf('.')`. The comment at
`MetricTimer.cs:107-109` describes only '/'. The model follows the code:

- `Normalize` succeeds exactly when the identifier is non-empty and has a
  '/' or a '.' after its first character;
- "/a.b" gives series "a" (`NormalizeOriginalDot`).

## Model

| member | source | states |
|---|---|---|
| Strings.LastIndexOf | OhmInfluxDB/MetricTimer.cs:114 | Returns -1 exactly when the character is absent. Otherwise it returns an index holding that character, with no occurrence after it. |
| Strings.DeleteMembers | OhmInfluxDB/MetricTimer.cs:115 | Removing the spaces keeps every other character and nothing else. |
| Numbers.ParseInt32 | OhmInfluxDB/Program.cs:66-67 | Text that contains no digit never parses. `ParseWellFormed` and `ParseSound` below characterise exactly what parses. |
| Numbers.ParseWellFormed | OhmInfluxDB/Program.cs:66-67 | Any white space, an optional '+' or '-', one or more digits (leading zeros allowed), then any white space. This parses to the signed value when that value fits 32 bits, and fails when it does not. |
| Numbers.ParseSound | OhmInfluxDB/Program.cs:66-67 | Whatever parses is, once trimmed, an optional sign followed by one or more digits, and the result is their signed value. Nothing else is accepted. |
| Numbers.FormatParseOutOfRange | OhmInfluxDB/Program.cs:66-67 | The text of any number outside the 32-bit range, "2147483648" for one, does not parse. |
| Numbers.ParseRejectsEmbedded | OhmInfluxDB/Program.cs:66-67 | A trailing non-digit makes the text fail: "80a" does not parse. |
| Numbers.TryParseOut | OhmInfluxDB/Program.cs:66-67 | The out value of `int.TryParse` is 0 for a null setting and for one that does not parse. Otherwise it is the parsed number. |
| Numbers.FormatInt | OhmInfluxDB/Program.cs:41 | The text of a port is digits, led by '-' exactly when the number is negative and then followed by at least one digit. It contains no ':'. |
| Numbers.FormatParseRoundTrip | OhmInfluxDB/Program.cs:41 | Parsing the formatted text of any 32-bit number gives that number back. |
| Numbers.ParseIgnoresPadding | OhmInfluxDB/Program.cs:66-67 | White space of any length before and after a setting does not change what it parses to. |
| Normalizer.SeriesOfSpec | OhmInfluxDB/MetricTimer.cs:113-114 | The series exists exactly when the identifier is non-empty and has a separator after its first character. An empty identifier and one without a separator each give their own error. The dotted path is the series, one '.', then a last segment without '.'. The series has no '/' and is at least two characters shorter than the identifier. |
| Normalizer.FieldOfClean | OhmInfluxDB/MetricTimer.cs:115 | The field has no space, no '#' and no upper-case letter. Its length is the name's length minus its spaces. |
| Normalizer.FieldOfByChar | OhmInfluxDB/MetricTimer.cs:115 | The chained `ToLower`, space removal and '#' replacement equal a per-character reference definition: a space vanishes, '#' becomes '.', and any other character is lower-cased. |
| Normalizer.FieldOfPlain | OhmInfluxDB/MetricTimer.cs:115 | A name without spaces or '#' is only lower-cased. |
| Normalizer.FieldOfIdempotent | OhmInfluxDB/MetricTimer.cs:115 | Normalising a field name a second time leaves it unchanged. |
| Normalizer.NormalizeSpec | OhmInfluxDB/MetricTimer.cs:105-117 | `Normalize` succeeds exactly when the identifier is non-empty with a separator after its first character. On success the value is unchanged, the series is `SeriesOf`'s, the field is the cleaned name, and the series has no '/' and is shorter than the identifier. On failure it throws the series' error. |
| Normalizer.SeriesAt | OhmInfluxDB/MetricTimer.cs:113-114 | The series is the dotted path cut at the '.' after which no '.' follows. |
| Normalizer.SeriesDropsLastSegment | OhmInfluxDB/MetricTimer.cs:107-109 | For "/" + path + "/" + last, where last has no separator, the series is the path with '/' turned into '.'. |
| Normalizer.SeriesOfGpuLoad | OhmInfluxDB/MetricTimer.cs:107-108 | "/nvidiagpu/0/load/0" gives series "nvidiagpu.0.load". |
| Normalizer.FieldGpuCore | OhmInfluxDB/MetricTimer.cs:110 | "GPU Core" gives field "gpucore". |
| Normalizer.NormalizeGpuLoad | OhmInfluxDB/MetricTimer.cs:107-110 | A sensor of "/nvidiagpu/0/load/0" is written to series "nvidiagpu.0.load", with its value and its cleaned name. |
| Normalizer.FieldNumberedCore | OhmInfluxDB/MetricTimer.cs:111-112 | '#' splits a numbered name: "Core #2" gives "core.2". |
| Normalizer.NormalizeCpuTemperature | OhmInfluxDB/MetricTimer.cs:111-112 | A sensor of "/intelcpu/0/temperature/2" is written to series "intelcpu.0.temperature". |
| Normalizer.NormalizeRejects | OhmInfluxDB/MetricTimer.cs:113-114 | "/cpu" throws the missing-separator error and "" throws the empty-identifier error. |
| Normalizer.NormalizeShortId | OhmInfluxDB/MetricTimer.cs:113-116 | An identifier "/s/l" of two one-character segments without separators gives series "s", with the cleaned name and the value unchanged. |
| Normalizer.NormalizeOriginalDot | OhmInfluxDB/MetricTimer.cs:113-114 | An original '.' counts as a separator: "/a.b" gives series "a". |
| Sensors.ReadSensors | OhmInfluxDB/MetricTimer.cs:119-141 | The nested loops yield exactly the readings of the sensors that have a value, and warn about exactly the others, both in device-then-sensor order. Together they account for every sensor. |
| Sensors.ReadDevice | OhmInfluxDB/MetricTimer.cs:124-139 | The inner loop over one device does the same for that device. |
| Sensors.PresentOrMissing | OhmInfluxDB/MetricTimer.cs:131-138 | The readings yielded and the warnings issued together number the sensors. |
| Sensors.PresentSnoc | OhmInfluxDB/MetricTimer.cs:131-138 | Each further sensor adds either its reading, when it has a value, or its warning, when it has none, and never both. |
| Sensors.PresentSound | OhmInfluxDB/MetricTimer.cs:131-134 | Every reading comes from a sensor of the input with exactly that value, so no 0 is invented for a missing value. |
| Sensors.PresentComplete | OhmInfluxDB/MetricTimer.cs:131-134 | Every sensor that has a value is yielded with that value. |
| Sensors.MissingAddsWarning | OhmInfluxDB/MetricTimer.cs:135-138 | A sensor without a value adds one warning and no reading. |
| Sensors.FlattenAppend | OhmInfluxDB/MetricTimer.cs:121-124 | The sensors of two groups of devices are those of the first group, then those of the second. |
| Cycle.WalkCompletes | OhmInfluxDB/MetricTimer.cs:85-98 | The `foreach` reaches its end exactly when no sensor's normalisation throws. |
| Cycle.WalkWritesAll | OhmInfluxDB/MetricTimer.cs:85-98 | A pass that reaches its end writes every point and warns about every missing value, each in order. This relates the interleaved loop to separate reference definitions of points and absences. |
| Cycle.WalkShows | OhmInfluxDB/MetricTimer.cs:96-97 | Points are echoed to the log exactly when the flag is set, and then all points written are echoed. |
| Cycle.WalkStops | OhmInfluxDB/MetricTimer.cs:85-98 | A pass that throws stops at a step that throws that error, with no earlier step throwing. What it wrote and logged is what the steps before that one produce. |
| Cycle.StepsAbsent | OhmInfluxDB/MetricTimer.cs:131-138 | The steps without a value are the sensors that `ReadSensors` warns about. |
| Cycle.StepsNormalize | OhmInfluxDB/MetricTimer.cs:85-87 | No step throws exactly when every reading `ReadSensors` yields normalises. |
| Cycle.StepsPoints | OhmInfluxDB/MetricTimer.cs:87-92 | When every reading normalises, the points are those readings normalised, one each and in order. |
| Cycle.TickBookkeeping | OhmInfluxDB/MetricTimer.cs:74-103 | For any pass, the sink gets the increment and then the pass's writes. "iterations" goes up by exactly one. A completed pass ends the log with the count and clears the flag. An aborted one ends the log with the caught error and leaves the flag alone. |
| Cycle.TickCountsIteration | OhmInfluxDB/MetricTimer.cs:77 | A tick keeps what was sent and logged before. The first new operation is the "iterations" increment, and that counter goes up by one. |
| Cycle.TickOutcome | OhmInfluxDB/MetricTimer.cs:58-72 | A tick completes exactly when every reading normalises. It then reports the number of readings as its last log line and clears the flag. Otherwise its last log line is the caught error and the flag is unchanged. |
| Cycle.TickAdds | OhmInfluxDB/MetricTimer.cs:89-102 | What a tick adds to the collector is its pass's points. What it adds to the log warns and echoes exactly what the pass did. |
| Cycle.CycleWritesAll | OhmInfluxDB/MetricTimer.cs:85-98 | A completed tick writes, after the earlier points, the normalised form of every reading, in order. |
| Cycle.CycleWarnsAndShows | OhmInfluxDB/MetricTimer.cs:96-97 | A completed tick warns once per sensor without a value. When the flag was set, the points it echoes are exactly the points it wrote; otherwise it echoes none. |
| Cycle.PassStops | OhmInfluxDB/MetricTimer.cs:85-98 | A pass that throws stops at the first sensor whose reading fails, with that sensor's error. Its writes and warnings are those of the sensors before it. |
| Cycle.CycleAborted | OhmInfluxDB/MetricTimer.cs:64-71 | An aborted tick stops at the first failing sensor. It writes the readings before that sensor, all of which normalise, and warns only about the sensors before it. Nothing after it is visited. |
| Cycle.IgnoresSignalTime | OhmInfluxDB/MetricTimer.cs:60-66 | The event's signal time has no influence on a tick. |
| Cycle.RunCountsEveryTick | OhmInfluxDB/MetricTimer.cs:42-43 | Over any run of timer firings, "iterations" counts every firing once, including those that throw. Each firing adds at least one log line. |
| Cycle.RunKeepsFlagCleared | OhmInfluxDB/MetricTimer.cs:16-20 | Once the first-run flag is clear, no tick sets it again. |
| Cycle.TwoDevices | OhmInfluxDB/MetricTimer.cs:74-103 | On two devices, the first with a sensor without a value, one tick sends the increment and the two points. It logs the warning and then the count of 2. |
| Configuration.Lookup | OhmInfluxDB/Program.cs:57-67 | A setting is found exactly when some entry's key matches, ignoring case. Its value is then that of the last matching entry. |
| Configuration.LaterEntryWins | OhmInfluxDB/Program.cs:57-67 | An entry appended with a key that matches, in any case, decides what the lookup returns. |
| Configuration.PortKeyIgnoresCase | OhmInfluxDB/Program.cs:66 | Keys "PORT" and "Port" both name the port setting. |
| Configuration.ParseConfig | OhmInfluxDB/Program.cs:55-70 | A text field without a setting keeps its value, and one with a setting takes that text verbatim. A port or interval becomes 0 when its setting is missing or does not parse. Otherwise it becomes the parsed number. |
| Configuration.ParseConfigIntended | OhmInfluxDB/Program.cs:57-64 | A number without a setting keeps its value, as a text field does. The text fields are read exactly as in `ParseConfig`. |
| Configuration.TextSettingsVerbatim | OhmInfluxDB/Program.cs:57-64 | A host, protocol or database entry, with its key in any case, that is the last for its key sets that field to its text verbatim, including an empty text. |
| Configuration.NumberSettingRead | OhmInfluxDB/Program.cs:66-67 | A port or interval setting that is the text of a 32-bit number, with any white space around it, is read as that number by both versions. |
| Configuration.ParseConfigIdempotent | OhmInfluxDB/Program.cs:55-70 | Reading the same settings again changes nothing, in both versions. |
| Configuration.ParseConfigForgetsNumbers | OhmInfluxDB/Program.cs:66-67 | As written, the port and interval read do not depend on the values the fields had before. |
| Configuration.IntendedAgreesWhenParsed | OhmInfluxDB/Program.cs:66-67 | When both number settings parse, the two versions agree. |
| Configuration.IntendedKeepsUnparsed | OhmInfluxDB/Program.cs:66-67 | The corrected version keeps a number exactly when its setting is missing or malformed, and otherwise takes the parsed value. |
| Configuration.AddressRoundTrip | OhmInfluxDB/Program.cs:41 | The address splits at its last ':' into "protocol://host" and a text that parses back to the port. This holds even when the host contains ':'. |
| Configuration.EmptySettingsAsWritten | OhmInfluxDB/Program.cs:66-67 | With no settings, the code as written starts with port 0 and interval 0. The address's port text reads 0, and the timer period is outside the range a timer accepts. |
| Configuration.EmptySettingsIntended | OhmInfluxDB/Program.cs:11-15 | With no settings, the corrected version starts with the defaults: port 8086 and a 5000 ms period that a timer accepts. |

## Left out

- Timers and re-entrancy. `System.Timers.Timer`, `Start`/`Stop`, and two ticks overlapping on thread-pool threads are not modelled; ticks are a sequence. The range of periods the timer accepts is stated as the predicate `ValidTimerPeriod`. The timer itself is not part of this model.
- Collector transport. The InfluxDB collector's batching, the "host" tag (the machine name), the HTTP transport and its error handler are not modelled. That handler logs the text it was given without the exception message it builds, which is outside this core. The collector is the list of operations handed to it.
- Hardware. `Computer.Open`/`Close` and `IHardware.Update` are not modelled; the hardware is given as its devices' sensors after refreshing.
- Timings. The stopwatch, and the milliseconds in the "Sent ... metrics" line, are not modelled; log lines carry only what the model can know.
- Service plumbing. Topshelf hosting, NLog, the start-up log line of `ParseConfig`, and how `ConfigurationManager` reads the configuration file are not modelled. The settings are the list of `<add>` entries in declaration order; `<remove>` and `<clear>` are not modelled.
- Configuration.Lookup: keys are compared ignoring ASCII case only. Non-ASCII case folding is not modelled.
- Cycle.IgnoresSignalTime: the timestamp (`epoch`) that the comment at `MetricTimer.cs:60-62` says all points share is computed but never used, so points carry no timestamp. The model does not claim a shared timestamp.
- Strings.Lower: casing is ASCII only. Culture-specific `ToLower` (for example the Turkish dotless i) is not modelled.
- Numbers.ParseInt32: models the default `NumberStyles.Integer` with invariant-culture signs and ASCII white space. Culture-specific signs, trailing NUL characters and non-ASCII digits are not modelled.
- Numbers.FormatInt: uses the invariant culture's '-' sign.
- Sensor values are `float` in the source and `real` here. They are only passed through and never computed with.
- `DEBUG` builds. The flag's initial value is a parameter of `Cycle.Initial`.

## Findings

| source | as written | input that shows it | evidently intended | confidence | as-written member | corrected member |
|---|---|---|---|---|---|---|
| OhmInfluxDB/Program.cs:66-67 | `int.TryParse(setting, out Port)` and `out Timeout` store 0 whenever the setting is missing or malformed. The defaults 8086 and 5 at lines 12 and 14 are overwritten. | No "port" and no "interval" setting: the address is "http://localhost:0" and the timer period is 0 ms. | A missing or malformed number keeps its default, as a missing host, protocol or database does (lines 57-64). | medium: not executed; a deployment whose settings always name both numbers never meets it | Configuration.EmptySettingsAsWritten | Configuration.EmptySettingsIntended |
