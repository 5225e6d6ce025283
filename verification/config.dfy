/** Start-up configuration of the service: the defaults, `ParseConfig`
    reading the application settings over them, and the collector address
    and timer period built from the result. */
module Configuration {
  import opened Wrappers
  import opened Numbers
  import Strings

  /** One `<add key=… value=…/>` entry of the application settings. */
  datatype Setting = Setting(key: string, value: string)

  /** The application settings in the order they are declared. */
  type Settings = seq<Setting>

  /** The five static fields `ParseConfig` overwrites; `interval` is the
      field the program calls `Timeout`, in seconds. */
  datatype Config = Config(host: string, port: Int32, protocol: string, database: string, interval: Int32)

  /** The fields' initial values. */
  const Defaults: Config := Config("localhost", 8086, "http", "ohm", 5)

  /** Setting keys are compared ignoring case. */
  predicate SameKey(a: string, b: string) {
    Strings.Lower(a) == Strings.Lower(b)
  }

  /** `AppSettings[key]`: the value of the last entry whose key matches,
      ignoring case, or `None` (the C# `null`) when no entry does. */
  function Lookup(settings: Settings, key: string): (r: Option<string>)
    ensures r.Some? <==> exists i :: 0 <= i < |settings| && SameKey(settings[i].key, key)
    ensures r.Some? ==> exists i ::
              && 0 <= i < |settings| && SameKey(settings[i].key, key)
              && r.value == settings[i].value
              && forall j :: i < j < |settings| ==> !SameKey(settings[j].key, key)
  {
    if settings == [] then None
    else if SameKey(settings[|settings| - 1].key, key) then Some(settings[|settings| - 1].value)
    else
      var r := Lookup(settings[..|settings| - 1], key);
      assert forall i :: 0 <= i < |settings| - 1 ==> settings[..|settings| - 1][i] == settings[i];
      r
  }

  /** A text field: replaced by the setting when there is one. */
  function TextSetting(settings: Settings, key: string, current: string): string {
    Lookup(settings, key).GetOr(current)
  }

  /** `ParseConfig` as written: the three text fields are replaced only by a
      setting that is present, but the two numbers are the out arguments of
      `int.TryParse`, which is 0 whenever the setting is missing or does not
      parse: the current value is lost either way. */
  function ParseConfig(current: Config, settings: Settings): (c: Config)
    ensures Lookup(settings, "host").None? ==> c.host == current.host
    ensures Lookup(settings, "host").Some? ==> c.host == Lookup(settings, "host").value
    ensures Lookup(settings, "protocol").None? ==> c.protocol == current.protocol
    ensures Lookup(settings, "protocol").Some? ==> c.protocol == Lookup(settings, "protocol").value
    ensures Lookup(settings, "database").None? ==> c.database == current.database
    ensures Lookup(settings, "database").Some? ==> c.database == Lookup(settings, "database").value
    ensures Lookup(settings, "port").None? ==> c.port == 0
    ensures Lookup(settings, "port").Some? && ParseInt32(Lookup(settings, "port").value).None? ==> c.port == 0
    ensures Lookup(settings, "port").Some? && ParseInt32(Lookup(settings, "port").value).Some?
        ==> c.port == ParseInt32(Lookup(settings, "port").value).value
    ensures Lookup(settings, "interval").None? ==> c.interval == 0
    ensures Lookup(settings, "interval").Some? && ParseInt32(Lookup(settings, "interval").value).None? ==> c.interval == 0
    ensures Lookup(settings, "interval").Some? && ParseInt32(Lookup(settings, "interval").value).Some?
        ==> c.interval == ParseInt32(Lookup(settings, "interval").value).value
  {
    Config(
      TextSetting(settings, "host", current.host),
      TryParseOut(Lookup(settings, "port")),
      TextSetting(settings, "protocol", current.protocol),
      TextSetting(settings, "database", current.database),
      TryParseOut(Lookup(settings, "interval")))
  }

  /** A number field as the text fields are handled: replaced by a setting
      that parses, kept otherwise. */
  function NumberSetting(settings: Settings, key: string, current: Int32): Int32 {
    match Lookup(settings, key)
    case None => current
    case Some(text) => ParseInt32(text).GetOr(current)
  }

  /** `ParseConfig` as evidently intended: a missing or malformed number
      keeps the field's current value, as a missing text setting does. */
  function ParseConfigIntended(current: Config, settings: Settings): (c: Config)
    ensures Lookup(settings, "port").None? ==> c.port == current.port
    ensures Lookup(settings, "interval").None? ==> c.interval == current.interval
    ensures c.host == ParseConfig(current, settings).host
    ensures c.protocol == ParseConfig(current, settings).protocol
    ensures c.database == ParseConfig(current, settings).database
  {
    Config(
      TextSetting(settings, "host", current.host),
      NumberSetting(settings, "port", current.port),
      TextSetting(settings, "protocol", current.protocol),
      TextSetting(settings, "database", current.database),
      NumberSetting(settings, "interval", current.interval))
  }

  /** The configuration the service would start with as evidently intended:
      the settings read once over the defaults by `ParseConfigIntended`. */
  function StartupIntended(settings: Settings): Config {
    ParseConfigIntended(Defaults, settings)
  }

  /** The configuration the service actually starts with: the settings read
      once over the defaults by `ParseConfig` as written. */
  function StartupAsWritten(settings: Settings): Config {
    ParseConfig(Defaults, settings)
  }

  /** The collector address `{Protocol}://{Host}:{Port}`. */
  function Address(c: Config): string {
    c.protocol + "://" + c.host + ":" + FormatInt(c.port)
  }

  /** `TimeSpan.FromSeconds(Timeout).TotalMilliseconds`, the period handed
      to the timer. */
  function TimerPeriodMs(c: Config): int {
    c.interval * 1000
  }

  /** The periods a `System.Timers.Timer` accepts: positive and at most
      `int.MaxValue` milliseconds; any other value makes its constructor
      throw. */
  predicate ValidTimerPeriod(ms: int) {
    0 < ms <= MaxInt32
  }

  /** The address splits at its last ':' into the scheme and host, and a
      port text that parses back to the port, whatever ':' the host holds. */
  lemma AddressRoundTrip(c: Config)
    ensures var a := Address(c);
      var i := Strings.LastIndexOf(a, ':');
      && 0 <= i
      && a[..i] == c.protocol + "://" + c.host
      && ParseInt32(a[i + 1..]) == Some(c.port)
  {
    SplitAtLastColon(c.protocol + "://" + c.host, FormatInt(c.port));
    FormatParseRoundTrip(c.port);
  }

  lemma SplitAtLastColon(prefix: string, suffix: string)
    requires ':' !in suffix
    ensures var a := prefix + ":" + suffix;
      && Strings.LastIndexOf(a, ':') == |prefix|
      && a[..|prefix|] == prefix
      && a[|prefix| + 1..] == suffix
  {
    var a := prefix + ":" + suffix;
    assert a[|prefix|] == ':';
    assert a[|prefix| + 1..] == suffix;
    Strings.LastIndexOfAt(a, ':', |prefix|);
    assert a[..|prefix|] == prefix;
  }

  /** A number setting that is the text of a 32-bit number, with any white
      space around it, is read as that number by either version. */
  lemma NumberSettingRead(current: Config, settings: Settings, key: string, p: string, n: Int32, w: string)
    requires key == "port" || key == "interval"
    requires AllWhite(p) && AllWhite(w)
    requires Lookup(settings, key) == Some(p + FormatInt(n) + w)
    ensures (if key == "port" then ParseConfig(current, settings).port
             else ParseConfig(current, settings).interval) == n
    ensures (if key == "port" then ParseConfigIntended(current, settings).port
             else ParseConfigIntended(current, settings).interval) == n
  {
    FormatParseRoundTrip(n);
    ParseIgnoresPadding(p, FormatInt(n), w);
  }

  /** A later entry overrides an earlier one, and its key matches whatever
      its case: a trailing `<add key="PORT" …/>` sets what `AppSettings["port"]`
      returns. */
  lemma LaterEntryWins(settings: Settings, key: string, wanted: string, value: string)
    requires SameKey(key, wanted)
    ensures Lookup(settings + [Setting(key, value)], wanted) == Some(value)
  {
  }

  /** `PORT` and `Port` name the port setting. */
  lemma PortKeyIgnoresCase(value: string)
    ensures Lookup([Setting("PORT", value)], "port") == Some(value)
    ensures Lookup([Setting("Port", value), Setting("host", "db")], "port") == Some(value)
  {
    assert Strings.Lower("PORT") == "port";
    assert Strings.Lower("Port") == "port";
    assert Strings.Lower("host")[0] == 'h';
  }

  /** A text setting is taken verbatim, even an empty one, whatever the
      case of its key, once it is the last entry for that key. */
  lemma TextSettingsVerbatim(current: Config, settings: Settings, key: string, text: string)
    ensures SameKey(key, "host") ==> ParseConfig(current, settings + [Setting(key, text)]).host == text
    ensures SameKey(key, "protocol") ==> ParseConfig(current, settings + [Setting(key, text)]).protocol == text
    ensures SameKey(key, "database") ==> ParseConfig(current, settings + [Setting(key, text)]).database == text
  {
    if SameKey(key, "host") { LaterEntryWins(settings, key, "host", text); }
    if SameKey(key, "protocol") { LaterEntryWins(settings, key, "protocol", text); }
    if SameKey(key, "database") { LaterEntryWins(settings, key, "database", text); }
  }

  /** Reading the same settings twice changes nothing more. */
  lemma ParseConfigIdempotent(current: Config, settings: Settings)
    ensures ParseConfig(ParseConfig(current, settings), settings) == ParseConfig(current, settings)
    ensures ParseConfigIntended(ParseConfigIntended(current, settings), settings)
         == ParseConfigIntended(current, settings)
  {
  }

  /** As written, the numbers read do not depend on the fields' values
      before the call: a number that is not configured is never kept. */
  lemma ParseConfigForgetsNumbers(c1: Config, c2: Config, settings: Settings)
    ensures ParseConfig(c1, settings).port == ParseConfig(c2, settings).port
    ensures ParseConfig(c1, settings).interval == ParseConfig(c2, settings).interval
  {
  }

  /** The two versions differ only on a number setting that is missing or
      malformed: where both settings parse, they agree. */
  lemma IntendedAgreesWhenParsed(current: Config, settings: Settings)
    requires Lookup(settings, "port").Some? && ParseInt32(Lookup(settings, "port").value).Some?
    requires Lookup(settings, "interval").Some? && ParseInt32(Lookup(settings, "interval").value).Some?
    ensures ParseConfigIntended(current, settings) == ParseConfig(current, settings)
  {
  }

  /** The intended version keeps a number exactly when its setting is
      missing or does not parse, and otherwise takes the parsed value. */
  lemma IntendedKeepsUnparsed(current: Config, settings: Settings)
    ensures var c := ParseConfigIntended(current, settings);
      var port, interval := Lookup(settings, "port"), Lookup(settings, "interval");
      && ((port.None? || ParseInt32(port.value).None?) ==> c.port == current.port)
      && (port.Some? && ParseInt32(port.value).Some? ==> c.port == ParseInt32(port.value).value)
      && ((interval.None? || ParseInt32(interval.value).None?) ==> c.interval == current.interval)
      && (interval.Some? && ParseInt32(interval.value).Some? ==> c.interval == ParseInt32(interval.value).value)
  {
  }

  /** With no settings at all, the code as written starts with port 0 and
      interval 0: the collector address ends in ":0" and the timer period is
      0 ms, which the timer rejects. */
  lemma EmptySettingsAsWritten()
    ensures StartupAsWritten([]) == Config("localhost", 0, "http", "ohm", 0)
    ensures ParseInt32(Address(StartupAsWritten([]))[Strings.LastIndexOf(Address(StartupAsWritten([])), ':') + 1..]) == Some(0)
    ensures !ValidTimerPeriod(TimerPeriodMs(StartupAsWritten([])))
  {
    AddressRoundTrip(StartupAsWritten([]));
  }

  /** With no settings at all, the intended version starts with the
      defaults: port 8086 and a 5-second (5000 ms) period. */
  lemma EmptySettingsIntended()
    ensures StartupIntended([]) == Defaults
    ensures ParseInt32(Address(StartupIntended([]))[Strings.LastIndexOf(Address(StartupIntended([])), ':') + 1..]) == Some(8086)
    ensures TimerPeriodMs(StartupIntended([])) == 5000 && ValidTimerPeriod(TimerPeriodMs(StartupIntended([])))
  {
    AddressRoundTrip(StartupIntended([]));
  }
}
