/** `MetricTimer.Normalize`: turns a sensor's hierarchical identifier and
    display name into an InfluxDB series and field name. */
module Normalizer {
  import opened Wrappers
  import opened Strings

  /** A sensor that produced a value (the service's own `Sensor` record). */
  datatype Reading = Reading(id: string, name: string, value: real)

  /** What is written to the metrics sink: series, one field, its value.
      The point carries no timestamp of its own; the sink stamps it. */
  datatype Point = Point(series: string, field: string, value: real)

  /** The two ways the string calls in `Normalize` throw
      `ArgumentOutOfRangeException`. */
  datatype NormalizeError =
    | EmptyIdentifier              // `Substring(1)` of an empty string
    | NoSeparator(id: string)      // `Remove(-1)` when no '.' is left

  /** True when some character after the first is a path separator, either
      an original '/' or a '.' already present in the identifier. */
  predicate HasSeparator(id: string) {
    exists j :: 1 <= j < |id| && (id[j] == '/' || id[j] == '.')
  }

  /** The identifier with '/' turned into '.' and its first character dropped. */
  function Dotted(id: string): string
    requires |id| > 0
  {
    Replace(id, '/', '.')[1..]
  }

  /** The series: the dotted path up to (not including) its last '.';
      `Substring(1)` throws on an empty identifier and `Remove(-1)` when no
      '.' is left. */
  function SeriesOf(id: string): Result<string, NormalizeError> {
    if |id| == 0 then Failure(EmptyIdentifier)
    else
      var t := Dotted(id);
      var i := LastIndexOf(t, '.');
      if i < 0 then Failure(NoSeparator(id)) else Success(t[..i])
  }

  /** The field: the name lower-cased, spaces removed, '#' turned into '.'. */
  function FieldOf(name: string): string {
    Replace(Delete(Lower(name), ' '), '#', '.')
  }

  /** `MetricTimer.Normalize`: the series from the identifier, the field
      from the name, the value as it is. */
  function Normalize(s: Reading): Result<Point, NormalizeError> {
    match SeriesOf(s.id)
    case Failure(e) => Failure(e)
    case Success(series) => Success(Point(series, FieldOf(s.name), s.value))
  }

  /** When the series can be computed, and what it is: the dotted path
      splits into the series, one '.', and a last segment without '.'. */
  lemma SeriesOfSpec(id: string)
    ensures SeriesOf(id).Success? <==> |id| > 0 && HasSeparator(id)
    ensures |id| == 0 ==> SeriesOf(id) == Failure(EmptyIdentifier)
    ensures |id| > 0 && !HasSeparator(id) ==> SeriesOf(id) == Failure(NoSeparator(id))
    ensures SeriesOf(id).Success? ==>
      var series := SeriesOf(id).value;
      var t := Dotted(id);
      && |series| < |t|
      && t[..|series|] == series
      && t[|series|] == '.'
      && '.' !in t[|series| + 1..]
    ensures SeriesOf(id).Success? ==> '/' !in SeriesOf(id).value && |SeriesOf(id).value| + 2 <= |id|
  {
    if |id| > 0 {
      var t := Dotted(id);
      var i := LastIndexOf(t, '.');
      if i < 0 {
        assert !HasSeparator(id) by {
          forall j | 1 <= j < |id|
            ensures id[j] != '/' && id[j] != '.'
          {
            assert t[j - 1] == Replace(id, '/', '.')[j];
          }
        }
      } else {
        assert t[i] == Replace(id, '/', '.')[i + 1];
        assert HasSeparator(id);
        assert '/' !in t by {
          forall k | 0 <= k < |t|
            ensures t[k] != '/'
          {
            assert t[k] == Replace(id, '/', '.')[k + 1];
          }
        }
        assert forall k :: 0 <= k < |t[..i]| ==> t[..i][k] == t[k];
      }
    }
  }

  /** The field has no space, no '#' and no upper-case letter, and is the
      name shortened by its spaces. */
  lemma FieldOfClean(name: string)
    ensures ' ' !in FieldOf(name) && '#' !in FieldOf(name)
    ensures forall i :: 0 <= i < |FieldOf(name)| ==> !IsUpper(FieldOf(name)[i])
    ensures |FieldOf(name)| == |name| - Count(name, ' ')
  {
    var lowered := Lower(name);
    LowerKeepsSpaces(name);
    DeleteMembers(lowered, ' ');
    var r := FieldOf(name);
    forall i | 0 <= i < |r|
      ensures !IsUpper(r[i])
    {
      if r[i] != '.' {
        assert r[i] == Delete(lowered, ' ')[i];
        assert r[i] in Delete(lowered, ' ');
      }
    }
  }

  /** `Normalize` succeeds exactly for identifiers with a separator after
      the first character; it keeps the value, and its series has no '/'
      and is shorter than the identifier. */
  lemma NormalizeSpec(s: Reading)
    ensures Normalize(s).Success? <==> |s.id| > 0 && HasSeparator(s.id)
    ensures Normalize(s).Success? ==>
      && Normalize(s).value.value == s.value
      && Normalize(s).value.series == SeriesOf(s.id).value
      && Normalize(s).value.field == FieldOf(s.name)
      && '/' !in Normalize(s).value.series
      && |Normalize(s).value.series| < |s.id|
    ensures Normalize(s).Failure? ==> Normalize(s).error == SeriesOf(s.id).error
  {
    SeriesOfSpec(s.id);
  }

  lemma {:induction false} LowerKeepsSpaces(s: string)
    ensures Count(Lower(s), ' ') == Count(s, ' ')
  {
    if s != [] {
      assert Lower(s)[1..] == Lower(s[1..]);
      LowerKeepsSpaces(s[1..]);
    }
  }

  /** What one character of a display name becomes in the field name. */
  function FieldChar(c: char): string {
    if c == ' ' then [] else if c == '#' then ['.'] else [LowerChar(c)]
  }

  /** The field name written character by character, independently of the
      three string calls `Normalize` chains. */
  function FieldByChar(name: string): string {
    if name == [] then [] else FieldChar(name[0]) + FieldByChar(name[1..])
  }

  lemma {:induction false} FieldByCharAppend(a: string, b: string)
    ensures FieldByChar(a + b) == FieldByChar(a) + FieldByChar(b)
  {
    if a != [] {
      assert (a + b)[1..] == a[1..] + b;
      FieldByCharAppend(a[1..], b);
    } else {
      assert a + b == b;
    }
  }

  lemma FieldOfAppend(a: string, b: string)
    ensures FieldOf(a + b) == FieldOf(a) + FieldOf(b)
  {
    LowerAppend(a, b);
    DeleteAppend(Lower(a), Lower(b), ' ');
    ReplaceAppend(Delete(Lower(a), ' '), Delete(Lower(b), ' '), '#', '.');
  }

  lemma FieldOfChar(c: char)
    ensures FieldOf([c]) == FieldChar(c)
  {
    assert Lower([c]) == [LowerChar(c)];
  }

  /** `ToLower().Replace(" ", null).Replace('#', '.')` is the per-character
      rule: a space vanishes, '#' becomes '.', anything else is lower-cased. */
  lemma {:induction false} FieldOfByChar(name: string)
    ensures FieldOf(name) == FieldByChar(name)
  {
    if name != [] {
      assert name == [name[0]] + name[1..];
      FieldOfAppend([name[0]], name[1..]);
      FieldOfChar(name[0]);
      FieldOfByChar(name[1..]);
    }
  }

  /** A name without spaces or '#' is only lower-cased. */
  lemma FieldOfPlain(name: string)
    requires ' ' !in name && '#' !in name
    ensures FieldOf(name) == Lower(name)
  {
    var lowered := Lower(name);
    assert ' ' !in lowered && '#' !in lowered by {
      forall i | 0 <= i < |lowered|
        ensures lowered[i] != ' ' && lowered[i] != '#'
      {
        assert lowered[i] == LowerChar(name[i]);
      }
    }
    DeleteAbsent(lowered, ' ');
    ReplaceAbsent(lowered, '#', '.');
  }

  /** A cleaned field is left alone by cleaning it again. */
  lemma FieldOfIdempotent(name: string)
    ensures FieldOf(FieldOf(name)) == FieldOf(name)
  {
    var f := FieldOf(name);
    FieldOfClean(name);
    FieldOfPlain(f);
    forall i | 0 <= i < |f|
      ensures Lower(f)[i] == f[i]
    {
      assert !IsUpper(f[i]);
    }
  }

  /** The series is the dotted path cut at a '.' after which none follows. */
  lemma SeriesAt(id: string, k: nat)
    requires |id| > 0 && k < |Dotted(id)|
    requires Dotted(id)[k] == '.' && '.' !in Dotted(id)[k + 1..]
    ensures SeriesOf(id) == Success(Dotted(id)[..k])
  {
    LastIndexOfAt(Dotted(id), '.', k);
  }

  /** The series drops the final path segment and keeps the rest of the
      path, dotted. */
  lemma SeriesDropsLastSegment(path: string, last: string)
    requires '/' !in last && '.' !in last
    ensures SeriesOf("/" + path + "/" + last) == Success(Replace(path, '/', '.'))
  {
    var id := "/" + path + "/" + last;
    var t := Replace(path, '/', '.') + "." + last;
    assert Dotted(id) == t by {
      forall i | 0 <= i < |t|
        ensures Dotted(id)[i] == t[i]
      {
        assert Dotted(id)[i] == Replace(id, '/', '.')[i + 1];
      }
    }
    assert t[|path| + 1..] == last;
    SeriesAt(id, |path|);
    assert t[..|path|] == Replace(path, '/', '.');
  }

  lemma DottedGpuLoad()
    ensures Dotted("/nvidiagpu/0/load/0") == "nvidiagpu.0.load.0"
  {
  }

  lemma SeriesOfGpuLoad()
    ensures SeriesOf("/nvidiagpu/0/load/0") == Success("nvidiagpu.0.load")
  {
    DottedGpuLoad();
    LastIndexOfAt("nvidiagpu.0.load.0", '.', 16);
    assert "nvidiagpu.0.load.0"[..16] == "nvidiagpu.0.load";
  }

  lemma FieldGpu()
    ensures FieldByChar("GPU") == "gpu"
  {
    assert LowerChar('G') == 'g' && LowerChar('P') == 'p' && LowerChar('U') == 'u';
    assert FieldByChar("U") == "u";
    assert FieldByChar("PU") == "pu";
  }

  lemma FieldSpaceCore()
    ensures FieldByChar(" Core") == "core"
  {
    assert FieldByChar("e") == "e";
    assert FieldByChar("re") == "re";
    assert FieldByChar("ore") == "ore";
  }

  lemma FieldGpuCore()
    ensures FieldByChar("GPU Core") == "gpucore"
  {
    FieldGpu();
    FieldSpaceCore();
    assert "GPU Core" == "GPU" + " Core";
    FieldByCharAppend("GPU", " Core");
  }

  /** The GPU load sensor of the identifier's own comment: "GPU Core" on
      "/nvidiagpu/0/load/0" is written as field "gpucore" of series
      "nvidiagpu.0.load". */
  lemma NormalizeGpuLoad(name: string, value: real)
    ensures Normalize(Reading("/nvidiagpu/0/load/0", name, value))
         == Success(Point("nvidiagpu.0.load", FieldByChar(name), value))
  {
    SeriesOfGpuLoad();
    FieldOfByChar(name);
  }

  lemma DottedCpuTemperature()
    ensures Dotted("/intelcpu/0/temperature/2") == "intelcpu.0.temperature.2"
  {
  }

  lemma SeriesOfCpuTemperature()
    ensures SeriesOf("/intelcpu/0/temperature/2") == Success("intelcpu.0.temperature")
  {
    DottedCpuTemperature();
    LastIndexOfAt("intelcpu.0.temperature.2", '.', 22);
    assert "intelcpu.0.temperature.2"[..22] == "intelcpu.0.temperature";
  }

  lemma FieldNumberedCore()
    ensures FieldByChar("Core #2") == "core.2"
  {
    assert FieldByChar("2") == "2";
    assert FieldByChar("#2") == ".2";
    assert FieldByChar(" #2") == ".2";
    assert FieldByChar("e #2") == "e.2";
    assert FieldByChar("re #2") == "re.2";
    assert FieldByChar("ore #2") == "ore.2";
  }

  /** A numbered core: '#' splits a name such as "Core #2" into a field
      such as "core.2". */
  lemma NormalizeCpuTemperature(name: string, value: real)
    ensures Normalize(Reading("/intelcpu/0/temperature/2", name, value))
         == Success(Point("intelcpu.0.temperature", FieldByChar(name), value))
  {
    SeriesOfCpuTemperature();
    FieldOfByChar(name);
  }

  /** Identifiers without a separator after the first character, and the
      empty identifier, make `Normalize` throw. */
  lemma NormalizeRejects()
    ensures Normalize(Reading("/cpu", "Load", 1.0)) == Failure(NoSeparator("/cpu"))
    ensures Normalize(Reading("", "Load", 1.0)) == Failure(EmptyIdentifier)
  {
    assert !HasSeparator("/cpu") by {
      var id := "/cpu";
      assert id[1] == 'c' && id[2] == 'p' && id[3] == 'u';
    }
  }

  /** A '.' already in the identifier counts as a separator: "/a.b" has no
      '/' after its first character, yet normalises to series "a". */
  lemma NormalizeOriginalDot(name: string, value: real)
    ensures Normalize(Reading("/a.b", name, value)) == Success(Point("a", FieldOf(name), value))
  {
    assert Dotted("/a.b") == "a.b";
    assert LastIndexOf("a.b", '.') == 1;
    assert "a.b"[..1] == "a";
  }

  /** A two-segment identifier "/s/l" gives series "s". */
  lemma NormalizeShortId(seg: char, last: char, name: string, value: real)
    requires seg != '/' && seg != '.' && last != '/' && last != '.'
    ensures Normalize(Reading(['/', seg, '/', last], name, value)) == Success(Point([seg], FieldOf(name), value))
  {
    var id := ['/', seg, '/', last];
    assert Dotted(id) == [seg, '.', last];
    LastIndexOfAt([seg, '.', last], '.', 1);
    assert [seg, '.', last][..1] == [seg];
  }
}
