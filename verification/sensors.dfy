/** `MetricTimer.ReadSensors`: the hardware tree flattened into the sensors
    that produced a value, device by device and sensor by sensor. */
module Sensors {
  import opened Wrappers
  import opened Normalizer

  /** One sensor as the hardware library exposes it after `Update()`:
      identifier, display name and a value that may be missing. */
  datatype RawSensor = RawSensor(id: string, name: string, value: Option<real>)

  /** The sensors of one hardware device, in enumeration order. */
  type Device = seq<RawSensor>

  /** `computer.Hardware`, each device already refreshed. */
  type Hardware = seq<Device>

  /** Every sensor of the machine, device after device. */
  function Flatten(hw: Hardware): (ss: seq<RawSensor>)
    ensures |ss| == SensorTotal(hw)
  {
    if hw == [] then [] else Flatten(hw[..|hw| - 1]) + hw[|hw| - 1]
  }

  function SensorTotal(hw: Hardware): nat {
    if hw == [] then 0 else SensorTotal(hw[..|hw| - 1]) + |hw[|hw| - 1]|
  }

  /** The readings the enumeration yields: one per sensor that has a value,
      carrying that value, in order. */
  function Present(ss: seq<RawSensor>): seq<Reading> {
    if ss == [] then []
    else
      (match ss[0].value
       case Some(v) => [Reading(ss[0].id, ss[0].name, v)]
       case None => [])
      + Present(ss[1..])
  }

  /** The identifiers a "did not have a value" warning is logged for. */
  function Missing(ss: seq<RawSensor>): seq<string> {
    if ss == [] then []
    else (if ss[0].value.None? then [ss[0].id] else []) + Missing(ss[1..])
  }

  /** What a full enumeration of `hw` yields. */
  function Readings(hw: Hardware): seq<Reading> {
    Present(Flatten(hw))
  }

  /** What a full enumeration of `hw` warns about. */
  function Warnings(hw: Hardware): seq<string> {
    Missing(Flatten(hw))
  }

  lemma {:induction false} PresentAppend(a: seq<RawSensor>, b: seq<RawSensor>)
    ensures Present(a + b) == Present(a) + Present(b)
    ensures Missing(a + b) == Missing(a) + Missing(b)
  {
    if a == [] {
      assert a + b == b;
    } else {
      assert (a + b)[1..] == a[1..] + b;
      PresentAppend(a[1..], b);
    }
  }

  /** Every sensor is either yielded or warned about, never both. */
  lemma {:induction false} PresentOrMissing(ss: seq<RawSensor>)
    ensures |Present(ss)| + |Missing(ss)| == |ss|
  {
    if ss != [] {
      PresentOrMissing(ss[1..]);
    }
  }

  /** Each reading is a sensor of the input with exactly its value: nothing
      is invented, in particular no 0 for a missing value. */
  lemma {:induction false} PresentSound(ss: seq<RawSensor>)
    ensures forall r :: r in Present(ss) ==> RawSensor(r.id, r.name, Some(r.value)) in ss
  {
    if ss != [] {
      PresentSound(ss[1..]);
      assert ss == [ss[0]] + ss[1..];
    }
  }

  /** Each sensor with a value is yielded, with that value. */
  lemma {:induction false} PresentComplete(ss: seq<RawSensor>, j: nat)
    requires j < |ss| && ss[j].value.Some?
    ensures Reading(ss[j].id, ss[j].name, ss[j].value.value) in Present(ss)
  {
    if j > 0 {
      PresentComplete(ss[1..], j - 1);
      assert ss == ss[..1] + ss[1..];
      PresentAppend(ss[..1], ss[1..]);
    }
  }

  /** A sensor without a value adds a warning and no reading. */
  lemma MissingAddsWarning(ss: seq<RawSensor>, s: RawSensor)
    requires s.value.None?
    ensures Present(ss + [s]) == Present(ss)
    ensures Missing(ss + [s]) == Missing(ss) + [s.id]
  {
    PresentAppend(ss, [s]);
  }

  lemma {:induction false} FlattenAppend(a: Hardware, b: Hardware)
    ensures Flatten(a + b) == Flatten(a) + Flatten(b)
    decreases |b|
  {
    if b == [] {
      assert a + b == a;
    } else {
      assert (a + b)[..|a + b| - 1] == a + b[..|b| - 1];
      FlattenAppend(a, b[..|b| - 1]);
    }
  }

  /** The contribution of one more sensor. */
  lemma PresentSnoc(ss: seq<RawSensor>, s: RawSensor)
    ensures Present(ss + [s]) == Present(ss) + (if s.value.Some? then [Reading(s.id, s.name, s.value.value)] else [])
    ensures Missing(ss + [s]) == Missing(ss) + (if s.value.None? then [s.id] else [])
  {
    PresentAppend(ss, [s]);
  }

  /** The sensors of one more device. */
  lemma FlattenPrefix(hw: Hardware, d: nat)
    requires d < |hw|
    ensures Flatten(hw[..d + 1]) == Flatten(hw[..d]) + hw[d]
  {
    assert hw[..d + 1][..d] == hw[..d];
  }

  /** `ReadSensors` as the nested `foreach` of the source, collecting the
      yielded readings and the warnings. */
  method ReadSensors(hw: Hardware) returns (readings: seq<Reading>, warnings: seq<string>)
    ensures readings == Readings(hw)
    ensures warnings == Warnings(hw)
    ensures |readings| + |warnings| == SensorTotal(hw)
  {
    readings, warnings := [], [];
    var d := 0;
    while d < |hw|
      invariant 0 <= d <= |hw|
      invariant readings == Present(Flatten(hw[..d]))
      invariant warnings == Missing(Flatten(hw[..d]))
    {
      var r, w := ReadDevice(hw[d]);
      PresentAppend(Flatten(hw[..d]), hw[d]);
      FlattenPrefix(hw, d);
      readings, warnings := readings + r, warnings + w;
      d := d + 1;
    }
    assert hw[..d] == hw;
    PresentOrMissing(Flatten(hw));
  }

  /** The inner `foreach` over one device's sensors: the readings of the
      sensors with a value and the identifiers of the others, each in order. */
  method ReadDevice(device: Device) returns (readings: seq<Reading>, warnings: seq<string>)
    ensures readings == Present(device)
    ensures warnings == Missing(device)
  {
    readings, warnings := [], [];
    var k := 0;
    while k < |device|
      invariant 0 <= k <= |device|
      invariant readings == Present(device[..k])
      invariant warnings == Missing(device[..k])
    {
      var sensor := device[k];
      PresentSnoc(device[..k], sensor);
      assert device[..k + 1] == device[..k] + [sensor];
      if sensor.value.Some? {
        readings := readings + [Reading(sensor.id, sensor.name, sensor.value.value)];
      } else {
        warnings := warnings + [sensor.id];
      }
      k := k + 1;
    }
    assert device[..k] == device;
  }
}
