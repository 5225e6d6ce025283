/** One tick of `MetricTimer`: `ReportMetrics` catching whatever
    `SendMetrics` throws, `SendMetrics` counting the iteration and writing
    every normalised reading, and the `ShowMetricsFirstRun` flag. */
module Cycle {
  import opened Wrappers
  import opened Normalizer
  import opened Sensors
  import Strings

  /** The counter `SendMetrics` increments once per pass. */
  const IterationsCounter: string := "iterations"

  /** What the metrics collector is asked to do, in order. */
  datatype SinkOp =
    | Increment(counter: string)   // `Metrics.Increment`
    | Write(point: Point)          // `Metrics.Write` of one field

  /** The log lines a tick produces (timings are not modelled). */
  datatype LogLine =
    | NoValue(id: string)              // warning: "<id> did not have a value"
    | ShowSensor(point: Point)         // info: "Sensor: <series> - <field> (<value>)"
    | SentCount(count: nat)            // info: "Sent <count> metrics in ...ms"
    | SendFailed(error: NormalizeError) // error: "Unable to send metrics"

  /** The state a tick reads and changes: everything sent to the collector,
      everything logged, and the static `ShowMetricsFirstRun` flag. */
  datatype Service = Service(sink: seq<SinkOp>, log: seq<LogLine>, showMetricsFirstRun: bool)

  /** How far one pass over the sensors got: the points written, the lines
      logged and, when a reading failed to normalise, the exception. */
  datatype Pass = Pass(writes: seq<Point>, log: seq<LogLine>, failure: Option<NormalizeError>)

  datatype Outcome =
    | Completed(sensorCount: nat)   // `SendMetrics` returned
    | Aborted(error: NormalizeError) // `SendMetrics` threw; `ReportMetrics` caught it

  datatype Tick = Tick(service: Service, outcome: Outcome)

  /** A fresh service: nothing sent or logged; the flag starts set only in
      a DEBUG build. */
  function Initial(debugBuild: bool): Service {
    Service([], [], debugBuild)
  }

  /** Number of "iterations" increments sent to the collector. */
  function Iterations(sink: seq<SinkOp>): nat {
    if sink == [] then 0
    else Iterations(sink[..|sink| - 1]) + (if sink[|sink| - 1] == Increment(IterationsCounter) then 1 else 0)
  }

  /** The points written to the collector, in order. */
  function Written(sink: seq<SinkOp>): seq<Point> {
    if sink == [] then []
    else Written(sink[..|sink| - 1]) + (if sink[|sink| - 1].Write? then [sink[|sink| - 1].point] else [])
  }

  /** Identifiers warned about in `log`, in order. */
  function Warned(log: seq<LogLine>): seq<string> {
    if log == [] then [] else (if log[0].NoValue? then [log[0].id] else []) + Warned(log[1..])
  }

  /** Points echoed by the verbose first-run logging, in order. */
  function Shown(log: seq<LogLine>): seq<Point> {
    if log == [] then [] else (if log[0].ShowSensor? then [log[0].point] else []) + Shown(log[1..])
  }

  function Writes(points: seq<Point>): (ops: seq<SinkOp>)
    ensures |ops| == |points|
    ensures forall i :: 0 <= i < |points| ==> ops[i] == Write(points[i])
  {
    seq(|points|, i requires 0 <= i < |points| => Write(points[i]))
  }

  /** Every reading normalises without throwing. */
  predicate AllNormalize(rs: seq<Reading>) {
    forall i :: 0 <= i < |rs| ==> Normalize(rs[i]).Success?
  }

  /** What the enumeration of one sensor amounts to inside `SendMetrics`:
      a sensor without a value is only warned about; one with a value is
      normalised, which yields a point or throws. */
  datatype Step =
    | Absent(id: string)
    | Attempted(result: Result<Point, NormalizeError>)

  function StepOf(s: RawSensor): Step {
    match s.value
    case None => Absent(s.id)
    case Some(v) => Attempted(Normalize(Reading(s.id, s.name, v)))
  }

  /** The steps of the sensors, in enumeration order. */
  function Steps(ss: seq<RawSensor>): (steps: seq<Step>)
    ensures |steps| == |ss|
    ensures forall i :: 0 <= i < |ss| ==> steps[i] == StepOf(ss[i])
  {
    seq(|ss|, i requires 0 <= i < |ss| => StepOf(ss[i]))
  }

  predicate Throws(step: Step) {
    step.Attempted? && step.result.Failure?
  }

  /** No step of the pass throws. */
  predicate NoneThrows(steps: seq<Step>) {
    forall i :: 0 <= i < |steps| ==> !Throws(steps[i])
  }

  /** The points of the steps that normalised, in order. */
  function Points(steps: seq<Step>): seq<Point> {
    if steps == [] then []
    else (if steps[0].Attempted? && steps[0].result.Success? then [steps[0].result.value] else []) + Points(steps[1..])
  }

  /** The identifiers of the sensors without a value, in order. */
  function Absents(steps: seq<Step>): seq<string> {
    if steps == [] then [] else (if steps[0].Absent? then [steps[0].id] else []) + Absents(steps[1..])
  }

  /** The `foreach` of `SendMetrics` over the lazily enumerated sensors: a
      missing value is warned about, a point is written (and echoed when
      `verbose`), and the first normalisation failure ends the pass, so the
      sensors after it are neither written nor warned about. */
  function Walk(steps: seq<Step>, verbose: bool): Pass {
    if steps == [] then Pass([], [], None)
    else
      match steps[0]
      case Absent(id) =>
        var rest := Walk(steps[1..], verbose);
        Pass(rest.writes, [NoValue(id)] + rest.log, rest.failure)
      case Attempted(Failure(e)) => Pass([], [], Some(e))
      case Attempted(Success(point)) =>
        var rest := Walk(steps[1..], verbose);
        Pass([point] + rest.writes, (if verbose then [ShowSensor(point)] else []) + rest.log, rest.failure)
  }

  lemma {:induction false} LogAppend(a: seq<LogLine>, b: seq<LogLine>)
    ensures Warned(a + b) == Warned(a) + Warned(b)
    ensures Shown(a + b) == Shown(a) + Shown(b)
  {
    if a != [] {
      assert (a + b)[1..] == a[1..] + b;
      LogAppend(a[1..], b);
    } else {
      assert a + b == b;
    }
  }

  lemma AllNormalizeCons(r: Reading, rs: seq<Reading>)
    ensures AllNormalize([r] + rs) <==> Normalize(r).Success? && AllNormalize(rs)
  {
    assert ([r] + rs)[0] == r;
    assert forall i :: 0 <= i < |rs| ==> ([r] + rs)[i + 1] == rs[i];
  }

  /** The pass reaches the end exactly when no step throws. */
  lemma {:induction false} WalkCompletes(steps: seq<Step>, verbose: bool)
    ensures Walk(steps, verbose).failure.None? <==> NoneThrows(steps)
  {
    if steps != [] {
      WalkCompletes(steps[1..], verbose);
      assert forall i :: 1 <= i < |steps| ==> steps[i] == steps[1..][i - 1];
    }
  }

  /** A pass that reaches the end writes every point and warns about every
      missing value, each in order, whatever the interleaving. */
  lemma {:induction false} WalkWritesAll(steps: seq<Step>, verbose: bool)
    requires Walk(steps, verbose).failure.None?
    ensures Walk(steps, verbose).writes == Points(steps)
    ensures Warned(Walk(steps, verbose).log) == Absents(steps)
  {
    if steps != [] {
      WalkWritesAll(steps[1..], verbose);
      var rest := Walk(steps[1..], verbose);
      match steps[0]
      case Absent(id) =>
        LogAppend([NoValue(id)], rest.log);
      case Attempted(r) =>
        LogAppend(if verbose then [ShowSensor(r.value)] else [], rest.log);
    }
  }

  /** Points are echoed to the log exactly when the pass is verbose, and
      then all of those written. */
  lemma {:induction false} WalkShows(steps: seq<Step>, verbose: bool)
    ensures Shown(Walk(steps, verbose).log) == if verbose then Walk(steps, verbose).writes else []
  {
    if steps != [] {
      WalkShows(steps[1..], verbose);
      var rest := Walk(steps[1..], verbose);
      match steps[0]
      case Absent(id) =>
        LogAppend([NoValue(id)], rest.log);
      case Attempted(r) =>
        if r.Success? {
          LogAppend(if verbose then [ShowSensor(r.value)] else [], rest.log);
        }
    }
  }

  /** A pass that throws stops at a step `k` that throws that very error;
      no step before it throws, and what was written and logged is what the
      steps before `k` produce: nothing after `k` is visited. */
  lemma {:induction false} WalkStops(steps: seq<Step>, verbose: bool) returns (k: nat)
    requires Walk(steps, verbose).failure.Some?
    ensures k < |steps| && Throws(steps[k])
    ensures Walk(steps, verbose).failure == Some(steps[k].result.error)
    ensures forall i :: 0 <= i < k ==> !Throws(steps[i])
    ensures Walk(steps[..k], verbose).failure.None?
    ensures Walk(steps, verbose).writes == Walk(steps[..k], verbose).writes
    ensures Walk(steps, verbose).log == Walk(steps[..k], verbose).log
  {
    if Throws(steps[0]) {
      k := 0;
      assert steps[..k] == [];
    } else {
      var j := WalkStops(steps[1..], verbose);
      k := j + 1;
      assert steps[..k][1..] == steps[1..][..j];
      assert steps[..k][0] == steps[0];
      assert forall i :: 1 <= i < k ==> steps[i] == steps[1..][i - 1];
    }
  }

  /** A sensor's step is absent exactly when the sensor has no value, so the
      absent steps are the sensors `ReadSensors` warns about. */
  lemma {:induction false} StepsAbsent(ss: seq<RawSensor>)
    ensures Absents(Steps(ss)) == Missing(ss)
  {
    if ss != [] {
      StepsAbsent(ss[1..]);
      assert Steps(ss)[1..] == Steps(ss[1..]);
    }
  }

  /** No step throws exactly when every reading `ReadSensors` yields
      normalises. */
  lemma {:induction false} StepsNormalize(ss: seq<RawSensor>)
    ensures NoneThrows(Steps(ss)) <==> AllNormalize(Present(ss))
  {
    if ss != [] {
      StepsNormalize(ss[1..]);
      StepsCons(ss);
      NoThrowCons(StepOf(ss[0]), Steps(ss[1..]));
      var rest := Present(ss[1..]);
      var s := ss[0];
      if s.value.Some? {
        var r := Reading(s.id, s.name, s.value.value);
        assert Present(ss) == [r] + rest;
        AllNormalizeCons(r, rest);
      } else {
        assert Present(ss) == rest;
      }
    }
  }

  lemma StepsCons(ss: seq<RawSensor>)
    requires ss != []
    ensures Steps(ss) == [StepOf(ss[0])] + Steps(ss[1..])
  {
  }

  lemma NoThrowCons(step: Step, steps: seq<Step>)
    ensures NoneThrows([step] + steps) <==> !Throws(step) && NoneThrows(steps)
  {
    assert ([step] + steps)[0] == step;
    assert forall i :: 0 <= i < |steps| ==> ([step] + steps)[i + 1] == steps[i];
  }

  /** When every reading normalises, the points of the steps are those
      readings normalised, one each, in order. */
  lemma {:induction false} StepsPoints(ss: seq<RawSensor>)
    requires AllNormalize(Present(ss))
    ensures |Points(Steps(ss))| == |Present(ss)|
    ensures forall i :: 0 <= i < |Present(ss)| ==> Normalize(Present(ss)[i]) == Success(Points(Steps(ss))[i])
  {
    if ss != [] {
      var rest := Present(ss[1..]);
      assert Steps(ss)[1..] == Steps(ss[1..]);
      var s := ss[0];
      if s.value.Some? {
        var r := Reading(s.id, s.name, s.value.value);
        assert Present(ss) == [r] + rest;
        AllNormalizeCons(r, rest);
        StepsPoints(ss[1..]);
      } else {
        assert Present(ss) == rest;
        StepsPoints(ss[1..]);
      }
    }
  }

  lemma {:induction false} SinkAppend(a: seq<SinkOp>, b: seq<SinkOp>)
    ensures Iterations(a + b) == Iterations(a) + Iterations(b)
    ensures Written(a + b) == Written(a) + Written(b)
    decreases |b|
  {
    if b == [] {
      assert a + b == a;
    } else {
      assert (a + b)[..|a + b| - 1] == a + b[..|b| - 1];
      SinkAppend(a, b[..|b| - 1]);
    }
  }

  /** Writing points increments no counter and writes exactly those points. */
  lemma {:induction false} WritesOnly(points: seq<Point>)
    ensures Iterations(Writes(points)) == 0
    ensures Written(Writes(points)) == points
    decreases |points|
  {
    if points != [] {
      var n := |points| - 1;
      WritesOnly(points[..n]);
      assert Writes(points)[..n] == Writes(points[..n]);
      assert points == points[..n] + [points[n]];
    }
  }

  /** What `SendMetrics` leaves behind after a pass `p`: the increment and
      the writes reach the collector; a pass that got to the end logs the
      count and clears the first-run flag, one that threw does neither. */
  function Send(s: Service, p: Pass): Tick {
    var sink := s.sink + [Increment(IterationsCounter)] + Writes(p.writes);
    match p.failure
    case None => Tick(Service(sink, s.log + p.log + [SentCount(|p.writes|)], false), Completed(|p.writes|))
    case Some(e) => Tick(Service(sink, s.log + p.log, s.showMetricsFirstRun), Aborted(e))
  }

  /** The `catch` of `ReportMetrics`: an aborted pass is logged as an error
      and the service carries on. */
  function Catch(t: Tick): Tick {
    match t.outcome
    case Completed(_) => t
    case Aborted(e) => Tick(t.service.(log := t.service.log + [SendFailed(e)]), t.outcome)
  }

  /** `SendMetrics`: increment "iterations", then walk the sensors. */
  function SendMetrics(s: Service, hw: Hardware): Tick {
    Send(s, Walk(Steps(Flatten(hw)), s.showMetricsFirstRun))
  }

  /** `ReportMetrics`, the timer's handler. The signal time is read into
      `epoch` but never reaches a point. */
  function ReportMetrics(s: Service, hw: Hardware, signalTime: int): Tick {
    Catch(SendMetrics(s, hw))
  }

  /** The bookkeeping of one tick, whatever the pass did: "iterations" is
      incremented once, ahead of the pass's writes; the pass's writes and
      log lines follow what was there; a completed tick ends the log with
      the count and clears the flag, an aborted one ends it with the error
      and leaves the flag alone. */
  lemma {:induction false} TickBookkeeping(s: Service, p: Pass)
    ensures var t := Catch(Send(s, p));
      && t.service.sink == s.sink + [Increment(IterationsCounter)] + Writes(p.writes)
      && Iterations(t.service.sink) == Iterations(s.sink) + 1
      && Written(t.service.sink) == Written(s.sink) + p.writes
      && (p.failure.None? ==>
            && t.outcome == Completed(|p.writes|)
            && t.service.log == s.log + p.log + [SentCount(|p.writes|)]
            && !t.service.showMetricsFirstRun)
      && (p.failure.Some? ==>
            && t.outcome == Aborted(p.failure.value)
            && t.service.log == s.log + p.log + [SendFailed(p.failure.value)]
            && t.service.showMetricsFirstRun == s.showMetricsFirstRun)
  {
    var inc := [Increment(IterationsCounter)];
    WritesOnly(p.writes);
    SinkAppend(s.sink, inc);
    SinkAppend(s.sink + inc, Writes(p.writes));
    assert inc[..0] == [];
  }

  /** The tick of `ReportMetrics` is the bookkeeping of its pass. */
  lemma TickOfPass(s: Service, hw: Hardware, signalTime: int)
    ensures ReportMetrics(s, hw, signalTime) == Catch(Send(s, Walk(Steps(Flatten(hw)), s.showMetricsFirstRun)))
  {
  }

  /** One tick counts one iteration, ahead of anything it writes, and keeps
      what was sent and logged before. */
  lemma TickCountsIteration(s: Service, hw: Hardware, signalTime: int)
    ensures var t := ReportMetrics(s, hw, signalTime).service;
      && t.sink[..|s.sink|] == s.sink
      && t.sink[|s.sink|] == Increment(IterationsCounter)
      && Iterations(t.sink) == Iterations(s.sink) + 1
      && t.log[..|s.log|] == s.log
  {
    TickOfPass(s, hw, signalTime);
    TickBookkeeping(s, Walk(Steps(Flatten(hw)), s.showMetricsFirstRun));
  }

  /** A tick completes exactly when every reading normalises; it then
      reports the number of readings and clears the first-run flag, and
      otherwise logs the error and leaves the flag alone. */
  lemma TickOutcome(s: Service, hw: Hardware, signalTime: int)
    ensures var t := ReportMetrics(s, hw, signalTime);
      && (t.outcome.Completed? <==> AllNormalize(Readings(hw)))
      && (t.outcome.Completed? ==>
            && t.outcome.sensorCount == |Readings(hw)|
            && t.service.log[|t.service.log| - 1] == SentCount(t.outcome.sensorCount)
            && !t.service.showMetricsFirstRun)
      && (t.outcome.Aborted? ==>
            && t.service.log[|t.service.log| - 1] == SendFailed(t.outcome.error)
            && t.service.showMetricsFirstRun == s.showMetricsFirstRun)
  {
    var steps := Steps(Flatten(hw));
    var p := Walk(steps, s.showMetricsFirstRun);
    TickOfPass(s, hw, signalTime);
    TickBookkeeping(s, p);
    WalkCompletes(steps, s.showMetricsFirstRun);
    StepsNormalize(Flatten(hw));
    if p.failure.None? {
      WalkWritesAll(steps, s.showMetricsFirstRun);
      StepsPoints(Flatten(hw));
    }
  }

  /** What a tick adds to the collector and to the log, in terms of its
      pass: the pass's points after the increment, and the pass's lines
      followed by the count or the error. */
  lemma TickAdds(s: Service, p: Pass)
    ensures var t := Catch(Send(s, p)).service;
      && Written(t.sink) == Written(s.sink) + p.writes
      && Warned(t.log[|s.log|..]) == Warned(p.log)
      && Shown(t.log[|s.log|..]) == Shown(p.log)
  {
    TickBookkeeping(s, p);
    var last := if p.failure.None? then SentCount(|p.writes|) else SendFailed(p.failure.value);
    assert Catch(Send(s, p)).service.log[|s.log|..] == p.log + [last];
    LogAppend(p.log, [last]);
  }

  /** A completed tick writes, after what was there, the normalised form of
      every reading in order. */
  lemma CycleWritesAll(s: Service, hw: Hardware, signalTime: int)
    requires ReportMetrics(s, hw, signalTime).outcome.Completed?
    ensures var t := ReportMetrics(s, hw, signalTime).service;
      && |Written(t.sink)| == |Written(s.sink)| + |Readings(hw)|
      && Written(t.sink)[..|Written(s.sink)|] == Written(s.sink)
      && forall i :: 0 <= i < |Readings(hw)| ==>
           Normalize(Readings(hw)[i]) == Success(Written(t.sink)[|Written(s.sink)| + i])
  {
    var ss := Flatten(hw);
    var v := s.showMetricsFirstRun;
    var p := Walk(Steps(ss), v);
    TickOfPass(s, hw, signalTime);
    TickBookkeeping(s, p);
    TickAdds(s, p);
    WalkCompletes(Steps(ss), v);
    StepsNormalize(ss);
    WalkWritesAll(Steps(ss), v);
    StepsPoints(ss);
  }

  /** A completed tick warns once per sensor without a value, in order, and
      echoes the points it wrote only when the first-run flag was set. */
  lemma CycleWarnsAndShows(s: Service, hw: Hardware, signalTime: int)
    requires ReportMetrics(s, hw, signalTime).outcome.Completed?
    ensures var t := ReportMetrics(s, hw, signalTime).service;
      && Warned(t.log[|s.log|..]) == Warnings(hw)
      && (s.showMetricsFirstRun ==> Written(t.sink) == Written(s.sink) + Shown(t.log[|s.log|..]))
      && (!s.showMetricsFirstRun ==> Shown(t.log[|s.log|..]) == [])
  {
    var ss := Flatten(hw);
    var v := s.showMetricsFirstRun;
    var p := Walk(Steps(ss), v);
    TickOfPass(s, hw, signalTime);
    TickBookkeeping(s, p);
    TickAdds(s, p);
    WalkWritesAll(Steps(ss), v);
    WalkShows(Steps(ss), v);
    StepsAbsent(ss);
  }

  /** A pass over sensors that throws stops at the first sensor `k` whose
      reading fails to normalise, with that error; its points are the
      readings before `k` normalised, and its warnings those of the sensors
      before `k`. */
  lemma PassStops(ss: seq<RawSensor>, verbose: bool) returns (k: nat)
    requires Walk(Steps(ss), verbose).failure.Some?
    ensures k < |ss|
    ensures ss[k].value.Some?
    ensures var p := Walk(Steps(ss), verbose);
      && Normalize(Reading(ss[k].id, ss[k].name, ss[k].value.value)) == Failure(p.failure.value)
      && AllNormalize(Present(ss[..k]))
      && |p.writes| == |Present(ss[..k])|
      && (forall i :: 0 <= i < |Present(ss[..k])| ==> Normalize(Present(ss[..k])[i]) == Success(p.writes[i]))
      && Warned(p.log) == Missing(ss[..k])
  {
    var steps := Steps(ss);
    k := WalkStops(steps, verbose);
    var before := ss[..k];
    assert steps[..k] == Steps(before);
    WalkWritesAll(Steps(before), verbose);
    StepsNormalize(before);
    StepsPoints(before);
    StepsAbsent(before);
  }

  /** An aborted tick stops at the first sensor `k` (device by device, sensor
      by sensor) whose reading fails to normalise: the points written and
      the warnings logged are those of the sensors before `k` only. */
  lemma CycleAborted(s: Service, hw: Hardware, signalTime: int) returns (k: nat)
    requires ReportMetrics(s, hw, signalTime).outcome.Aborted?
    ensures k < |Flatten(hw)|
    ensures Flatten(hw)[k].value.Some?
    ensures var t := ReportMetrics(s, hw, signalTime);
      var sensor := Flatten(hw)[k];
      var before := Flatten(hw)[..k];
      && Normalize(Reading(sensor.id, sensor.name, sensor.value.value)) == Failure(t.outcome.error)
      && AllNormalize(Present(before))
      && |Written(t.service.sink)| == |Written(s.sink)| + |Present(before)|
      && Written(t.service.sink)[..|Written(s.sink)|] == Written(s.sink)
      && (forall i :: 0 <= i < |Present(before)| ==>
            Normalize(Present(before)[i]) == Success(Written(t.service.sink)[|Written(s.sink)| + i]))
      && Warned(t.service.log[|s.log|..]) == Missing(before)
  {
    var p := Walk(Steps(Flatten(hw)), s.showMetricsFirstRun);
    TickOfPass(s, hw, signalTime);
    TickBookkeeping(s, p);
    TickAdds(s, p);
    k := PassStops(Flatten(hw), s.showMetricsFirstRun);
  }

  /** The timer's signal time has no influence on a tick. */
  lemma IgnoresSignalTime(s: Service, hw: Hardware, t1: int, t2: int)
    ensures ReportMetrics(s, hw, t1) == ReportMetrics(s, hw, t2)
  {
  }

  /** One firing of the timer: the hardware as read on that tick and the
      event's signal time. */
  datatype TimerTick = TimerTick(hw: Hardware, signalTime: int)

  /** The service after the timer fired once per element of `ticks`. */
  function Run(s: Service, ticks: seq<TimerTick>): Service {
    if ticks == [] then s
    else
      var last := ticks[|ticks| - 1];
      ReportMetrics(Run(s, ticks[..|ticks| - 1]), last.hw, last.signalTime).service
  }

  /** No tick is lost: however many passes throw, every firing of the timer
      is counted once, and each adds at least one log line. */
  lemma {:induction false} RunCountsEveryTick(s: Service, ticks: seq<TimerTick>)
    ensures Iterations(Run(s, ticks).sink) == Iterations(s.sink) + |ticks|
    ensures |Run(s, ticks).log| >= |s.log| + |ticks|
  {
    if ticks != [] {
      var n := |ticks| - 1;
      RunCountsEveryTick(s, ticks[..n]);
      var before := Run(s, ticks[..n]);
      TickBookkeeping(before, Walk(Steps(Flatten(ticks[n].hw)), before.showMetricsFirstRun));
    }
  }

  /** Once the first-run flag is clear it stays clear. */
  lemma {:induction false} RunKeepsFlagCleared(s: Service, ticks: seq<TimerTick>)
    requires !s.showMetricsFirstRun
    ensures !Run(s, ticks).showMetricsFirstRun
  {
    if ticks != [] {
      var n := |ticks| - 1;
      RunKeepsFlagCleared(s, ticks[..n]);
      var before := Run(s, ticks[..n]);
      TickBookkeeping(before, Walk(Steps(Flatten(ticks[n].hw)), before.showMetricsFirstRun));
    }
  }

  /** Two devices, the first with a sensor that has no value. */
  function TwoDevicesHw(x: real, y: real): Hardware {
    [[RawSensor("/a/1", "s1", Some(x)), RawSensor("/a/2", "s2", None)],
     [RawSensor("/b/3", "s3", Some(y))]]
  }

  lemma TwoDevicesSteps(x: real, y: real)
    ensures Steps(Flatten(TwoDevicesHw(x, y)))
      == [Attempted(Success(Point("a", "s1", x))), Absent("/a/2"), Attempted(Success(Point("b", "s3", y)))]
  {
    var a1 := RawSensor("/a/1", "s1", Some(x));
    var a2 := RawSensor("/a/2", "s2", None);
    var b3 := RawSensor("/b/3", "s3", Some(y));
    TwoDevicesFlatten(x, y);
    StepsOfThree(a1, a2, b3);
    TwoDevicesNormalize(x, y);
  }

  lemma TwoDevicesFlatten(x: real, y: real)
    ensures Flatten(TwoDevicesHw(x, y))
      == [RawSensor("/a/1", "s1", Some(x)), RawSensor("/a/2", "s2", None), RawSensor("/b/3", "s3", Some(y))]
  {
    var hw := TwoDevicesHw(x, y);
    assert hw[..1] == [hw[0]];
    assert Flatten(hw[..1]) == hw[0] by {
      assert hw[..1][..0] == [];
    }
  }

  lemma StepsOfThree(a: RawSensor, b: RawSensor, c: RawSensor)
    ensures Steps([a, b, c]) == [StepOf(a), StepOf(b), StepOf(c)]
  {
  }

  lemma TwoDevicesPass(pa: Point, pb: Point)
    ensures Walk([Attempted(Success(pa)), Absent("/a/2"), Attempted(Success(pb))], false)
      == Pass([pa, pb], [NoValue("/a/2")], None)
  {
    var steps := [Attempted(Success(pa)), Absent("/a/2"), Attempted(Success(pb))];
    assert steps[1..] == [Absent("/a/2"), Attempted(Success(pb))];
    assert steps[1..][1..] == [Attempted(Success(pb))];
    assert Walk(steps[1..][1..], false) == Pass([pb], [], None);
  }

  /** On those devices one tick writes two points after the increment,
      reports two, and warns about the missing one. */
  lemma TwoDevices(x: real, y: real)
    ensures var t := ReportMetrics(Initial(false), TwoDevicesHw(x, y), 0);
      && t.outcome == Completed(2)
      && t.service.sink == [Increment(IterationsCounter), Write(Point("a", "s1", x)), Write(Point("b", "s3", y))]
      && t.service.log == [NoValue("/a/2"), SentCount(2)]
  {
    var pa := Point("a", "s1", x);
    var pb := Point("b", "s3", y);
    TwoDevicesSteps(x, y);
    TwoDevicesPass(pa, pb);
    TwoPointTick(TwoDevicesHw(x, y), pa, pb, "/a/2");
  }

  lemma TwoPointTick(hw: Hardware, pa: Point, pb: Point, missing: string)
    requires Walk(Steps(Flatten(hw)), false) == Pass([pa, pb], [NoValue(missing)], None)
    ensures var t := ReportMetrics(Initial(false), hw, 0);
      && t.outcome == Completed(2)
      && t.service.sink == [Increment(IterationsCounter), Write(pa), Write(pb)]
      && t.service.log == [NoValue(missing), SentCount(2)]
  {
    TickOfPass(Initial(false), hw, 0);
    assert Writes([pa, pb]) == [Write(pa), Write(pb)];
  }

  lemma TwoDevicesNormalize(x: real, y: real)
    ensures Normalize(Reading("/a/1", "s1", x)) == Success(Point("a", "s1", x))
    ensures Normalize(Reading("/b/3", "s3", y)) == Success(Point("b", "s3", y))
  {
    Normalizer.NormalizeShortId('a', '1', "s1", x);
    Normalizer.NormalizeShortId('b', '3', "s3", y);
    FieldOfPlain("s1");
    FieldOfPlain("s3");
    assert Strings.Lower("s1") == "s1" && Strings.Lower("s3") == "s3";
  }
}
