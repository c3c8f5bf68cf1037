/**
 One adaptive knob: the hysteresis state machine as a function of its history.

 A tick is either critical (the knob drops to its floor) or carries one utilization sample.
 A history is a sequence of such events with the states it visits; the laws below hold for every one.
 */
module KnobHysteresis {
  import opened Words

  const DWELL_TICKS: nat := 6
  const SCALE_UP_TICKS: nat := 3
  const SCALE_DOWN_TICKS: nat := 6
  const HIGH_PERCENT: nat := 85
  const LOW_PERCENT: nat := 40

  datatype LastChange = Never | AtTick(tick: nat)

  datatype KnobView = KnobView(
    value: nat, floor: nat, hard: nat, step: nat,
    above: nat, below: nat, lastChange: LastChange, ticksInState: nat)

  function QuantizedStep(startup: nat, quantum: nat): nat
    requires quantum >= 1
  {
    Max(startup / 4 / quantum * quantum, quantum)
  }

  function NewKnob(startup: nat, floor: nat, quantum: nat): KnobView
    requires quantum >= 1
  {
    KnobView(startup, Max(Min(floor, startup), 1), startup, QuantizedStep(startup, quantum), 0, 0, Never, 0)
  }

  /** The range every knob keeps. */
  predicate InRange(k: KnobView) {
    1 <= k.floor <= k.value <= k.hard <= U32_MAX && k.step >= 1
  }

  /** A startup value of zero is the one case that leaves the range: its floor is raised to one. */
  lemma NewKnobInRangeExactly(startup: nat, floor: nat, quantum: nat)
    requires quantum >= 1 && startup <= U32_MAX
    ensures InRange(NewKnob(startup, floor, quantum)) <==> startup >= 1
  {
    QuantizedStepQuarter(startup, quantum);
  }

  /** A knob starts at its hard bound, and its floor is the default or, where that is less, the startup value. */
  lemma NewKnobStarts(startup: nat, floor: nat, quantum: nat)
    requires quantum >= 1 && startup >= 1 && floor >= 1
    ensures var k := NewKnob(startup, floor, quantum);
            k.value == k.hard == startup && k.floor <= floor && k.floor <= startup && k.floor in {floor, startup}
  {
  }

  /** A step is the most quanta in a quarter of the startup value, and one quantum when there is none. */
  lemma QuantizedStepQuarter(startup: nat, quantum: nat)
    requires quantum >= 1
    ensures var step := QuantizedStep(startup, quantum);
            && step % quantum == 0
            && (startup / 4 < quantum ==> step == quantum)
            && (startup / 4 >= quantum ==> quantum <= step && startup / 4 - quantum < step <= startup / 4)
  {
    var quarter := startup / 4;
    var n := quarter / quantum;
    assert quarter == n * quantum + quarter % quantum;
    MultipleOf(n, quantum);
    MultipleOf(1, quantum);
    DivAtLeast(1, quantum, quarter);
    if n >= 1 {
      MulMonotone(1, n, quantum);
    }
  }

  predicate IsHigh(value: nat, inFlight: nat) {
    SatMul64(inFlight, 100) >= SatMul64(value, HIGH_PERCENT)
  }

  predicate IsLow(value: nat, inFlight: nat) {
    SatMul64(inFlight, 100) <= SatMul64(value, LOW_PERCENT)
  }

  /** For 32-bit ceilings the saturating comparisons are the exact percentages. */
  lemma WatermarksAreExact(value: nat, inFlight: nat)
    requires value <= U32_MAX
    ensures IsHigh(value, inFlight) <==> inFlight * 100 >= value * 85
    ensures IsLow(value, inFlight) <==> inFlight * 100 <= value * 40
  {
  }

  function Moved(k: KnobView, tick: nat, to: nat): KnobView {
    k.(value := to, above := 0, below := 0, lastChange := AtTick(tick), ticksInState := 0)
  }

  predicate DwellElapsed(k: KnobView, tick: nat) {
    k.lastChange.Never? || SatSub(tick, k.lastChange.tick) >= DWELL_TICKS
  }

  function Clamp(k: KnobView, tick: nat): KnobView {
    if k.value == k.floor then k.(above := 0, below := 0) else Moved(k, tick, k.floor)
  }

  function Raised(k: KnobView): nat { Min(SatAdd64(k.value, k.step), k.hard) }
  function Lowered(k: KnobView): nat { Max(SatSub(k.value, k.step), k.floor) }

  /** Move to `target` once the dwell has elapsed; a knob already there resets its counters. */
  function MoveTo(k: KnobView, tick: nat, target: nat): KnobView {
    if !DwellElapsed(k, tick) then k
    else if target == k.value then k.(above := 0, below := 0)
    else Moved(k, tick, target)
  }

  function Sample(k: KnobView, inFlight: nat, tick: nat): KnobView {
    var k := k.(ticksInState := SatAdd64(k.ticksInState, 1));
    if IsHigh(k.value, inFlight) then
      var k := k.(above := SatInc8(k.above), below := 0);
      if k.above >= SCALE_UP_TICKS then MoveTo(k, tick, Raised(k)) else k
    else if IsLow(k.value, inFlight) then
      var k := k.(below := SatInc8(k.below), above := 0);
      if k.below >= SCALE_DOWN_TICKS then MoveTo(k, tick, Lowered(k)) else k
    else
      k.(above := 0, below := 0)
  }

  datatype Event = Critical | Sampled(inFlight: nat)

  function Next(k: KnobView, e: Event, tick: nat): KnobView {
    match e
    case Critical => Clamp(k, tick)
    case Sampled(inFlight) => Sample(k, inFlight, tick)
  }

  /** `ks` are the states visited by `events` at ticks start + 1, start + 2, ... (the tick index saturates). */
  ghost predicate History(k: KnobView, start: nat, events: seq<Event>, ks: seq<KnobView>) {
    && |ks| == |events| + 1
    && ks[0] == k
    && forall j :: 0 <= j < |events| ==> Follows(start, events, ks, j)
  }

  ghost predicate Follows(start: nat, events: seq<Event>, ks: seq<KnobView>, j: nat)
    requires j < |events| && |ks| == |events| + 1
  {
    ks[j + 1] == Next(ks[j], events[j], SatAdd64(start, j + 1))
  }

  /** Every event sequence has a history. */
  function Replay(k: KnobView, start: nat, events: seq<Event>): (ks: seq<KnobView>)
    ensures History(k, start, events, ks)
  {
    if events == [] then [k]
    else
      var n := |events| - 1;
      var ks := Replay(k, start, events[..n]);
      HistoryExtends(k, start, events, ks);
      ks + [Next(ks[n], events[n], SatAdd64(start, n + 1))]
  }

  lemma HistoryExtends(k: KnobView, start: nat, events: seq<Event>, ks: seq<KnobView>)
    requires events != [] && History(k, start, events[..|events| - 1], ks)
    ensures var n := |events| - 1;
            History(k, start, events, ks + [Next(ks[n], events[n], SatAdd64(start, n + 1))])
  {
    var n := |events| - 1;
    var more := ks + [Next(ks[n], events[n], SatAdd64(start, n + 1))];
    forall j | 0 <= j < |events|
      ensures Follows(start, events, more, j)
    {
      assert j < n ==> Follows(start, events[..n], ks, j);
    }
  }

  lemma NextKeepsRange(k: KnobView, e: Event, tick: nat)
    requires InRange(k)
    ensures InRange(Next(k, e, tick))
    ensures Next(k, e, tick).floor == k.floor && Next(k, e, tick).hard == k.hard && Next(k, e, tick).step == k.step
  {
  }

  lemma HistoryStep(k: KnobView, start: nat, events: seq<Event>, ks: seq<KnobView>, n: nat)
    requires History(k, start, events, ks) && 1 <= n <= |events|
    ensures ks[n] == Next(ks[n - 1], events[n - 1], SatAdd64(start, n))
  {
    assert Follows(start, events, ks, n - 1);
  }

  /** For every sequence of pressure and utilization samples the knob stays within [floor, hard]. */
  lemma {:induction false} HistoryKeepsRange(k: KnobView, start: nat, events: seq<Event>, ks: seq<KnobView>, n: nat)
    requires InRange(k) && History(k, start, events, ks) && n <= |events|
    ensures InRange(ks[n]) && ks[n].floor == k.floor && ks[n].hard == k.hard && ks[n].step == k.step
  {
    if n == 0 {
    } else {
      HistoryKeepsRange(k, start, events, ks, n - 1);
      HistoryStep(k, start, events, ks, n);
      NextKeepsRange(ks[n - 1], events[n - 1], SatAdd64(start, n));
    }
  }

  /** A knob built from zero rests at zero until the first critical tick, which lifts it to one. */
  lemma ZeroKnobStep(k: KnobView, e: Event, tick: nat)
    requires k.value == 0 && k.hard == 0 && k.floor == 1
    ensures Next(k, e, tick).value == if e == Critical then 1 else 0
    ensures Next(k, e, tick).hard == 0 && Next(k, e, tick).floor == 1
  {
  }

  lemma {:induction false} ZeroKnobRests(k: KnobView, start: nat, events: seq<Event>, ks: seq<KnobView>, n: nat)
    requires k.value == 0 && k.hard == 0 && k.floor == 1 && History(k, start, events, ks) && n <= |events|
    requires forall j :: 0 <= j < n ==> events[j] != Critical
    ensures ks[n].value == 0 && ks[n].hard == 0 && ks[n].floor == 1
  {
    if n == 0 {
    } else {
      ZeroKnobRests(k, start, events, ks, n - 1);
      HistoryStep(k, start, events, ks, n);
      ZeroKnobStep(ks[n - 1], events[n - 1], SatAdd64(start, n));
    }
  }

  lemma FirstCritical(events: seq<Event>, n: nat) returns (i: nat)
    requires n <= |events| && exists j :: 0 <= j < n && events[j] == Critical
    ensures i < n && events[i] == Critical && forall j :: 0 <= j < i ==> events[j] != Critical
  {
    i := 0;
    while events[i] != Critical
      invariant 0 <= i < n && forall j :: 0 <= j < i ==> events[j] != Critical
      decreases n - i
    {
      i := i + 1;
    }
  }

  /** Exactly when a knob stays at or below its hard bound: its startup value is positive, or no tick is critical. */
  lemma BelowHardExactly(startup: nat, floor: nat, quantum: nat, events: seq<Event>, ks: seq<KnobView>)
    requires quantum >= 1 && startup <= U32_MAX && History(NewKnob(startup, floor, quantum), 0, events, ks)
    ensures (forall n :: 0 <= n < |ks| ==> ks[n].value <= startup) <==> startup >= 1 || Critical !in events
  {
    var k := NewKnob(startup, floor, quantum);
    if startup >= 1 {
      NewKnobInRangeExactly(startup, floor, quantum);
      forall n | 0 <= n < |ks|
        ensures ks[n].value <= startup
      {
        HistoryKeepsRange(k, 0, events, ks, n);
      }
    } else if Critical !in events {
      forall n | 0 <= n < |ks|
        ensures ks[n].value <= startup
      {
        ZeroKnobRests(k, 0, events, ks, n);
      }
    } else {
      var i := FirstCritical(events, |events|);
      ZeroKnobRests(k, 0, events, ks, i);
      HistoryStep(k, 0, events, ks, i + 1);
      ZeroKnobStep(ks[i], events[i], SatAdd64(0, i + 1));
      assert ks[i + 1].value == 1;
    }
  }

  /** A critical tick takes a knob to its floor, whatever its counters and however recent its last change. */
  lemma CriticalClamps(k: KnobView, start: nat, events: seq<Event>, ks: seq<KnobView>, n: nat)
    requires InRange(k) && History(k, start, events, ks) && 1 <= n <= |events| && events[n - 1] == Critical
    ensures ks[n].value == k.floor && ks[n].above == 0 && ks[n].below == 0
  {
    HistoryKeepsRange(k, start, events, ks, n - 1);
    HistoryStep(k, start, events, ks, n);
  }

  /** No move is ever left pending: a filled counter outlives its tick only while the dwell runs, so a knob
      resting on a bound starts counting afresh. */
  lemma NothingLatches(k: KnobView, start: nat, events: seq<Event>, ks: seq<KnobView>, n: nat)
    requires History(k, start, events, ks) && 1 <= n <= |events|
    ensures ks[n].above >= 3 || ks[n].below >= 6 ==>
              ks[n].lastChange.AtTick? && SatAdd64(start, n) < ks[n].lastChange.tick + 6
  {
    HistoryStep(k, start, events, ks, n);
    NoneLeft(ks[n - 1], events[n - 1], SatAdd64(start, n));
  }

  lemma NoneLeft(k: KnobView, e: Event, tick: nat)
    ensures var k' := Next(k, e, tick);
            k'.above >= 3 || k'.below >= 6 ==> k'.lastChange.AtTick? && tick < k'.lastChange.tick + 6
  {
  }

  /** Samples since the last move. */
  ghost function SamplesSinceMove(events: seq<Event>, ks: seq<KnobView>, n: nat): nat
    requires n <= |events| < |ks|
  {
    if n == 0 || ks[n].value != ks[n - 1].value then 0
    else SamplesSinceMove(events, ks, n - 1) + if events[n - 1].Sampled? then 1 else 0
  }

  /** The time in state counts the samples since the last move; critical ticks do not count. */
  lemma {:induction false} TimeInState(k: KnobView, start: nat, events: seq<Event>, ks: seq<KnobView>, n: nat)
    requires InRange(k) && k.ticksInState == 0 && History(k, start, events, ks) && n <= |events|
    ensures ks[n].ticksInState == Min(SamplesSinceMove(events, ks, n), U64_MAX)
  {
    if n == 0 {
    } else {
      TimeInState(k, start, events, ks, n - 1);
      HistoryKeepsRange(k, start, events, ks, n - 1);
      HistoryStep(k, start, events, ks, n);
      TimeStep(ks[n - 1], events[n - 1], SatAdd64(start, n));
    }
  }

  lemma TimeStep(k: KnobView, e: Event, tick: nat)
    requires InRange(k)
    ensures var k' := Next(k, e, tick);
            k'.ticksInState == if k'.value != k.value then 0 else if e.Sampled? then SatAdd64(k.ticksInState, 1)
                               else k.ticksInState
  {
  }

  // ---- Spacing of changes ----

  /** Events from..to were all samples past the watermark of an unchanged `value`. */
  ghost predicate Steady(events: seq<Event>, ks: seq<KnobView>, from: int, to: int, value: nat, high: bool)
    requires 0 <= to <= |events| < |ks|
  {
    && 0 <= from
    && forall j :: from <= j < to ==>
         && events[j].Sampled?
         && (if high then IsHigh(value, events[j].inFlight) else IsLow(value, events[j].inFlight))
         && ks[j].value == value
  }

  ghost predicate Unchanged(ks: seq<KnobView>, from: nat, to: nat, value: nat)
    requires to < |ks|
  {
    from <= to && forall j :: from <= j <= to ==> ks[j].value == value
  }

  ghost predicate MovesAt(ks: seq<KnobView>, n: int) { 1 <= n < |ks| && ks[n].value != ks[n - 1].value }

  /** What the counters and the change mark of state `n` say about its past. */
  ghost predicate Remembers(events: seq<Event>, ks: seq<KnobView>, n: nat)
    requires n <= |events| < |ks|
  {
    && Steady(events, ks, n - ks[n].above, n, ks[n].value, true)
    && Steady(events, ks, n - ks[n].below, n, ks[n].value, false)
    && Unchanged(ks, if ks[n].lastChange.Never? then 0 else ks[n].lastChange.tick, n, ks[n].value)
    && (ks[n].lastChange.AtTick? ==> MovesAt(ks, ks[n].lastChange.tick))
  }

  /** What one tick does to the counters and the change mark. */
  lemma NextMarks(k: KnobView, e: Event, tick: nat)
    ensures var k' := Next(k, e, tick);
            && (k'.above > 0 ==>
                  && k'.value == k.value && e.Sampled?
                  && IsHigh(k.value, e.inFlight) && k'.above <= k.above + 1)
            && (k'.below > 0 ==>
                  && k'.value == k.value && e.Sampled?
                  && IsLow(k.value, e.inFlight) && k'.below <= k.below + 1)
            && (if k'.value != k.value then k'.lastChange == AtTick(tick) else k'.lastChange == k.lastChange)
  {
  }

  predicate IsNew(k: KnobView) {
    InRange(k) && k.above == 0 && k.below == 0 && k.lastChange == Never
  }

  lemma {:induction false} HistoryIsRemembered(k: KnobView, events: seq<Event>, ks: seq<KnobView>, n: nat)
    requires IsNew(k) && History(k, 0, events, ks) && n <= |events| <= U64_MAX
    ensures Remembers(events, ks, n)
  {
    if n == 0 {
    } else {
      HistoryIsRemembered(k, events, ks, n - 1);
      HistoryStep(k, 0, events, ks, n);
      NextMarks(ks[n - 1], events[n - 1], n);
    }
  }

  /** A sample moves the knob only after its counter filled up and the dwell elapsed. */
  lemma MoveNeeds(k: KnobView, inFlight: nat, tick: nat)
    requires InRange(k) && Sample(k, inFlight, tick).value != k.value
    ensures DwellElapsed(k, tick)
    ensures var to := Sample(k, inFlight, tick).value;
            if to > k.value then
              to == Min(k.value + k.step, k.hard) && IsHigh(k.value, inFlight) && k.above + 1 >= SCALE_UP_TICKS
            else
              to == Max(k.value - k.step, k.floor) && IsLow(k.value, inFlight) && k.below + 1 >= SCALE_DOWN_TICKS
  {
  }

  /** A move that is not a critical clamp comes at least six ticks after every earlier move. */
  lemma MovesAreSpaced(k: KnobView, events: seq<Event>, ks: seq<KnobView>, earlier: nat, later: nat)
    requires IsNew(k) && History(k, 0, events, ks) && 1 <= earlier < later <= |events| <= U64_MAX
    requires ks[earlier].value != ks[earlier - 1].value
    requires ks[later].value != ks[later - 1].value && events[later - 1].Sampled?
    ensures later - earlier >= 6
  {
    HistoryIsRemembered(k, events, ks, later - 1);
    HistoryKeepsRange(k, 0, events, ks, later - 1);
    HistoryStep(k, 0, events, ks, later);
    MoveNeeds(ks[later - 1], events[later - 1].inFlight, later);
  }

  lemma SteadyExtends(events: seq<Event>, ks: seq<KnobView>, n: nat, count: nat, m: nat, value: nat, high: bool)
    requires 1 <= n <= |events| < |ks| && m <= count + 1
    requires Steady(events, ks, n - 1 - count, n - 1, value, high) && ks[n - 1].value == value
    requires events[n - 1].Sampled?
    requires if high then IsHigh(value, events[n - 1].inFlight) else IsLow(value, events[n - 1].inFlight)
    ensures Steady(events, ks, n - m, n, value, high)
  {
  }

  /**
   A scale-up moves one step and ends three ticks in a row that were all non-critical and at or
   above 85% of an unchanged value; a scale-down by sampling ends six at or below 40%.
   */
  lemma MovesAreEarned(k: KnobView, events: seq<Event>, ks: seq<KnobView>, n: nat)
    requires IsNew(k) && History(k, 0, events, ks) && 1 <= n <= |events| <= U64_MAX
    requires ks[n].value != ks[n - 1].value && events[n - 1].Sampled?
    ensures var before := ks[n - 1].value;
            if ks[n].value > before then
              ks[n].value == Min(before + k.step, k.hard) && Steady(events, ks, n - 3, n, before, true)
            else
              ks[n].value == Max(before - k.step, k.floor) && Steady(events, ks, n - 6, n, before, false)
  {
    HistoryIsRemembered(k, events, ks, n - 1);
    HistoryKeepsRange(k, 0, events, ks, n - 1);
    HistoryStep(k, 0, events, ks, n);
    MoveIsEarned(events, ks, n, ks[n - 1]);
  }

  lemma MoveIsEarned(events: seq<Event>, ks: seq<KnobView>, n: nat, k: KnobView)
    requires 1 <= n <= |events| < |ks| && k == ks[n - 1] && InRange(k) && events[n - 1].Sampled?
    requires Steady(events, ks, n - 1 - k.above, n - 1, k.value, true)
    requires Steady(events, ks, n - 1 - k.below, n - 1, k.value, false)
    requires ks[n] == Sample(k, events[n - 1].inFlight, n) && ks[n].value != k.value
    ensures if ks[n].value > k.value then
              ks[n].value == Min(k.value + k.step, k.hard) && Steady(events, ks, n - SCALE_UP_TICKS, n, k.value, true)
            else
              && ks[n].value == Max(k.value - k.step, k.floor)
              && Steady(events, ks, n - SCALE_DOWN_TICKS, n, k.value, false)
  {
    MoveNeeds(k, events[n - 1].inFlight, n);
    if ks[n].value > k.value {
      SteadyExtends(events, ks, n, k.above, SCALE_UP_TICKS, k.value, true);
    } else {
      SteadyExtends(events, ks, n, k.below, SCALE_DOWN_TICKS, k.value, false);
    }
  }

  /** Below its hard bound, a knob that stayed put under m high samples has counted them all. */
  lemma {:induction false} HighsAreCounted(k: KnobView, events: seq<Event>, ks: seq<KnobView>, n: nat, m: nat)
    requires InRange(k) && History(k, 0, events, ks) && m <= n <= |events| && m <= U8_MAX
    requires Steady(events, ks, n - m, n, ks[n].value, true) && ks[n].value < k.hard
    ensures ks[n].above >= m
  {
    if m == 0 {
    } else {
      HistoryKeepsRange(k, 0, events, ks, n - 1);
      HistoryStep(k, 0, events, ks, n);
      HighsAreCounted(k, events, ks, n - 1, m - 1);
    }
  }

  /** Above its floor, a knob that stayed put under m low samples has counted them all. */
  lemma {:induction false} LowsAreCounted(k: KnobView, events: seq<Event>, ks: seq<KnobView>, n: nat, m: nat)
    requires InRange(k) && History(k, 0, events, ks) && m <= n <= |events| && m <= U8_MAX
    requires Steady(events, ks, n - m, n, ks[n].value, false) && ks[n].value > k.floor
    ensures ks[n].below >= m
  {
    if m == 0 {
    } else {
      HistoryKeepsRange(k, 0, events, ks, n - 1);
      HistoryStep(k, 0, events, ks, n);
      WatermarksAreExact(ks[n].value, events[n - 1].inFlight);
      LowsAreCounted(k, events, ks, n - 1, m - 1);
    }
  }

  /** No move in the five ticks before tick n. */
  ghost predicate Rested(ks: seq<KnobView>, n: nat) {
    forall j :: n - 6 < j < n ==> !MovesAt(ks, j)
  }

  /** A filled counter and an elapsed dwell move a knob that has room. */
  lemma MoveFollows(k: KnobView, inFlight: nat, tick: nat)
    requires InRange(k) && DwellElapsed(k, tick)
    ensures IsHigh(k.value, inFlight) && k.above + 1 >= SCALE_UP_TICKS && k.value < k.hard ==>
              Sample(k, inFlight, tick).value > k.value
    ensures IsLow(k.value, inFlight) && k.below + 1 >= SCALE_DOWN_TICKS && k.value > k.floor ==>
              Sample(k, inFlight, tick).value < k.value
  {
    WatermarksAreExact(k.value, inFlight);
  }

  lemma RestedIsDwell(k: KnobView, events: seq<Event>, ks: seq<KnobView>, n: nat)
    requires IsNew(k) && History(k, 0, events, ks) && 1 <= n <= |events| <= U64_MAX
    requires Rested(ks, n)
    ensures DwellElapsed(ks[n - 1], n)
  {
    HistoryIsRemembered(k, events, ks, n - 1);
  }

  /**
   Exactly when a tick raises a knob: it has room, the last three ticks were high samples of an
   unchanged value, and the last six hold no other move.
   */
  lemma RaisesExactly(k: KnobView, events: seq<Event>, ks: seq<KnobView>, n: nat)
    requires IsNew(k) && History(k, 0, events, ks) && 1 <= n <= |events| <= U64_MAX
    ensures var before := ks[n - 1].value;
            ks[n].value > before <==>
              before < k.hard && Steady(events, ks, n - 3, n, before, true) && Rested(ks, n)
  {
    var before := ks[n - 1].value;
    HistoryKeepsRange(k, 0, events, ks, n - 1);
    HistoryKeepsRange(k, 0, events, ks, n);
    HistoryStep(k, 0, events, ks, n);
    if ks[n].value > before {
      MovesAreEarned(k, events, ks, n);
      forall j | n - 6 < j < n && MovesAt(ks, j)
        ensures false
      {
        MovesAreSpaced(k, events, ks, j, n);
      }
    }
    if before < k.hard && Steady(events, ks, n - SCALE_UP_TICKS, n, before, true) && Rested(ks, n) {
      RestedIsDwell(k, events, ks, n);
      HighsAreCounted(k, events, ks, n - 1, SCALE_UP_TICKS - 1);
      MoveFollows(ks[n - 1], events[n - 1].inFlight, n);
    }
  }

  /** Exactly when a sample lowers a knob: it is above its floor and the last six ticks were low samples
      of an unchanged value. */
  lemma LowersExactly(k: KnobView, events: seq<Event>, ks: seq<KnobView>, n: nat)
    requires IsNew(k) && History(k, 0, events, ks) && 1 <= n <= |events| <= U64_MAX && events[n - 1].Sampled?
    ensures var before := ks[n - 1].value;
            ks[n].value < before <==> before > k.floor && Steady(events, ks, n - 6, n, before, false)
  {
    var before := ks[n - 1].value;
    HistoryKeepsRange(k, 0, events, ks, n - 1);
    HistoryKeepsRange(k, 0, events, ks, n);
    HistoryStep(k, 0, events, ks, n);
    if ks[n].value < before {
      MovesAreEarned(k, events, ks, n);
    }
    if before > k.floor && Steady(events, ks, n - SCALE_DOWN_TICKS, n, before, false) {
      assert Rested(ks, n);
      RestedIsDwell(k, events, ks, n);
      LowsAreCounted(k, events, ks, n - 1, SCALE_DOWN_TICKS - 1);
      MoveFollows(ks[n - 1], events[n - 1].inFlight, n);
    }
  }

  // ---- Recovery after a critical clamp ----

  /** Every event is a sample at or above the high watermark of the value then in effect. */
  ghost predicate AllHigh(events: seq<Event>, ks: seq<KnobView>)
    requires |events| < |ks|
  {
    forall j :: 0 <= j < |events| ==> events[j].Sampled? && IsHigh(ks[j].value, events[j].inFlight)
  }

  /** First tick at which a knob last changed at `changed` and last reset at `reset` may move. */
  function FirstMove(changed: nat, reset: nat): nat {
    Max(changed + 6, reset + 3)
  }

  /** Moves made by the end of tick `t` when the first is at `first`. */
  function Moves(first: nat, t: nat): nat {
    if t < first then 0 else 1 + (t - first) / 6
  }

  ghost predicate Climbing(k: KnobView, start: nat, now: KnobView, t: nat)
    requires k.lastChange.AtTick?
  {
    var first := FirstMove(k.lastChange.tick, start);
    var moves := Moves(first, t);
    && now.value == Min(k.value + moves * k.step, k.hard)
    && (now.value < k.hard ==>
          if moves == 0 then now.lastChange == k.lastChange && now.above == t - start
          else now.lastChange == AtTick(first + (moves - 1) * DWELL_TICKS) && now.above == t - now.lastChange.tick)
  }

  lemma MovesStep(first: nat, t: nat)
    ensures Moves(first, t) >= 1 ==>
              var last := first + (Moves(first, t) - 1) * DWELL_TICKS;
              && last <= t < last + DWELL_TICKS
              && Moves(first, t + 1) == Moves(first, t) + (if t + 1 == last + DWELL_TICKS then 1 else 0)
    ensures Moves(first, t) == 0 ==> t < first && Moves(first, t + 1) == if t + 1 == first then 1 else 0
  {
  }

  /** A high sample: count, and move up if three highs are in and the dwell has elapsed. */
  lemma HighSample(k: KnobView, inFlight: nat, tick: nat)
    requires InRange(k) && IsHigh(k.value, inFlight) && k.above < U8_MAX
    ensures var k' := Sample(k, inFlight, tick);
            if k.value < k.hard && k.above + 1 >= SCALE_UP_TICKS && DwellElapsed(k, tick) then
              k'.value == Min(k.value + k.step, k.hard) && k'.above == 0 && k'.lastChange == AtTick(tick)
            else
              k'.value == k.value && (k.value < k.hard ==> k'.above == k.above + 1 && k'.lastChange == k.lastChange)
  {
  }

  lemma HighSampleAtHard(k: KnobView, inFlight: nat, tick: nat)
    requires InRange(k) && IsHigh(k.value, inFlight) && k.value == k.hard
    ensures Sample(k, inFlight, tick).value == k.hard
  {
  }

  lemma ClimbStep(k: KnobView, start: nat, now: KnobView, t: nat, inFlight: nat)
    requires InRange(k) && k.lastChange.AtTick? && k.lastChange.tick <= start <= t < U64_MAX
    requires InRange(now) && now.hard == k.hard && now.step == k.step
    requires Climbing(k, start, now, t) && IsHigh(now.value, inFlight)
    ensures Climbing(k, start, Sample(now, inFlight, t + 1), t + 1)
  {
    var first := FirstMove(k.lastChange.tick, start);
    var moves := Moves(first, t);
    MovesStep(first, t);
    MulSuccessor(moves, k.step);
    if now.value == k.hard {
      HighSampleAtHard(now, inFlight, t + 1);
    } else {
      HighSample(now, inFlight, t + 1);
    }
  }

  /**
   Recovery, in closed form: from a knob last changed at tick T whose counters were reset at
   tick C, under high samples only, the value at tick t is the starting value plus one step for
   each of the ticks max(T + 6, C + 3), + 6, + 12, ... up to t, cut off at the hard bound.
   */
  lemma {:induction false} HighSamplesClimb(k: KnobView, start: nat, events: seq<Event>, ks: seq<KnobView>, n: nat)
    requires InRange(k) && k.lastChange.AtTick? && k.lastChange.tick <= start && k.above == 0
    requires History(k, start, events, ks) && AllHigh(events, ks)
    requires n <= |events| && start + n <= U64_MAX
    ensures Climbing(k, start, ks[n], start + n)
  {
    if n == 0 {
      ClimbStart(k, start);
    } else {
      HighSamplesClimb(k, start, events, ks, n - 1);
      HistoryKeepsRange(k, start, events, ks, n - 1);
      ClimbStep(k, start, ks[n - 1], start + n - 1, events[n - 1].inFlight);
      assert ks[n] == Sample(ks[n - 1], events[n - 1].inFlight, start + n) by {
        HistoryStep(k, start, events, ks, n);
      }
    }
  }

  lemma ClimbStart(k: KnobView, start: nat)
    requires InRange(k) && k.lastChange.AtTick? && k.lastChange.tick <= start && k.above == 0
    ensures Climbing(k, start, k, start)
  {
  }

  /** Moves needed to close the gap to the hard bound. */
  function MovesToHard(k: KnobView): nat
    requires k.step >= 1 && k.value <= k.hard
  {
    (k.hard - k.value + k.step - 1) / k.step
  }

  lemma MovesToHardExactly(k: KnobView, moves: nat)
    requires k.step >= 1 && k.value <= k.hard
    ensures k.value + moves * k.step >= k.hard <==> moves >= MovesToHard(k)
  {
    var x := k.hard - k.value + k.step - 1;
    DivAtLeast(moves + 1, k.step, x);
    MulSuccessor(moves, k.step);
    DivAtLeast(moves, k.step, x);
  }

  /**
   The whole recovery from a critical tick C of a knob whose clamp moved it at tick T: it rests
   at its floor, first moves at max(T + 6, C + 3), then every six ticks, and is at its hard
   bound exactly from the ceil((hard - floor) / step)-th move on.
   */
  lemma RecoveryAfterClamp(before: KnobView, critical: nat, events: seq<Event>, ks: seq<KnobView>, n: nat)
    requires InRange(before)
    requires Clamp(before, critical).lastChange.AtTick? && Clamp(before, critical).lastChange.tick <= critical
    requires History(Clamp(before, critical), critical, events, ks) && AllHigh(events, ks)
    requires n <= |events| && critical + n <= U64_MAX
    ensures var k := Clamp(before, critical);
            var moves := Moves(FirstMove(k.lastChange.tick, critical), critical + n);
            && k.value == k.floor
            && ks[n].value == Min(k.floor + moves * k.step, k.hard)
            && (ks[n].value == k.hard <==> moves >= MovesToHard(k))
  {
    var k := Clamp(before, critical);
    HighSamplesClimb(k, critical, events, ks, n);
    MovesToHardExactly(k, Moves(FirstMove(k.lastChange.tick, critical), critical + n));
  }
}
