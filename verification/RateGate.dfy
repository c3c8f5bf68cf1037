/**
 The lock-free GCRA dial-rate gate.

 `TakeAt` is one attempt with nobody else around; the class is that form.  Under contention an
 attempt loads the interval, the burst and the reservation one after another and then
 compare-and-exchanges in a loop, while a controller stores a new burst, interval and rate.
 */
module RateGate {
  import opened Words

  const NANOS_PER_SECOND: nat := 1_000_000_000

  datatype Timing = Timing(interval: nat, burst: nat)

  function RateTiming(rate: nat): Timing {
    var interval := if rate == 0 then 0 else (NANOS_PER_SECOND + rate - 1) / rate;
    Timing(interval, SatMul64(interval, rate))
  }

  /** The integral interval never admits faster than the rate, and the burst is one second's worth. */
  lemma TimingIsConservative(rate: nat)
    requires 1 <= rate <= U32_MAX
    ensures var t := RateTiming(rate);
            && 1 <= t.interval <= 1_000_000_000
            && t.burst == rate * t.interval
            && 1_000_000_000 <= t.burst < 1_000_000_000 + rate
  {
    var q := NANOS_PER_SECOND + rate - 1;
    var interval := q / rate;
    assert q == rate * interval + q % rate;
    DivAtLeast(1, rate, q);
    DivAtLeast(NANOS_PER_SECOND + 1, rate, q);
    MulMonotone(1, rate, NANOS_PER_SECOND);
    MulSuccessor(NANOS_PER_SECOND, rate);
  }

  // ---- One attempt alone ----

  datatype Outcome = Denied | Admitted(next: nat)

  function Reserve(t: Timing, now: nat, seen: nat): Outcome {
    var candidate := Max(seen, now) + t.interval;
    if candidate > U64_MAX || candidate > SatAdd64(now, t.burst) then Denied else Admitted(candidate)
  }

  function TakeAt(t: Timing, now: nat, next: nat): Outcome {
    if t.interval == 0 then Denied else Reserve(t, now, next)
  }

  class DialRateGate {
    var ratePerSecond: nat
    var intervalNanos: nat
    var burstNanos: nat
    var nextNanos: nat

    ghost predicate Valid()
      reads this
    {
      && ratePerSecond <= U32_MAX
      && nextNanos <= U64_MAX
      && Timing(intervalNanos, burstNanos) == RateTiming(ratePerSecond)
    }

    constructor (maxPerSecond: nat)
      requires maxPerSecond <= U32_MAX
      ensures Valid() && ratePerSecond == maxPerSecond && nextNanos == 0
    {
      var t := RateTiming(maxPerSecond);
      ratePerSecond, intervalNanos, burstNanos, nextNanos := maxPerSecond, t.interval, t.burst, 0;
    }

    /** Retargets the rate; the reservation history is kept. */
    method SetRate(maxPerSecond: nat)
      requires Valid() && maxPerSecond <= U32_MAX
      modifies `ratePerSecond, `intervalNanos, `burstNanos
      ensures Valid() && ratePerSecond == maxPerSecond
    {
      var t := RateTiming(maxPerSecond);
      burstNanos := t.burst;
      intervalNanos := t.interval;
      ratePerSecond := maxPerSecond;
    }

    /** The compare-and-exchange loop, which may fail spuriously any number of times. */
    method TryTakeAt(now: nat, spurious: nat) returns (ok: bool)
      requires Valid() && now <= U64_MAX
      modifies `nextNanos
      ensures Valid()
      ensures match TakeAt(RateTiming(ratePerSecond), now, old(nextNanos))
              case Denied => !ok && nextNanos == old(nextNanos)
              case Admitted(next) => ok && nextNanos == next
    {
      if intervalNanos == 0 {
        return false;
      }
      var latest := SatAdd64(now, burstNanos);
      var observed := nextNanos;
      var failures := spurious;
      while true
        invariant observed == nextNanos == old(nextNanos)
        decreases failures
      {
        var next := Max(observed, now) + intervalNanos;
        if next > U64_MAX || next > latest {
          return false;
        }
        if observed == nextNanos && failures == 0 {
          nextNanos := next;
          return true;
        }
        observed := nextNanos;
        failures := failures - 1;
      }
    }
  }

  // ---- The gate is a leaky bucket ----

  /** The reference: a bucket that held `level` nanoseconds at `at` and drains one each nanosecond. */
  datatype Bucket = Bucket(level: nat, at: nat)

  function Drained(b: Bucket, now: nat): nat { SatSub(b.level, SatSub(now, b.at)) }

  /** A take pours one interval in, if it does not rise above the burst or past the end of the time domain. */
  function Pour(t: Timing, b: Bucket, now: nat): (r: (bool, Bucket)) {
    var full := Drained(b, now) + t.interval;
    if t.interval > 0 && full <= t.burst && now + full <= U64_MAX then (true, Bucket(full, now))
    else (false, Bucket(Drained(b, now), now))
  }

  /** Which of the takes at these clock readings the gate admits. */
  function GateAdmits(t: Timing, readings: seq<nat>, next: nat): seq<bool>
    decreases readings
  {
    if readings == [] then []
    else
      match TakeAt(t, readings[0], next)
      case Denied => [false] + GateAdmits(t, readings[1..], next)
      case Admitted(next') => [true] + GateAdmits(t, readings[1..], next')
  }

  function BucketAdmits(t: Timing, readings: seq<nat>, b: Bucket): seq<bool>
    decreases readings
  {
    if readings == [] then []
    else
      var (ok, b') := Pour(t, b, readings[0]);
      [ok] + BucketAdmits(t, readings[1..], b')
  }

  /** Clock readings that never go back, the first not before `from`. */
  ghost predicate Ticking(readings: seq<nat>, from: nat) {
    && (forall i :: 0 <= i < |readings| ==> from <= readings[i] <= U64_MAX)
    && (forall i, j :: 0 <= i < j < |readings| ==> readings[i] <= readings[j])
  }

  lemma TakeIsPour(t: Timing, b: Bucket, now: nat, next: nat)
    requires b.at <= now <= U64_MAX && b.level == SatSub(next, b.at)
    ensures var (ok, b') := Pour(t, b, now);
            && ok == TakeAt(t, now, next).Admitted?
            && b'.at == now
            && b'.level == SatSub(if ok then TakeAt(t, now, next).next else next, now)
  {
  }

  /** At every sequence of clock readings the gate admits exactly the takes that the bucket has room for. */
  lemma {:induction false} GateIsLeakyBucket(t: Timing, readings: seq<nat>, next: nat, b: Bucket)
    requires Ticking(readings, b.at) && b.level == SatSub(next, b.at)
    ensures GateAdmits(t, readings, next) == BucketAdmits(t, readings, b)
    decreases readings
  {
    if readings == [] {
    } else {
      TakeIsPour(t, b, readings[0], next);
      var taken := TakeAt(t, readings[0], next);
      var after := if taken.Admitted? then taken.next else next;
      GateIsLeakyBucket(t, readings[1..], after, Pour(t, b, readings[0]).1);
    }
  }

  /** A gate set to no takes a second admits none. */
  lemma ZeroRateDenies(now: nat, next: nat)
    ensures TakeAt(RateTiming(0), now, next) == Denied
  {
  }

  // ---- A burst at one instant ----

  /** Admissions among `attempts` consecutive attempts that all read the clock at `now`. */
  function AdmittedAtInstant(t: Timing, now: nat, next: nat, attempts: nat): nat
    decreases attempts
  {
    if attempts == 0 then 0
    else
      match TakeAt(t, now, next)
      case Denied => AdmittedAtInstant(t, now, next, attempts - 1)
      case Admitted(next') => 1 + AdmittedAtInstant(t, now, next', attempts - 1)
  }

  /** How many reservations fit at `now` within `rate` intervals and below 2^64 nanoseconds. */
  function Room(rate: nat, interval: nat, now: nat): nat
    requires interval >= 1 && now <= U64_MAX
  {
    Min(rate, (U64_MAX - now) / interval)
  }

  lemma RoomExactly(rate: nat, interval: nat, now: nat, used: nat)
    requires interval >= 1 && now <= U64_MAX
    ensures now + (used + 1) * interval <= SatAdd64(now, rate * interval) <==> used < Room(rate, interval, now)
  {
    DivAtLeast(used + 1, interval, U64_MAX - now);
    if used < rate {
      MulMonotone(used + 1, rate, interval);
    } else {
      MulMonotone(rate, used, interval);
      MulSuccessor(used, interval);
    }
  }

  /** After `used` reservations of a burst, what the remaining attempts obtain. */
  lemma {:induction false} BurstTail(t: Timing, rate: nat, now: nat, used: nat, next: nat, attempts: nat)
    requires t.interval >= 1 && t.burst == rate * t.interval && now <= U64_MAX
    requires used <= Room(rate, t.interval, now) && next == now + used * t.interval
    ensures AdmittedAtInstant(t, now, next, attempts) == Min(attempts, Room(rate, t.interval, now) - used)
    decreases attempts
  {
    if attempts == 0 {
    } else {
      var room := Room(rate, t.interval, now);
      TakeInBurst(t, rate, now, used, next);
      if used < room {
        MulSuccessor(used, t.interval);
        BurstTail(t, rate, now, used + 1, next + t.interval, attempts - 1);
      } else {
        BurstTail(t, rate, now, used, next, attempts - 1);
      }
    }
  }

  lemma TakeInBurst(t: Timing, rate: nat, now: nat, used: nat, next: nat)
    requires t.interval >= 1 && t.burst == rate * t.interval && now <= U64_MAX && next == now + used * t.interval
    ensures TakeAt(t, now, next) == if used < Room(rate, t.interval, now) then Admitted(next + t.interval) else Denied
  {
    MulSuccessor(used, t.interval);
    RoomExactly(rate, t.interval, now, used);
  }

  /**
   An idle gate admits exactly `rate` attempts at one instant and denies every later one; at the
   end of the time domain it admits only what still fits below 2^64 nanoseconds.
   */
  lemma IdleBurst(rate: nat, now: nat, next: nat, attempts: nat)
    requires 1 <= rate <= U32_MAX && next <= now <= U64_MAX
    ensures RateTiming(rate).interval >= 1
    ensures AdmittedAtInstant(RateTiming(rate), now, next, attempts)
         == Min(attempts, Room(rate, RateTiming(rate).interval, now))
  {
    TimingIsConservative(rate);
    BurstTail(RateTiming(rate), rate, now, 0, now, attempts);
    IdleIsNow(RateTiming(rate), now, next, attempts);
  }

  lemma {:induction false} IdleIsNow(t: Timing, now: nat, next: nat, attempts: nat)
    requires next <= now
    ensures AdmittedAtInstant(t, now, next, attempts) == AdmittedAtInstant(t, now, now, attempts)
  {
    if attempts == 0 {
    } else if TakeAt(t, now, next).Denied? {
      IdleIsNow(t, now, next, attempts - 1);
    }
  }

  // ---- Interleaved attempts and rate changes ----

  datatype Taker =
    | Idle
    | HasInterval(now: nat, interval: nat, intervalEpoch: nat)
    | HasBurst(now: nat, timing: Timing, intervalEpoch: nat, burstEpoch: nat)
    | Watching(now: nat, timing: Timing, intervalEpoch: nat, burstEpoch: nat, seen: nat)

  /** A rate change stores the burst, then the interval, then the rate; epochs number the changes. */
  datatype Setter = AtRest | BurstStored(rate: nat) | IntervalStored(rate: nat)

  datatype Gate = Gate(
    interval: nat, burst: nat, rate: nat, next: nat,
    intervalEpoch: nat, burstEpoch: nat, setter: Setter,
    takers: seq<Taker>)

  datatype Action =
    | LoadInterval(slot: nat, now: nat)
    | LoadBurst(slot: nat)
    | LoadNext(slot: nat)
    | Exchange(slot: nat, spurious: bool)
    | StoreBurst(newRate: nat)
    | StoreInterval
    | StoreRate

  predicate IsStore(a: Action) { a.StoreBurst? || a.StoreInterval? || a.StoreRate? }

  function New(rate: nat, takers: nat): Gate {
    var t := RateTiming(rate);
    Gate(t.interval, t.burst, rate, 0, 0, 0, AtRest, seq(takers, _ => Idle))
  }

  function Store(g: Gate, a: Action): Gate
    requires IsStore(a)
  {
    match (a, g.setter)
    case (StoreBurst(r), AtRest) =>
      g.(burst := RateTiming(r).burst, burstEpoch := g.burstEpoch + 1, setter := BurstStored(r))
    case (StoreInterval, BurstStored(r)) =>
      g.(interval := RateTiming(r).interval, intervalEpoch := g.intervalEpoch + 1, setter := IntervalStored(r))
    case (StoreRate, IntervalStored(r)) => g.(rate := r, setter := AtRest)
    case _ => g
  }

  function Put(g: Gate, slot: nat, taker: Taker): Gate
    requires slot < |g.takers|
  {
    g.(takers := g.takers[slot := taker])
  }

  function TakerStep(g: Gate, a: Action, at: Taker): Gate
    requires !IsStore(a) && a.slot < |g.takers| && at == g.takers[a.slot]
  {
    match a
    case LoadInterval(i, now) =>
      if at.Idle? && g.interval != 0 && now <= U64_MAX
      then Put(g, i, HasInterval(now, g.interval, g.intervalEpoch))
      else g
    case LoadBurst(i) =>
      if at.HasInterval?
      then Put(g, i, HasBurst(at.now, Timing(at.interval, g.burst), at.intervalEpoch, g.burstEpoch))
      else g
    case LoadNext(i) =>
      if at.HasBurst? then Put(g, i, Watching(at.now, at.timing, at.intervalEpoch, at.burstEpoch, g.next)) else g
    case Exchange(i, spurious) =>
      if !at.Watching? then g
      else
        match Reserve(at.timing, at.now, at.seen)
        case Denied => Put(g, i, Idle)
        case Admitted(next) =>
          if g.next == at.seen && !spurious then Put(g, i, Idle).(next := next)
          else Put(g, i, at.(seen := g.next))
  }

  function Step(g: Gate, a: Action): Gate {
    if IsStore(a) then Store(g, a)
    else if a.slot < |g.takers| then TakerStep(g, a, g.takers[a.slot])
    else g
  }

  function Run(g: Gate, actions: seq<Action>): Gate
    decreases actions
  {
    if actions == [] then g else Run(Step(g, actions[0]), actions[1..])
  }

  /** Run alone, the interleaved attempt is `TakeAt`. */
  lemma SoloTake(g: Gate, slot: nat, now: nat)
    requires slot < |g.takers| && g.takers[slot] == Idle && now <= U64_MAX
    ensures Run(g, [LoadInterval(slot, now), LoadBurst(slot), LoadNext(slot), Exchange(slot, false)])
         == match TakeAt(Timing(g.interval, g.burst), now, g.next)
            case Denied => g
            case Admitted(next) => g.(next := next)
  {
    var acts := [LoadInterval(slot, now), LoadBurst(slot), LoadNext(slot), Exchange(slot, false)];
    var g1 := Step(g, acts[0]);
    var g2 := Step(g1, acts[1]);
    var g3 := Step(g2, acts[2]);
    var g4 := Step(g3, acts[3]);
    assert acts[1..][1..] == acts[2..] && acts[2..][1..] == acts[3..] && acts[3..][1..] == [];
    assert Run(g, acts) == Run(g1, acts[1..]) == Run(g2, acts[2..]) == Run(g3, acts[3..]) == g4;
    if g.interval != 0 {
      assert g4.takers == g.takers;
    } else {
      assert g4 == g;
    }
  }

  lemma RunTwo(g: Gate, a: Action, b: Action)
    ensures Run(g, [a, b]) == Step(Step(g, a), b)
  {
    assert [a, b][1..] == [b] && [b][1..] == [];
    assert Run(Step(g, a), [b]) == Step(Step(g, a), b);
  }

  /** However stale its view, an attempt that is then left alone needs two exchanges to decide as one that
      loads the reservation now: losing an exchange costs it nothing. */
  lemma LostExchangeCostsNothing(g: Gate, slot: nat, at: Taker)
    requires slot < |g.takers| && at == g.takers[slot] && at.Watching?
    requires at.seen <= g.next && at.timing.interval >= 1
    ensures Run(g, [Exchange(slot, false), Exchange(slot, false)])
         == match TakeAt(at.timing, at.now, g.next)
            case Denied => Put(g, slot, Idle)
            case Admitted(next) => Put(g, slot, Idle).(next := next)
  {
    RunTwo(g, Exchange(slot, false), Exchange(slot, false));
    var once := Step(g, Exchange(slot, false));
    assert once.takers[slot := Idle] == g.takers[slot := Idle];
  }

  /** What every attempt of a reachable gate has seen: a positive interval and no later a reservation. */
  ghost predicate ViewsBehind(g: Gate) {
    PositiveIntervals(g) && forall i :: 0 <= i < |g.takers| && g.takers[i].Watching? ==> g.takers[i].seen <= g.next
  }

  lemma StepKeepsViews(g: Gate, a: Action)
    requires ViewsBehind(g)
    ensures ViewsBehind(Step(g, a))
  {
    StepAdvances(g, a);
    StepKeepsPositive(g, a);
  }

  lemma {:induction false} RunKeepsViews(g: Gate, actions: seq<Action>)
    requires ViewsBehind(g)
    ensures ViewsBehind(Run(g, actions))
    decreases actions
  {
    if actions == [] {
    } else {
      StepKeepsViews(g, actions[0]);
      RunKeepsViews(Step(g, actions[0]), actions[1..]);
    }
  }

  /** In every interleaving, an attempt left alone decides as if it had just loaded the reservation. */
  lemma ContendedTakeDecides(rate: nat, takers: nat, actions: seq<Action>, slot: nat)
    requires var g := Run(New(rate, takers), actions);
             slot < |g.takers| && g.takers[slot].Watching?
    ensures var g := Run(New(rate, takers), actions);
            var at := g.takers[slot];
            Run(g, [Exchange(slot, false), Exchange(slot, false)])
            == match TakeAt(at.timing, at.now, g.next)
               case Denied => Put(g, slot, Idle)
               case Admitted(next) => Put(g, slot, Idle).(next := next)
  {
    RunKeepsViews(New(rate, takers), actions);
    var g := Run(New(rate, takers), actions);
    LostExchangeCostsNothing(g, slot, g.takers[slot]);
  }

  /** The three stores of a rate change end at the new rate and move neither the reservation nor an attempt. */
  lemma RateChangeCompletes(g: Gate, rate: nat)
    requires g.setter == AtRest
    ensures Run(g, [StoreBurst(rate)] + [StoreInterval, StoreRate]) ==
            g.(interval := RateTiming(rate).interval, burst := RateTiming(rate).burst, rate := rate,
               intervalEpoch := g.intervalEpoch + 1, burstEpoch := g.burstEpoch + 1)
  {
    var stored := Step(g, StoreBurst(rate));
    assert ([StoreBurst(rate)] + [StoreInterval, StoreRate])[1..] == [StoreInterval, StoreRate];
    RunTwo(stored, StoreInterval, StoreRate);
  }

  /** The action is a compare-and-exchange that wins an admission. */
  predicate Admits(g: Gate, a: Action) {
    && a.Exchange?
    && a.slot < |g.takers|
    && g.takers[a.slot].Watching?
    && Reserve(g.takers[a.slot].timing, g.takers[a.slot].now, g.takers[a.slot].seen).Admitted?
    && g.next == g.takers[a.slot].seen
    && !a.spurious
  }

  /** An admission read at a clock in [from, to] with at least this interval and at most this burst. */
  predicate AdmitsWithin(g: Gate, a: Action, t: Timing, from: nat, to: nat) {
    && Admits(g, a)
    && from <= g.takers[a.slot].now <= to
    && t.interval <= g.takers[a.slot].timing.interval
    && g.takers[a.slot].timing.burst <= t.burst
  }

  function CountWithin(g: Gate, actions: seq<Action>, t: Timing, from: nat, to: nat): nat
    decreases actions
  {
    if actions == [] then 0
    else
      (if AdmitsWithin(g, actions[0], t, from, to) then 1 else 0) +
      CountWithin(Step(g, actions[0]), actions[1..], t, from, to)
  }

  lemma StepAdvances(g: Gate, a: Action)
    ensures g.next <= Step(g, a).next
    ensures Admits(g, a) ==>
              var at := g.takers[a.slot];
              Max(g.next, at.now) + at.timing.interval == Step(g, a).next <= Min(U64_MAX, at.now + at.timing.burst)
    ensures !Admits(g, a) ==> Step(g, a).next == g.next
  {
  }

  /** Each counted admission moves the reservation one interval, up to the last reading plus the burst. */
  lemma {:induction false} AdmissionsPush(g: Gate, actions: seq<Action>, t: Timing, from: nat, to: nat)
    requires CountWithin(g, actions, t, from, to) > 0
    ensures Max(g.next, from) + CountWithin(g, actions, t, from, to) * t.interval <= to + t.burst
    decreases actions
  {
    var g' := Step(g, actions[0]);
    var rest := CountWithin(g', actions[1..], t, from, to);
    StepAdvances(g, actions[0]);
    if rest == 0 {
    } else {
      AdmissionsPush(g', actions[1..], t, from, to);
    }
    MulSuccessor(rest, t.interval);
  }

  /**
   The GCRA window bound for any interleaving, any rate changes and any clock readings: n
   admissions read in [from, to], each using at least the interval and at most the burst given,
   satisfy n * interval <= (to - from) + burst.
   */
  lemma WindowBound(g: Gate, actions: seq<Action>, t: Timing, from: nat, to: nat)
    requires from <= to
    ensures CountWithin(g, actions, t, from, to) * t.interval <= to - from + t.burst
  {
    if CountWithin(g, actions, t, from, to) > 0 {
      AdmissionsPush(g, actions, t, from, to);
    }
  }

  /**
   Whatever the history, the rate changes and the interleaving, the admissions with clock readings in
   [from, to] that use the timing of rate r, or a longer interval with no larger a burst, number at
   most r + (to - from) * r / 10^9.
   */
  lemma RateHolds(g: Gate, rate: nat, actions: seq<Action>, from: nat, to: nat)
    requires 1 <= rate <= U32_MAX && from <= to
    ensures CountWithin(g, actions, RateTiming(rate), from, to) <= rate + (to - from) * rate / NANOS_PER_SECOND
  {
    var t := RateTiming(rate);
    TimingIsConservative(rate);
    WindowBound(g, actions, t, from, to);
    RateFromInterval(CountWithin(g, actions, t, from, to), rate, t.interval, to - from);
  }

  /** The slots with no attempt under way. */
  function Idlers(g: Gate): set<nat> {
    set i: nat | i < |g.takers| && g.takers[i] == Idle
  }

  /** Admissions read in [from, to] by slots in `who`, which every slot joins once it has been idle. */
  function BegunTakes(g: Gate, actions: seq<Action>, who: set<nat>, from: nat, to: nat): nat
    decreases actions
  {
    if actions == [] then 0
    else
      (if Admits(g, actions[0]) && actions[0].slot in who &&
          from <= g.takers[actions[0].slot].now <= to then 1 else 0) +
      var next := Step(g, actions[0]);
      BegunTakes(next, actions[1..], who + Idlers(next), from, to)
  }

  /** The slot has not yet picked up a timing other than `t`. */
  predicate Uses(at: Taker, t: Timing) {
    match at
    case Idle => true
    case HasInterval(_, interval, _) => interval == t.interval
    case HasBurst(_, timing, _, _) => timing == t
    case Watching(_, timing, _, _, _) => timing == t
  }

  ghost predicate SlotsUse(g: Gate, who: set<nat>, t: Timing) {
    forall i :: i in who && i < |g.takers| ==> Uses(g.takers[i], t)
  }

  lemma StepKeepsTiming(g: Gate, a: Action, who: set<nat>, t: Timing)
    requires Timing(g.interval, g.burst) == t && !IsStore(a) && SlotsUse(g, who, t)
    ensures Timing(Step(g, a).interval, Step(g, a).burst) == t
    ensures SlotsUse(Step(g, a), who + Idlers(Step(g, a)), t)
  {
  }

  lemma {:induction false} TakesAreCounted(g: Gate, actions: seq<Action>, who: set<nat>, t: Timing, from: nat, to: nat)
    requires Timing(g.interval, g.burst) == t && SlotsUse(g, who, t)
    requires forall i :: 0 <= i < |actions| ==> !IsStore(actions[i])
    ensures BegunTakes(g, actions, who, from, to) <= CountWithin(g, actions, t, from, to)
    decreases actions
  {
    if actions == [] {
    } else {
      var next := Step(g, actions[0]);
      StepKeepsTiming(g, actions[0], who, t);
      TakesAreCounted(next, actions[1..], who + Idlers(next), t, from, to);
    }
  }

  /** While the gate stands at rate r, every take begun since then is bounded by it, whatever was under way before. */
  lemma StandingRateHolds(g: Gate, rate: nat, actions: seq<Action>, from: nat, to: nat)
    requires 1 <= rate <= U32_MAX && from <= to
    requires Timing(g.interval, g.burst) == RateTiming(rate)
    requires forall i :: 0 <= i < |actions| ==> !IsStore(actions[i])
    ensures BegunTakes(g, actions, Idlers(g), from, to) <= rate + (to - from) * rate / NANOS_PER_SECOND
  {
    TakesAreCounted(g, actions, Idlers(g), RateTiming(rate), from, to);
    RateHolds(g, rate, actions, from, to);
  }

  lemma RateFromInterval(n: nat, rate: nat, interval: nat, span: nat)
    requires n * interval <= span + rate * interval
    requires NANOS_PER_SECOND <= rate * interval
    ensures n <= rate + span * rate / NANOS_PER_SECOND
  {
    if n > rate {
      var extra := n - rate;
      assert extra * interval == n * interval - rate * interval;
      MulMonotone(extra * interval, span, rate);
      MulMonotone(NANOS_PER_SECOND, rate * interval, extra);
      assert extra * interval * rate == rate * interval * extra;
      DivAtLeast(extra, NANOS_PER_SECOND, span * rate);
    }
  }

  // ---- All takes, whatever timings they mix ----

  /** Every admission with a clock reading in [from, to]. */
  function TakesWithin(g: Gate, actions: seq<Action>, from: nat, to: nat): nat
    decreases actions
  {
    if actions == [] then 0
    else
      (if Admits(g, actions[0]) && from <= g.takers[actions[0].slot].now <= to then 1 else 0) +
      TakesWithin(Step(g, actions[0]), actions[1..], from, to)
  }

  predicate IsSlot(g: Gate, i: nat) { i < |g.takers| }

  function Slots(g: Gate): set<nat> { set i: nat | i < |g.takers| && IsSlot(g, i) }

  lemma BusyShrinks(g: Gate, a: Action, who: set<nat>)
    ensures var next := Step(g, a);
            |Slots(next) - (who + Idlers(next))| + (if Admits(g, a) && a.slot !in who then 1 else 0) <= |Slots(g) - who|
  {
    var next := Step(g, a);
    var busy, later := Slots(g) - who, Slots(next) - (who + Idlers(next));
    StepKeepsSlots(g, a);
    if Admits(g, a) && a.slot !in who {
      assert IsSlot(g, a.slot) && a.slot in busy;
      SmallerSet(later, busy - {a.slot});
    } else {
      SmallerSet(later, busy);
    }
  }

  lemma StepKeepsSlots(g: Gate, a: Action)
    ensures Slots(Step(g, a)) == Slots(g)
    ensures Admits(g, a) ==> a.slot in Idlers(Step(g, a))
  {
    assert |Step(g, a).takers| == |g.takers|;
    assert forall i :: IsSlot(Step(g, a), i) == IsSlot(g, i);
  }

  lemma {:induction false} SmallerSet(a: set<nat>, b: set<nat>)
    requires a <= b
    ensures |a| <= |b|
    decreases b
  {
    if b == {} {
    } else {
      var x :| x in b;
      SmallerSet(a - {x}, b - {x});
      assert x in a ==> |a - {x}| == |a| - 1;
      assert x !in a ==> a - {x} == a;
    }
  }

  lemma {:induction false} OldTakesAreFew(g: Gate, actions: seq<Action>, who: set<nat>, from: nat, to: nat)
    ensures TakesWithin(g, actions, from, to) <= BegunTakes(g, actions, who, from, to) + |Slots(g) - who|
    decreases actions
  {
    if actions == [] {
    } else {
      var next := Step(g, actions[0]);
      BusyShrinks(g, actions[0], who);
      OldTakesAreFew(next, actions[1..], who + Idlers(next), from, to);
    }
  }

  /** While the gate stands at rate r, all takes together exceed its bound by at most one for every slot that
      was busy with an older timing at the start. */
  lemma StandingRateHoldsForAll(g: Gate, rate: nat, actions: seq<Action>, from: nat, to: nat)
    requires 1 <= rate <= U32_MAX && from <= to
    requires Timing(g.interval, g.burst) == RateTiming(rate)
    requires forall i :: 0 <= i < |actions| ==> !IsStore(actions[i])
    ensures TakesWithin(g, actions, from, to) <=
            rate + (to - from) * rate / NANOS_PER_SECOND + |Slots(g) - Idlers(g)|
  {
    StandingRateHolds(g, rate, actions, from, to);
    OldTakesAreFew(g, actions, Idlers(g), from, to);
  }

  /** The longest burst of any rate up to r. */
  function LongestBurst(rate: nat): nat
    requires rate >= 1
  {
    NANOS_PER_SECOND + rate - 1
  }

  /** A slower rate never has a shorter interval, and its burst is at most the longest. */
  lemma SlowerTiming(slow: nat, fast: nat)
    requires 1 <= slow <= fast <= U32_MAX
    ensures RateTiming(fast).interval <= RateTiming(slow).interval
    ensures RateTiming(slow).burst <= LongestBurst(fast)
  {
    TimingIsConservative(slow);
    TimingIsConservative(fast);
    var f, s := RateTiming(fast).interval, RateTiming(slow).interval;
    if s < f {
      // s * fast >= s * slow >= 10^9, so the fast interval would be at most s.
      MulMonotone(slow, fast, s);
      MulMonotone(s, f - 1, fast);
      MulSuccessor(f - 1, fast);
    }
  }

  /** No faster than a timing: no interval shorter, no burst longer. */
  predicate Bounded(interval: nat, burst: nat, t: Timing) {
    burst <= t.burst && (interval == 0 || t.interval <= interval)
  }

  predicate TakerBounded(at: Taker, t: Timing) {
    match at
    case Idle => true
    case HasInterval(_, interval, _) => t.interval <= interval
    case HasBurst(_, timing, _, _) => t.interval <= timing.interval && timing.burst <= t.burst
    case Watching(_, timing, _, _, _) => t.interval <= timing.interval && timing.burst <= t.burst
  }

  /** Everything in flight is no faster than t: the stored timing, the one being stored and every attempt. */
  ghost predicate GateBounded(g: Gate, t: Timing) {
    && Bounded(g.interval, g.burst, t)
    && (g.setter.BurstStored? ==> Bounded(RateTiming(g.setter.rate).interval, RateTiming(g.setter.rate).burst, t))
    && forall i :: 0 <= i < |g.takers| ==> TakerBounded(g.takers[i], t)
  }

  predicate ActionBounded(a: Action, t: Timing) {
    a.StoreBurst? ==> Bounded(RateTiming(a.newRate).interval, RateTiming(a.newRate).burst, t)
  }

  lemma StepKeepsBounded(g: Gate, a: Action, t: Timing)
    requires GateBounded(g, t) && ActionBounded(a, t)
    ensures GateBounded(Step(g, a), t)
  {
  }

  lemma {:induction false} BoundedTakesCount(g: Gate, actions: seq<Action>, t: Timing, from: nat, to: nat)
    requires GateBounded(g, t) && forall i :: 0 <= i < |actions| ==> ActionBounded(actions[i], t)
    ensures TakesWithin(g, actions, from, to) <= CountWithin(g, actions, t, from, to)
    decreases actions
  {
    if actions == [] {
    } else {
      StepKeepsBounded(g, actions[0], t);
      BoundedTakesCount(Step(g, actions[0]), actions[1..], t, from, to);
    }
  }

  lemma RateFromLongestBurst(n: nat, rate: nat, interval: nat, span: nat)
    requires rate >= 1 && n * interval <= span + LongestBurst(rate)
    requires NANOS_PER_SECOND <= rate * interval
    ensures n <= rate + (span + rate - 1) * rate / NANOS_PER_SECOND
  {
    MulMonotone(n * interval, span + LongestBurst(rate), rate);
    MulMonotone(NANOS_PER_SECOND, rate * interval, n);
    assert n * interval * rate == rate * interval * n;
    assert (span + LongestBurst(rate)) * rate == (span + rate - 1) * rate + NANOS_PER_SECOND * rate;
    if n > rate {
      DivAtLeast(n - rate, NANOS_PER_SECOND, (span + rate - 1) * rate);
    }
  }

  predicate RateAtMost(a: Action, rate: nat) { a.StoreBurst? ==> a.newRate <= rate }

  lemma RateIsBounded(slow: nat, fast: nat)
    requires slow <= fast && 1 <= fast <= U32_MAX
    ensures var t := RateTiming(slow);
            Bounded(t.interval, t.burst, Timing(RateTiming(fast).interval, LongestBurst(fast)))
  {
    if slow >= 1 {
      SlowerTiming(slow, fast);
    }
  }

  /**
   Over every run of a gate whose rates never exceed r, all admissions with clock readings in
   [from, to], whatever old and new timings they mix, number at most
   r + (to - from + r - 1) * r / 10^9.
   */
  lemma RatesUpTo(rate0: nat, takers: nat, rate: nat, actions: seq<Action>, from: nat, to: nat)
    requires rate0 <= rate && 1 <= rate <= U32_MAX && from <= to
    requires forall i :: 0 <= i < |actions| ==> RateAtMost(actions[i], rate)
    ensures TakesWithin(New(rate0, takers), actions, from, to) <=
            rate + (to - from + rate - 1) * rate / NANOS_PER_SECOND
  {
    var g, t := New(rate0, takers), Timing(RateTiming(rate).interval, LongestBurst(rate));
    RateIsBounded(rate0, rate);
    forall i | 0 <= i < |actions|
      ensures ActionBounded(actions[i], t)
    {
      if actions[i].StoreBurst? {
        assert RateAtMost(actions[i], rate);
        RateIsBounded(actions[i].newRate, rate);
      }
    }
    TimingIsConservative(rate);
    BoundedTakesCount(g, actions, t, from, to);
    WindowBound(g, actions, t, from, to);
    RateFromLongestBurst(CountWithin(g, actions, t, from, to), rate, t.interval, to - from);
  }

  // ---- A rate change at one instant ----

  /** The reservation after `attempts` attempts at one instant. */
  function NextAtInstant(t: Timing, now: nat, next: nat, attempts: nat): nat
    decreases attempts
  {
    if attempts == 0 then next
    else
      match TakeAt(t, now, next)
      case Denied => NextAtInstant(t, now, next, attempts - 1)
      case Admitted(next') => NextAtInstant(t, now, next', attempts - 1)
  }

  lemma FullRoom(t: Timing, rate: nat, now: nat)
    requires t.interval >= 1 && now + rate * t.interval <= U64_MAX
    ensures Room(rate, t.interval, now) == rate
  {
    DivAtLeast(rate, t.interval, U64_MAX - now);
  }

  lemma {:induction false} BurstReserves(t: Timing, rate: nat, now: nat, used: nat, next: nat, last: nat, attempts: nat)
    requires t.interval >= 1 && t.burst == rate * t.interval && now <= U64_MAX && Room(rate, t.interval, now) == rate
    requires used + attempts <= rate && next == now + used * t.interval && last == now + (used + attempts) * t.interval
    ensures NextAtInstant(t, now, next, attempts) == last
    decreases attempts
  {
    if attempts == 0 {
    } else {
      TakeInBurst(t, rate, now, used, next);
      MulSuccessor(used, t.interval);
      BurstReserves(t, rate, now, used + 1, next + t.interval, last, attempts - 1);
    }
  }

  /** The burst of a rate exceeds another by an interval: setting it leaves room for one take more. */
  predicate LeavesRoom(r: nat, q: nat) {
    RateTiming(r).burst + RateTiming(q).interval <= RateTiming(q).burst
  }

  /**
   After a full burst at rate r, setting a rate q admits another take at the same instant exactly when
   the burst of q exceeds that of r by an interval of q, within the time domain.  Bursts are rounded
   up, so a slower rate can.
   */
  lemma RateChangeAdmitsMoreExactly(r: nat, q: nat, now: nat)
    requires 1 <= r <= U32_MAX && 1 <= q <= U32_MAX
    requires now + RateTiming(r).burst <= U64_MAX
    ensures TakeAt(RateTiming(q), now, NextAtInstant(RateTiming(r), now, now, r)).Admitted? <==>
            && LeavesRoom(r, q)
            && now + RateTiming(r).burst + RateTiming(q).interval <= U64_MAX
  {
    TimingIsConservative(r);
    TimingIsConservative(q);
    FullRoom(RateTiming(r), r, now);
    BurstReserves(RateTiming(r), r, now, 0, now, now + RateTiming(r).burst, r);
  }

  /** Where a rate leaves room after another, r takes at rate r are followed by one more at the same instant. */
  lemma OneTakeMore(r: nat, q: nat, now: nat)
    requires 1 <= r <= U32_MAX && 1 <= q <= U32_MAX && LeavesRoom(r, q)
    requires now + RateTiming(q).burst <= U64_MAX
    ensures AdmittedAtInstant(RateTiming(r), now, now, r) == r
    ensures TakeAt(RateTiming(q), now, NextAtInstant(RateTiming(r), now, now, r)).Admitted?
  {
    TimingIsConservative(r);
    FullRoom(RateTiming(r), r, now);
    IdleBurst(r, now, now, r);
    RateChangeAdmitsMoreExactly(r, q, now);
  }

  /** Lowering 50 000 takes a second to 49 999 leaves room. */
  lemma SlowerRateLeavesRoom()
    ensures LeavesRoom(50_000, 49_999)
  {
    assert RateTiming(50_000) == Timing(20_000, 1_000_000_000);
    assert RateTiming(49_999) == Timing(20_001, 1_000_029_999);
  }

  // ---- Progress of the reservation ----

  function AllTakes(g: Gate, actions: seq<Action>): nat
    decreases actions
  {
    if actions == [] then 0
    else (if Admits(g, actions[0]) then 1 else 0) + AllTakes(Step(g, actions[0]), actions[1..])
  }

  ghost predicate PositiveIntervals(g: Gate) {
    forall i :: 0 <= i < |g.takers| ==>
      match g.takers[i]
      case Idle => true
      case HasInterval(_, interval, _) => interval >= 1
      case HasBurst(_, timing, _, _) => timing.interval >= 1
      case Watching(_, timing, _, _, _) => timing.interval >= 1
  }

  lemma StepKeepsPositive(g: Gate, a: Action)
    requires PositiveIntervals(g)
    ensures PositiveIntervals(Step(g, a))
  {
  }

  /**
   The reservation never decreases and every admission, at whatever rate, advances it; since it
   never passes 2^64 - 1, admissions cannot go on forever once the time domain is spent.
   */
  lemma {:induction false} AdmissionsSpendTime(g: Gate, actions: seq<Action>)
    requires g.next <= U64_MAX && PositiveIntervals(g)
    ensures g.next + AllTakes(g, actions) <= Run(g, actions).next <= U64_MAX
    decreases actions
  {
    if actions == [] {
    } else {
      StepAdvances(g, actions[0]);
      StepKeepsPositive(g, actions[0]);
      AdmissionsSpendTime(Step(g, actions[0]), actions[1..]);
    }
  }

  // ---- Order of the stores of a rate change ----

  ghost predicate EpochsOrdered(g: Gate) {
    && g.burstEpoch == g.intervalEpoch + (if g.setter.BurstStored? then 1 else 0)
    && (g.setter.AtRest? ==> Timing(g.interval, g.burst) == RateTiming(g.rate))
    && (g.setter.BurstStored? ==> g.burst == RateTiming(g.setter.rate).burst)
    && (g.setter.IntervalStored? ==> Timing(g.interval, g.burst) == RateTiming(g.setter.rate))
    && forall i :: 0 <= i < |g.takers| ==>
         match g.takers[i]
         case Idle => true
         case HasInterval(_, _, e) => e <= g.intervalEpoch
         case HasBurst(_, _, e, b) => e <= b <= g.burstEpoch
         case Watching(_, _, e, b, _) => e <= b <= g.burstEpoch
  }

  lemma StepKeepsEpochs(g: Gate, a: Action)
    requires EpochsOrdered(g)
    ensures EpochsOrdered(Step(g, a))
  {
  }

  lemma {:induction false} RunKeepsEpochs(g: Gate, actions: seq<Action>)
    requires EpochsOrdered(g)
    ensures EpochsOrdered(Run(g, actions))
    decreases actions
  {
    if actions == [] {
    } else {
      StepKeepsEpochs(g, actions[0]);
      RunKeepsEpochs(Step(g, actions[0]), actions[1..]);
    }
  }

  /** Across any number of rate changes, no attempt decides with a burst older than its interval. */
  lemma BurstNeverOlderThanInterval(rate: nat, takers: nat, actions: seq<Action>, slot: nat)
    requires var g := Run(New(rate, takers), actions);
             slot < |g.takers| && g.takers[slot].Watching?
    ensures var at := Run(New(rate, takers), actions).takers[slot];
            at.intervalEpoch <= at.burstEpoch
  {
    RunKeepsEpochs(New(rate, takers), actions);
  }
}
