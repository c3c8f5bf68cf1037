/** Admission pools whose soft ceiling a controller moves inside a hard bound. */
module Admission {
  import opened Words
  import opened RateGate
  import CeilingSemaphore

  datatype AdmissionKind =
    Connection | PreAuthIdle | Handshake | Fallback | CryptoOperation | ReplayEntry | DnsLookup

  /** What the controller sees of a soft-ceiling semaphore. */
  class SoftPool {
    const hardBound: nat
    var ceiling: nat
    var inFlight: nat

    /** The pool shows the bound, ceiling and counter of the interleaved semaphore. */
    ghost predicate Shows(p: CeilingSemaphore.Pool)
      reads this
    {
      hardBound == p.hard && ceiling == p.ceiling && inFlight == p.inFlight
    }

    constructor (hardBound: nat)
      ensures this.hardBound == ceiling == hardBound && inFlight == 0
      ensures forall attempts: nat :: Shows(CeilingSemaphore.New(hardBound, attempts))
    {
      this.hardBound, ceiling, inFlight := hardBound, hardBound, 0;
    }

    method SetCeiling(value: nat)
      modifies `ceiling
      ensures ceiling == Min(value, hardBound)
      ensures forall p :: old(Shows(p)) ==> Shows(CeilingSemaphore.Step(p, CeilingSemaphore.SetCeiling(value)))
    {
      ceiling := Min(value, hardBound);
    }
  }

  class ResourceGovernor {
    const connections: SoftPool
    const preAuthIdle: SoftPool
    const handshakes: SoftPool
    const fallbacks: SoftPool
    const cryptoOperations: SoftPool
    const replayEntries: SoftPool
    const dnsLookups: SoftPool

    constructor (connections: nat, preAuthIdle: nat, handshakes: nat, fallbacks: nat,
                 cryptoOperations: nat, replayEntries: nat, dnsLookups: nat)
      ensures forall kind :: fresh(Pool(kind)) && Pool(kind).ceiling == Pool(kind).hardBound && Pool(kind).inFlight == 0
      ensures forall a, b :: a != b ==> Pool(a) != Pool(b)
      ensures Pool(Connection) == this.connections && this.connections.hardBound == connections
      ensures Pool(PreAuthIdle) == this.preAuthIdle && this.preAuthIdle.hardBound == preAuthIdle
      ensures Pool(Handshake) == this.handshakes && this.handshakes.hardBound == handshakes
      ensures Pool(Fallback) == this.fallbacks && this.fallbacks.hardBound == fallbacks
      ensures Pool(CryptoOperation) == this.cryptoOperations && this.cryptoOperations.hardBound == cryptoOperations
      ensures Pool(ReplayEntry) == this.replayEntries && this.replayEntries.hardBound == replayEntries
      ensures Pool(DnsLookup) == this.dnsLookups && this.dnsLookups.hardBound == dnsLookups
    {
      this.connections := new SoftPool(connections);
      this.preAuthIdle := new SoftPool(preAuthIdle);
      this.handshakes := new SoftPool(handshakes);
      this.fallbacks := new SoftPool(fallbacks);
      this.cryptoOperations := new SoftPool(cryptoOperations);
      this.replayEntries := new SoftPool(replayEntries);
      this.dnsLookups := new SoftPool(dnsLookups);
    }

    function Pools(): set<SoftPool> {
      {connections, preAuthIdle, handshakes, fallbacks, cryptoOperations, replayEntries, dnsLookups}
    }

    function Pool(kind: AdmissionKind): (pool: SoftPool)
      ensures pool in Pools()
    {
      match kind
      case Connection => connections
      case PreAuthIdle => preAuthIdle
      case Handshake => handshakes
      case Fallback => fallbacks
      case CryptoOperation => cryptoOperations
      case ReplayEntry => replayEntries
      case DnsLookup => dnsLookups
    }
  }

  class DirectBarrier {
    const concurrency: SoftPool
    const rate: DialRateGate

    constructor (maxConcurrent: nat, maxPerSecond: nat)
      requires maxPerSecond <= U32_MAX
      ensures fresh(concurrency) && concurrency.hardBound == concurrency.ceiling == maxConcurrent
      ensures fresh(rate) && rate.Valid() && rate.ratePerSecond == maxPerSecond
    {
      concurrency := new SoftPool(maxConcurrent);
      rate := new DialRateGate(maxPerSecond);
    }
  }
}

/** The adaptive controller over the live admission pools and the dial-rate gate. */
module AdaptiveController {
  import opened Words
  import opened Wrappers
  import opened KnobHysteresis
  import opened Admission

  datatype Knob =
    Connections | Handshakes | Fallbacks | CryptoOperations | ReplayEntries | DnsLookups
    | DirectConcurrent | DirectPerSecond

  const ALL: seq<Knob> :=
    [Connections, Handshakes, Fallbacks, CryptoOperations, ReplayEntries, DnsLookups, DirectConcurrent, DirectPerSecond]

  /** The built-in default of each knob's field, in knob order. */
  const FLOORS: seq<nat> := [16_384, 1_024, 512, 128, 65_536, 64, 2_048, 4_096]

  function Quantum(knob: Knob): nat { if knob.DirectPerSecond? then 16 else 64 }

  datatype Target = GovernorPool(kind: AdmissionKind) | DirectPool | DialRate

  function TargetOf(knob: Knob): Target {
    match knob
    case Connections => GovernorPool(Connection)
    case Handshakes => GovernorPool(Handshake)
    case Fallbacks => GovernorPool(Fallback)
    case CryptoOperations => GovernorPool(CryptoOperation)
    case ReplayEntries => GovernorPool(ReplayEntry)
    case DnsLookups => GovernorPool(DnsLookup)
    case DirectConcurrent => DirectPool
    case DirectPerSecond => DialRate
  }

  datatype ChangeReason = CriticalPressure | HighUtilization | LowUtilization
  datatype CeilingChange = CeilingChange(knob: Knob, reason: ChangeReason, from: nat, to: nat, floor: nat, ceiling: nat)

  /** The reason of a move: critical pressure, or which watermark the sample was past. */
  ghost function ReasonFor(critical: bool, value: nat, inFlight: nat): ChangeReason {
    if critical then CriticalPressure else if IsHigh(value, inFlight) then HighUtilization else LowUtilization
  }

  class KnobState {
    const knob: Knob
    var value: nat
    const floor: nat
    const hard: nat
    const step: nat
    var aboveTicks: nat
    var belowTicks: nat
    var lastChangeTick: LastChange
    var ticksInState: nat

    ghost function View(): KnobView
      reads this
    {
      KnobView(value, floor, hard, step, aboveTicks, belowTicks, lastChangeTick, ticksInState)
    }

    constructor (knob: Knob, startup: nat, floor: nat)
      ensures this.knob == knob && View() == NewKnob(startup, floor, Quantum(knob))
    {
      this.knob := knob;
      this.value, this.hard := startup, startup;
      this.floor := Max(Min(floor, startup), 1);
      this.step := QuantizedStep(startup, Quantum(knob));
      aboveTicks, belowTicks, lastChangeTick, ticksInState := 0, 0, Never, 0;
    }

    method Record(tick: nat, to: nat)
      modifies this
      ensures View() == Moved(old(View()), tick, to)
    {
      value := to;
      aboveTicks := 0;
      belowTicks := 0;
      ticksInState := 0;
      lastChangeTick := AtTick(tick);
    }

    /** A returned change is exactly the move made. */
    ghost predicate Reports(change: Option<CeilingChange>, from: nat, why: ChangeReason)
      reads this
    {
      && (change.None? <==> value == from)
      && (change.Some? ==> change.value == CeilingChange(knob, why, from, value, floor, hard))
    }

    method ClampToFloor(tick: nat) returns (change: Option<CeilingChange>)
      modifies this
      ensures View() == Clamp(old(View()), tick)
      ensures Reports(change, old(value), CriticalPressure)
    {
      aboveTicks := 0;
      belowTicks := 0;
      if value == floor {
        return None;
      }
      var from := value;
      Record(tick, floor);
      change := Some(CeilingChange(knob, CriticalPressure, from, floor, floor, hard));
    }

    method Tick(inFlight: nat, tick: nat) returns (change: Option<CeilingChange>)
      modifies this
      ensures View() == Sample(old(View()), inFlight, tick)
      ensures Reports(change, old(value), ReasonFor(false, old(value), inFlight))
    {
      ticksInState := SatAdd64(ticksInState, 1);
      if SatMul64(inFlight, 100) >= SatMul64(value, HIGH_PERCENT) {
        aboveTicks := SatInc8(aboveTicks);
        belowTicks := 0;
      } else if SatMul64(inFlight, 100) <= SatMul64(value, LOW_PERCENT) {
        belowTicks := SatInc8(belowTicks);
        aboveTicks := 0;
      } else {
        aboveTicks := 0;
        belowTicks := 0;
        return None;
      }
      var up := aboveTicks >= SCALE_UP_TICKS;
      if !up && belowTicks < SCALE_DOWN_TICKS {
        return None;
      }
      if lastChangeTick.AtTick? && SatSub(tick, lastChangeTick.tick) < DWELL_TICKS {
        return None;
      }
      var target := if up then Min(SatAdd64(value, step), hard) else Max(SatSub(value, step), floor);
      if target == value {
        aboveTicks := 0;
        belowTicks := 0;
        return None;
      }
      var from := value;
      Record(tick, target);
      change := Some(CeilingChange(knob, if up then HighUtilization else LowUtilization, from, target, floor, hard));
    }
  }

  /** What a tick does to one knob: its value before, its state after, and the reason of a move. */
  datatype Forecast = Forecast(was: nat, next: KnobView, why: ChangeReason)

  /** What a tick tells a knob: critical pressure, or its sampled utilization. */
  ghost function Delivered(critical: bool, inFlight: nat): Event { if critical then Critical else Sampled(inFlight) }

  ghost function Foreseen(k: KnobState, inFlight: nat, critical: bool, tick: nat): Forecast
    reads k
  {
    Forecast(k.value, Next(k.View(), Delivered(critical, inFlight), tick), ReasonFor(critical, k.value, inFlight))
  }

  /** The change that a forecast move of a knob is reported as. */
  ghost function Change(k: KnobState, f: Forecast): CeilingChange {
    CeilingChange(k.knob, f.why, f.was, f.next.value, k.floor, k.hard)
  }

  predicate Moves(f: Forecast) { f.next.value != f.was }

  /** `changes` lists, in order, the moves among the first knobs; `at` says whose they are. */
  ghost predicate Lists(changes: seq<CeilingChange>, at: seq<nat>, knobs: seq<KnobState>, outlook: seq<Forecast>,
                        upTo: nat)
    requires upTo <= |knobs| == |outlook|
  {
    && |at| == |changes|
    && (forall c, d :: 0 <= c < d < |at| ==> at[c] < at[d])
    && (forall c :: 0 <= c < |at| ==>
          at[c] < upTo && Moves(outlook[at[c]]) && changes[c] == Change(knobs[at[c]], outlook[at[c]]))
    && (forall j :: 0 <= j < upTo && j !in at ==> !Moves(outlook[j]))
  }

  /** Knob i more: listed if it moved, left out if it did not. */
  lemma ListsNext(changes: seq<CeilingChange>, at: seq<nat>, knobs: seq<KnobState>, outlook: seq<Forecast>, i: nat,
                  change: Option<CeilingChange>)
    requires i < |knobs| == |outlook| && Lists(changes, at, knobs, outlook, i)
    requires change == if Moves(outlook[i]) then Some(Change(knobs[i], outlook[i])) else None
    ensures change.None? ==> Lists(changes, at, knobs, outlook, i + 1)
    ensures change.Some? ==> Lists(changes + [change.value], at + [i], knobs, outlook, i + 1)
  {
    if change.Some? {
      assert i in at + [i];
    }
  }

  method Deliver(k: KnobState, critical: bool, inFlight: nat, tick: nat, ghost f: Forecast)
    returns (change: Option<CeilingChange>)
    requires f == Foreseen(k, inFlight, critical, tick)
    modifies k
    ensures k.View() == f.next
    ensures change == if Moves(f) then Some(Change(k, f)) else None
  {
    if critical {
      change := k.ClampToFloor(tick);
    } else {
      change := k.Tick(inFlight, tick);
    }
  }

  method MoveKnobs(knobs: seq<KnobState>, signals: seq<nat>, critical: bool, tick: nat, ghost outlook: seq<Forecast>)
    returns (changes: seq<CeilingChange>, ghost at: seq<nat>)
    requires |signals| == |outlook| == |knobs|
    requires forall i, j :: 0 <= i < j < |knobs| ==> knobs[i] != knobs[j]
    requires forall i :: 0 <= i < |knobs| ==> outlook[i] == Foreseen(knobs[i], signals[i], critical, tick)
    modifies knobs
    ensures forall i :: 0 <= i < |knobs| ==> knobs[i].View() == outlook[i].next
    ensures Lists(changes, at, knobs, outlook, |knobs|)
  {
    changes, at := [], [];
    var i := 0;
    while i < |knobs|
      invariant 0 <= i <= |knobs|
      invariant forall j :: 0 <= j < i ==> knobs[j].View() == outlook[j].next
      invariant forall j :: i <= j < |knobs| ==> knobs[j].View() == old(knobs[j].View())
      invariant Lists(changes, at, knobs, outlook, i)
    {
      var change := Deliver(knobs[i], critical, signals[i], tick, outlook[i]);
      ListsNext(changes, at, knobs, outlook, i, change);
      if change.Some? {
        changes := changes + [change.value];
        at := at + [i];
      }
      i := i + 1;
    }
  }

  class Controller {
    const knobs: seq<KnobState>
    const governor: ResourceGovernor
    const barrier: DirectBarrier
    var tickIndex: nat

    /** The live setting a knob drives. */
    ghost function Setting(target: Target): nat
      reads governor.Pools()
      reads barrier.concurrency, barrier.rate
    {
      match target
      case GovernorPool(kind) => governor.Pool(kind).ceiling
      case DirectPool => barrier.concurrency.ceiling
      case DialRate => barrier.rate.ratePerSecond
    }

    ghost function Limit(target: Target): nat {
      match target
      case GovernorPool(kind) => governor.Pool(kind).hardBound
      case DirectPool => barrier.concurrency.hardBound
      case DialRate => U32_MAX
    }

    /** Everything the controller may move: knobs, pools and the gate, all distinct objects. */
    ghost predicate Wired() {
      && (forall i, j :: 0 <= i < j < |knobs| ==> TargetOf(knobs[i].knob) != TargetOf(knobs[j].knob))
      && (forall i, j :: 0 <= i < j < |knobs| ==> knobs[i] != knobs[j])
      && (forall a, b :: a != b ==> governor.Pool(a) != governor.Pool(b))
      && (forall kind :: governor.Pool(kind) != barrier.concurrency)
      && (forall i :: 0 <= i < |knobs| ==> knobs[i].hard <= Limit(TargetOf(knobs[i].knob)))
    }

    /** The knob's value is in force: the ceiling of its own pool, or the dial rate, equals it. */
    ghost predicate Drives(i: nat)
      requires i < |knobs|
      reads knobs
      reads governor.Pools(), barrier.concurrency, barrier.rate
    {
      knobs[i].value == match knobs[i].knob
        case Connections => governor.connections.ceiling
        case Handshakes => governor.handshakes.ceiling
        case Fallbacks => governor.fallbacks.ceiling
        case CryptoOperations => governor.cryptoOperations.ceiling
        case ReplayEntries => governor.replayEntries.ceiling
        case DnsLookups => governor.dnsLookups.ceiling
        case DirectConcurrent => barrier.concurrency.ceiling
        case DirectPerSecond => barrier.rate.ratePerSecond
    }

    lemma DrivesSetting(i: nat)
      requires i < |knobs|
      ensures Drives(i) <==> Setting(TargetOf(knobs[i].knob)) == knobs[i].value
    {
    }

    lemma AllDrive()
      ensures (forall i :: 0 <= i < |knobs| ==> Drives(i)) <==>
              (forall i :: 0 <= i < |knobs| ==> Setting(TargetOf(knobs[i].knob)) == knobs[i].value)
    {
      forall i | 0 <= i < |knobs|
        ensures Drives(i) <==> Setting(TargetOf(knobs[i].knob)) == knobs[i].value
      {
        DrivesSetting(i);
      }
    }

    /** Every knob is in range, and its pool or the gate stands at its value. */
    ghost predicate Governed()
      reads knobs
      reads governor.Pools()
      reads barrier.concurrency, barrier.rate
    {
      && Wired()
      && barrier.rate.Valid()
      && (forall i :: 0 <= i < |knobs| ==> InRange(knobs[i].View()))
      && (forall i :: 0 <= i < |knobs| ==> Drives(i))
    }

    ghost predicate Valid()
      reads this, knobs
      reads governor.Pools()
      reads barrier.concurrency, barrier.rate
    {
      Governed() && tickIndex <= U64_MAX
    }

    static function Startup(governor: ResourceGovernor, barrier: DirectBarrier, target: Target): nat
      reads barrier.rate
    {
      match target
      case GovernorPool(kind) => governor.Pool(kind).hardBound
      case DirectPool => barrier.concurrency.hardBound
      case DialRate => barrier.rate.ratePerSecond
    }

    /** A new knob at the value its pool or gate was built with. */
    static ghost predicate Starts(k: KnobState, governor: ResourceGovernor, barrier: DirectBarrier)
      reads k, barrier.rate
    {
      IsNew(k.View()) && k.value == k.hard == Startup(governor, barrier, TargetOf(k.knob))
    }

    /** The knob starts at its startup value, with the lesser of that and the default as its floor. */
    static ghost predicate Built(k: KnobState, knob: Knob, startup: nat, default: nat, quantum: nat)
      requires quantum >= 1
      reads k
    {
      && k.knob == knob && k.value == k.hard == startup && k.floor == Min(default, startup)
      && k.step == QuantizedStep(startup, quantum)
    }

    /** The n-th knob as it is built. */
    static ghost predicate Started(k: KnobState, governor: ResourceGovernor, barrier: DirectBarrier, n: nat)
      requires n < |ALL|
      reads k, barrier.rate
    {
      && k.knob == ALL[n] && Starts(k, governor, barrier)
      && k.floor == Min(FLOORS[n], k.hard) && k.step == QuantizedStep(k.hard, Quantum(ALL[n]))
    }

    static method NewKnobState(governor: ResourceGovernor, barrier: DirectBarrier, n: nat) returns (k: KnobState)
      requires n < |ALL| && 1 <= Startup(governor, barrier, TargetOf(ALL[n])) <= U32_MAX
      ensures fresh(k) && Started(k, governor, barrier, n)
    {
      var startup := Startup(governor, barrier, TargetOf(ALL[n]));
      NewKnobInRangeExactly(startup, FLOORS[n], Quantum(ALL[n]));
      k := new KnobState(ALL[n], startup, FLOORS[n]);
    }

    static method NewKnobs(governor: ResourceGovernor, barrier: DirectBarrier) returns (ks: seq<KnobState>)
      requires forall kind :: kind != PreAuthIdle ==> 1 <= governor.Pool(kind).hardBound <= U32_MAX
      requires 1 <= barrier.concurrency.hardBound <= U32_MAX
      requires 1 <= barrier.rate.ratePerSecond <= U32_MAX
      ensures |ks| == |ALL| && forall i :: 0 <= i < |ALL| ==> fresh(ks[i]) && Started(ks[i], governor, barrier, i)
      ensures forall i, j :: 0 <= i < j < |ALL| ==> ks[i] != ks[j]
    {
      ks := [];
      while |ks| < |ALL|
        invariant |ks| <= |ALL|
        invariant forall j :: 0 <= j < |ks| ==> fresh(ks[j]) && Started(ks[j], governor, barrier, j)
        invariant forall j, l :: 0 <= j < l < |ks| ==> ks[j] != ks[l]
      {
        var k := NewKnobState(governor, barrier, |ks|);
        ks := ks + [k];
      }
    }

    /** The eight knobs with their pools and defaults, field by field. */
    static ghost predicate AllBuilt(ks: seq<KnobState>, governor: ResourceGovernor, barrier: DirectBarrier)
      reads ks, barrier.rate
    {
      && |ks| == 8
      && Built(ks[0], Connections, governor.connections.hardBound, 16_384, 64)
      && Built(ks[1], Handshakes, governor.handshakes.hardBound, 1_024, 64)
      && Built(ks[2], Fallbacks, governor.fallbacks.hardBound, 512, 64)
      && Built(ks[3], CryptoOperations, governor.cryptoOperations.hardBound, 128, 64)
      && Built(ks[4], ReplayEntries, governor.replayEntries.hardBound, 65_536, 64)
      && Built(ks[5], DnsLookups, governor.dnsLookups.hardBound, 64, 64)
      && Built(ks[6], DirectConcurrent, barrier.concurrency.hardBound, 2_048, 64)
      && Built(ks[7], DirectPerSecond, barrier.rate.ratePerSecond, 4_096, 16)
    }

    static lemma TargetsDiffer(i: nat, j: nat)
      requires i < j < |ALL|
      ensures TargetOf(ALL[i]) != TargetOf(ALL[j])
    {
    }

    /** Eight knobs, each at the bound its own pool or the gate was built with, over its own default. */
    static lemma StartedAreBuilt(ks: seq<KnobState>, governor: ResourceGovernor, barrier: DirectBarrier)
      requires |ks| == |ALL| && forall i :: 0 <= i < |ALL| ==> Started(ks[i], governor, barrier, i)
      ensures AllBuilt(ks, governor, barrier)
    {
      assert Started(ks[0], governor, barrier, 0) && Started(ks[1], governor, barrier, 1);
      assert Started(ks[2], governor, barrier, 2) && Started(ks[3], governor, barrier, 3);
      assert Started(ks[4], governor, barrier, 4) && Started(ks[5], governor, barrier, 5);
      assert Started(ks[6], governor, barrier, 6) && Started(ks[7], governor, barrier, 7);
    }

    /** Knobs start at the value each pool was built with, with the built-in defaults as floors. */
    constructor (governor: ResourceGovernor, barrier: DirectBarrier)
      requires forall kind :: kind != PreAuthIdle ==>
                 1 <= governor.Pool(kind).ceiling == governor.Pool(kind).hardBound <= U32_MAX
      requires 1 <= barrier.concurrency.ceiling == barrier.concurrency.hardBound <= U32_MAX
      requires barrier.rate.Valid() && 1 <= barrier.rate.ratePerSecond
      requires forall a, b :: a != b ==> governor.Pool(a) != governor.Pool(b)
      requires forall kind :: governor.Pool(kind) != barrier.concurrency
      ensures Valid() && tickIndex == 0
      ensures |knobs| == |ALL| && forall i :: 0 <= i < |ALL| ==> Started(knobs[i], governor, barrier, i)
      ensures this.governor == governor && this.barrier == barrier
      ensures forall i :: 0 <= i < |knobs| ==> fresh(knobs[i]) && IsNew(knobs[i].View())
    {
      var ks := NewKnobs(governor, barrier);
      knobs := ks;
      this.governor := governor;
      this.barrier := barrier;
      tickIndex := 0;
      new;
      forall i, j | 0 <= i < j < |knobs|
        ensures TargetOf(knobs[i].knob) != TargetOf(knobs[j].knob)
      {
        TargetsDiffer(i, j);
      }
      StartsGoverned();
    }

    /** What the pools and the gate are built with, and what the knobs start at. */
    ghost predicate AtStartup()
      reads knobs
      reads governor.Pools()
      reads barrier.concurrency, barrier.rate
    {
      && (forall kind :: kind != PreAuthIdle ==>
            1 <= governor.Pool(kind).ceiling == governor.Pool(kind).hardBound <= U32_MAX)
      && 1 <= barrier.concurrency.ceiling == barrier.concurrency.hardBound <= U32_MAX
      && barrier.rate.Valid() && 1 <= barrier.rate.ratePerSecond
      && forall i :: 0 <= i < |knobs| ==> Starts(knobs[i], governor, barrier)
    }

    lemma StartsGoverned()
      requires AtStartup()
      requires forall i, j :: 0 <= i < j < |knobs| ==>
                 knobs[i] != knobs[j] && TargetOf(knobs[i].knob) != TargetOf(knobs[j].knob)
      requires forall a, b :: a != b ==> governor.Pool(a) != governor.Pool(b)
      requires forall kind :: governor.Pool(kind) != barrier.concurrency
      ensures Governed()
    {
      AllDrive();
    }

    method Apply(change: CeilingChange)
      requires Wired() && barrier.rate.Valid()
      requires change.to <= Limit(TargetOf(change.knob))
      modifies governor.connections`ceiling, governor.handshakes`ceiling, governor.fallbacks`ceiling
      modifies governor.cryptoOperations`ceiling, governor.replayEntries`ceiling, governor.dnsLookups`ceiling
      modifies barrier.concurrency`ceiling
      modifies barrier.rate`ratePerSecond, barrier.rate`intervalNanos, barrier.rate`burstNanos
      ensures barrier.rate.Valid()
      ensures Setting(TargetOf(change.knob)) == change.to
      ensures forall target :: target != TargetOf(change.knob) ==> Setting(target) == old(Setting(target))
    {
      match TargetOf(change.knob)
      case GovernorPool(kind) => governor.Pool(kind).SetCeiling(change.to);
      case DirectPool => barrier.concurrency.SetCeiling(change.to);
      case DialRate => barrier.rate.SetRate(Min(change.to, U32_MAX));
    }

    /** The permits held against a knob's pool; the dial rate shares the direct pool's signal. */
    function InFlight(knob: Knob): nat
      reads governor.Pools()
      reads barrier.concurrency
    {
      match TargetOf(knob)
      case GovernorPool(kind) => governor.Pool(kind).inFlight
      case _ => barrier.concurrency.inFlight
    }

    /** `changes` lists, in knob order, exactly the knobs that no longer match their setting. */
    ghost predicate Pending(changes: seq<CeilingChange>, at: seq<nat>)
      requires Wired()
      reads knobs
      reads governor.Pools()
      reads barrier.concurrency, barrier.rate
    {
      && |at| == |changes|
      && (forall c :: 0 <= c < |at| ==>
            at[c] < |knobs| && changes[c].knob == knobs[at[c]].knob && changes[c].to == knobs[at[c]].value)
      && (forall i :: 0 <= i < |knobs| && i !in at ==> Setting(TargetOf(knobs[i].knob)) == knobs[i].value)
    }

    /** The utilization signal of every knob, sampled before any knob moves. */
    method Signals() returns (signals: seq<nat>)
      ensures |signals| == |knobs| && forall i :: 0 <= i < |knobs| ==> signals[i] == InFlight(knobs[i].knob)
    {
      signals := [];
      while |signals| < |knobs|
        invariant |signals| <= |knobs|
        invariant forall i :: 0 <= i < |signals| ==> signals[i] == InFlight(knobs[i].knob)
      {
        signals := signals + [InFlight(knobs[|signals|].knob)];
      }
    }

    ghost function Values(): (values: seq<nat>)
      requires Wired()
      reads knobs
      ensures |values| == |knobs| && forall i :: 0 <= i < |knobs| ==> values[i] == knobs[i].value
    {
      seq(|knobs|, i requires 0 <= i < |knobs| reads knobs => knobs[i].value)
    }

    /** What a tick does to the knobs. */
    ghost function Outlook(critical: bool, tick: nat): (outlook: seq<Forecast>)
      reads knobs
      reads governor.Pools()
      reads barrier.concurrency
      ensures |outlook| == |knobs|
      ensures forall i :: 0 <= i < |knobs| ==>
                outlook[i] == Foreseen(knobs[i], InFlight(knobs[i].knob), critical, tick)
    {
      seq(|knobs|, i requires 0 <= i < |knobs| reads knobs, barrier.concurrency, governor.Pools() =>
        Foreseen(knobs[i], InFlight(knobs[i].knob), critical, tick))
    }

    lemma OutlookInRange(critical: bool, tick: nat)
      requires forall i :: 0 <= i < |knobs| ==> InRange(knobs[i].View())
      ensures forall i :: 0 <= i < |knobs| ==> InRange(Outlook(critical, tick)[i].next)
    {
      forall i | 0 <= i < |knobs|
        ensures InRange(Outlook(critical, tick)[i].next)
      {
        NextKeepsRange(knobs[i].View(), Delivered(critical, InFlight(knobs[i].knob)), tick);
      }
    }

    /** Listed moves are what the settings still lack. */
    lemma ListedIsPending(changes: seq<CeilingChange>, at: seq<nat>, outlook: seq<Forecast>)
      requires Wired() && |outlook| == |knobs| && Lists(changes, at, knobs, outlook, |knobs|)
      requires forall i :: 0 <= i < |knobs| ==>
                 knobs[i].View() == outlook[i].next && Setting(TargetOf(knobs[i].knob)) == outlook[i].was
      ensures Pending(changes, at)
    {
    }

    /** Moves every knob by one tick and lists the moves. */
    method Decide(critical: bool, tick: nat, ghost outlook: seq<Forecast>)
      returns (changes: seq<CeilingChange>, ghost at: seq<nat>)
      requires Wired() && |outlook| == |knobs|
      requires forall i :: 0 <= i < |knobs| ==>
                 outlook[i] == Foreseen(knobs[i], InFlight(knobs[i].knob), critical, tick)
      modifies knobs
      ensures forall i :: 0 <= i < |knobs| ==> knobs[i].View() == outlook[i].next
      ensures Lists(changes, at, knobs, outlook, |knobs|)
      ensures forall target :: Setting(target) == old(Setting(target))
    {
      var signals := Signals();
      assert forall i :: 0 <= i < |knobs| ==> outlook[i] == Foreseen(knobs[i], signals[i], critical, tick);
      changes, at := MoveKnobs(knobs, signals, critical, tick, outlook);
    }

    /** Every knob outside `waiting` has its value in force. */
    ghost predicate InForce(values: seq<nat>, waiting: seq<nat>)
      requires |values| == |knobs|
      reads governor.Pools()
      reads barrier.concurrency, barrier.rate
    {
      forall i :: 0 <= i < |knobs| && i !in waiting ==> Setting(TargetOf(knobs[i].knob)) == values[i]
    }

    method ApplyNext(change: CeilingChange, ghost values: seq<nat>, ghost i: nat, ghost rest: seq<nat>)
      requires Wired() && barrier.rate.Valid() && |values| == |knobs| && i < |knobs|
      requires change.knob == knobs[i].knob && change.to == values[i] <= Limit(TargetOf(knobs[i].knob))
      requires InForce(values, [i] + rest)
      modifies governor.connections`ceiling, governor.handshakes`ceiling, governor.fallbacks`ceiling
      modifies governor.cryptoOperations`ceiling, governor.replayEntries`ceiling, governor.dnsLookups`ceiling
      modifies barrier.concurrency`ceiling
      modifies barrier.rate`ratePerSecond, barrier.rate`intervalNanos, barrier.rate`burstNanos
      ensures barrier.rate.Valid() && InForce(values, rest)
    {
      Apply(change);
    }

    /** Each change takes a knob's setting to its value, within the limit. */
    ghost predicate Due(changes: seq<CeilingChange>, at: seq<nat>, values: seq<nat>)
      requires |values| == |knobs|
    {
      && |at| == |changes|
      && forall c :: 0 <= c < |at| ==>
           && at[c] < |knobs| && changes[c].knob == knobs[at[c]].knob
           && changes[c].to == values[at[c]] <= Limit(TargetOf(knobs[at[c]].knob))
    }

    lemma DueNow(changes: seq<CeilingChange>, at: seq<nat>)
      requires Wired() && Pending(changes, at)
      requires forall i :: 0 <= i < |knobs| ==> InRange(knobs[i].View())
      ensures Due(changes, at, Values()) && InForce(Values(), at)
    {
      forall i | 0 <= i < |knobs|
        ensures Values()[i] <= knobs[i].hard
      {
        assert InRange(knobs[i].View());
      }
    }

    method ApplyDue(changes: seq<CeilingChange>, ghost at: seq<nat>, ghost values: seq<nat>)
      requires Wired() && barrier.rate.Valid() && |values| == |knobs|
      requires Due(changes, at, values) && InForce(values, at)
      modifies governor.connections`ceiling, governor.handshakes`ceiling, governor.fallbacks`ceiling
      modifies governor.cryptoOperations`ceiling, governor.replayEntries`ceiling, governor.dnsLookups`ceiling
      modifies barrier.concurrency`ceiling
      modifies barrier.rate`ratePerSecond, barrier.rate`intervalNanos, barrier.rate`burstNanos
      ensures barrier.rate.Valid() && InForce(values, [])
    {
      var n := 0;
      while n < |changes|
        invariant 0 <= n <= |changes|
        invariant barrier.rate.Valid() && InForce(values, at[n..])
      {
        assert at[n..] == [at[n]] + at[n + 1..];
        ApplyNext(changes[n], values, at[n], at[n + 1..]);
        n := n + 1;
      }
    }

    /** Applies the changes in order. */
    method ApplyAll(changes: seq<CeilingChange>, ghost at: seq<nat>)
      requires Wired() && barrier.rate.Valid() && Pending(changes, at)
      requires forall i :: 0 <= i < |knobs| ==> InRange(knobs[i].View())
      modifies governor.connections`ceiling, governor.handshakes`ceiling, governor.fallbacks`ceiling
      modifies governor.cryptoOperations`ceiling, governor.replayEntries`ceiling, governor.dnsLookups`ceiling
      modifies barrier.concurrency`ceiling
      modifies barrier.rate`ratePerSecond, barrier.rate`intervalNanos, barrier.rate`burstNanos
      ensures barrier.rate.Valid()
      ensures forall i :: 0 <= i < |knobs| ==> Setting(TargetOf(knobs[i].knob)) == knobs[i].value
    {
      DueNow(changes, at);
      ApplyDue(changes, at, Values());
    }

    /** Moves every knob and brings its pool or the gate to its value. */
    method Move(critical: bool, tick: nat, ghost outlook: seq<Forecast>)
      returns (changes: seq<CeilingChange>, ghost at: seq<nat>)
      requires Governed() && outlook == Outlook(critical, tick)
      modifies knobs
      modifies governor.connections`ceiling, governor.handshakes`ceiling, governor.fallbacks`ceiling
      modifies governor.cryptoOperations`ceiling, governor.replayEntries`ceiling, governor.dnsLookups`ceiling
      modifies barrier.concurrency`ceiling
      modifies barrier.rate`ratePerSecond, barrier.rate`intervalNanos, barrier.rate`burstNanos
      ensures Governed()
      ensures forall i :: 0 <= i < |knobs| ==> knobs[i].View() == outlook[i].next
      ensures Lists(changes, at, knobs, outlook, |knobs|)
    {
      OutlookInRange(critical, tick);
      AllDrive();
      changes, at := Decide(critical, tick, outlook);
      ListedIsPending(changes, at, outlook);
      ApplyAll(changes, at);
      AllDrive();
    }

    /** What each knob is judged by: the permits of its own pool, and for the dial rate those of the direct pool. */
    ghost function Demand(knob: Knob): nat
      reads governor.Pools(), barrier.concurrency
    {
      match knob
      case Connections => governor.connections.inFlight
      case Handshakes => governor.handshakes.inFlight
      case Fallbacks => governor.fallbacks.inFlight
      case CryptoOperations => governor.cryptoOperations.inFlight
      case ReplayEntries => governor.replayEntries.inFlight
      case DnsLookups => governor.dnsLookups.inFlight
      case DirectConcurrent => barrier.concurrency.inFlight
      case DirectPerSecond => barrier.concurrency.inFlight
    }

    lemma SignalIsDemand(knob: Knob)
      ensures InFlight(knob) == Demand(knob)
    {
    }

    lemma OutlookByDemand(critical: bool, tick: nat)
      ensures forall i :: 0 <= i < |knobs| ==>
                Outlook(critical, tick)[i].next ==
                Next(knobs[i].View(), Delivered(critical, Demand(knobs[i].knob)), tick)
    {
      forall i | 0 <= i < |knobs|
        ensures InFlight(knobs[i].knob) == Demand(knobs[i].knob)
      {
        SignalIsDemand(knobs[i].knob);
      }
    }

    /** Moves every knob on its own demand, with its value in force afterwards. */
    method Advance(critical: bool, tick: nat) returns (changes: seq<CeilingChange>, ghost at: seq<nat>)
      requires Governed()
      modifies knobs
      modifies governor.connections`ceiling, governor.handshakes`ceiling, governor.fallbacks`ceiling
      modifies governor.cryptoOperations`ceiling, governor.replayEntries`ceiling, governor.dnsLookups`ceiling
      modifies barrier.concurrency`ceiling
      modifies barrier.rate`ratePerSecond, barrier.rate`intervalNanos, barrier.rate`burstNanos
      ensures Governed()
      ensures forall i :: 0 <= i < |knobs| ==>
                knobs[i].View() == Next(old(knobs[i].View()), Delivered(critical, old(Demand(knobs[i].knob))), tick)
      ensures Lists(changes, at, knobs, old(Outlook(critical, tick)), |knobs|)
    {
      OutlookByDemand(critical, tick);
      changes, at := Move(critical, tick, Outlook(critical, tick));
    }

    twostate lemma StillGoverned()
      requires old(Governed()) && unchanged(knobs) && unchanged(governor.Pools())
      requires unchanged(barrier.concurrency) && unchanged(barrier.rate)
      ensures Governed()
    {
    }

    /**
     One tick: sample, decide, apply.  Every knob takes its step on the permits held against its own pool,
     the dial rate on those of the direct pool; the moves are returned in knob order, every pool ceiling and
     the dial rate equal their knob again, and the pre-auth idle pool and the gate's reservation are outside
     the frame.
     */
    method Tick(critical: bool) returns (changes: seq<CeilingChange>, ghost at: seq<nat>)
      requires Valid()
      modifies this`tickIndex, knobs
      modifies governor.connections`ceiling, governor.handshakes`ceiling, governor.fallbacks`ceiling
      modifies governor.cryptoOperations`ceiling, governor.replayEntries`ceiling, governor.dnsLookups`ceiling
      modifies barrier.concurrency`ceiling
      modifies barrier.rate`ratePerSecond, barrier.rate`intervalNanos, barrier.rate`burstNanos
      ensures Valid()
      ensures tickIndex == SatAdd64(old(tickIndex), 1)
      ensures forall i :: 0 <= i < |knobs| ==>
                knobs[i].View() ==
                Next(old(knobs[i].View()), Delivered(critical, old(Demand(knobs[i].knob))), tickIndex)
      ensures Lists(changes, at, knobs, old(Outlook(critical, SatAdd64(tickIndex, 1))), |knobs|)
    {
      var tick := SatAdd64(tickIndex, 1);
      changes, at := Advance(critical, tick);
      label Moved:
      tickIndex := tick;
      StillGoverned@Moved();
    }
  }
}
