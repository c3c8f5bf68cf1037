/**
 The soft-ceiling semaphore as a set of attempts taking atomic steps in any order.

 Every slot runs the life of one acquire attempt: read the ceiling, observe the counter,
 compare-and-exchange in a loop, take a semaphore permit (or roll back), hold it, and drop
 it in two steps.  An action that a slot is not ready for leaves the pool unchanged, so every
 sequence of actions is a run.
 */
module CeilingSemaphore {
  import opened Words

  datatype Attempt =
    | Idle
    | ReadCeiling(limit: nat)
    | Observed(limit: nat, seen: nat)
    | Refused
    | Counted
    | RollingBack
    | Held
    | Releasing

  datatype Pool = Pool(hard: nat, ceiling: nat, inFlight: nat, available: nat, slots: seq<Attempt>)

  datatype Action =
    | LoadCeiling(slot: nat)
    | LoadInFlight(slot: nat)
    | Exchange(slot: nat, spurious: bool)
    | TakePermit(slot: nat)
    | RollBack(slot: nat)
    | DropCount(slot: nat)
    | DropPermit(slot: nat)
    | SetCeiling(value: nat)

  function New(hard: nat, attempts: nat): Pool {
    Pool(hard, hard, 0, hard, seq(attempts, _ => Idle))
  }

  function At(p: Pool, slot: nat): Attempt {
    if slot < |p.slots| then p.slots[slot] else Refused
  }

  function Put(p: Pool, slot: nat, a: Attempt): Pool
    requires slot < |p.slots|
  {
    p.(slots := p.slots[slot := a])
  }

  function Step(p: Pool, a: Action): Pool {
    if a.SetCeiling? then p.(ceiling := Min(a.value, p.hard))
    else if a.slot < |p.slots| then SlotStep(p, a, p.slots[a.slot])
    else p
  }

  function SlotStep(p: Pool, a: Action, at: Attempt): Pool
    requires !a.SetCeiling? && a.slot < |p.slots| && at == p.slots[a.slot]
  {
    match a
    case LoadCeiling(i) =>
      if at.Idle? || at.Refused? then Put(p, i, ReadCeiling(p.ceiling)) else p
    case LoadInFlight(i) =>
      if at.ReadCeiling? then Put(p, i, Observed(at.limit, p.inFlight)) else p
    case Exchange(i, spurious) =>
      if !at.Observed? then p
      else if at.seen >= at.limit then Put(p, i, Refused)
      else if p.inFlight == at.seen && !spurious then Put(p, i, Counted).(inFlight := at.seen + 1)
      else Put(p, i, Observed(at.limit, p.inFlight))
    case TakePermit(i) =>
      if !at.Counted? then p
      else if p.available > 0 then Put(p, i, Held).(available := p.available - 1)
      else Put(p, i, RollingBack)
    case RollBack(i) =>
      if at.RollingBack? then Put(p, i, Refused).(inFlight := WrappingDec64(p.inFlight)) else p
    case DropCount(i) =>
      if at.Held? then Put(p, i, Releasing).(inFlight := WrappingDec64(p.inFlight)) else p
    case DropPermit(i) =>
      if at.Releasing? then Put(p, i, Idle).(available := p.available + 1) else p
  }

  function Run(p: Pool, actions: seq<Action>): Pool
    decreases actions
  {
    if actions == [] then p else Run(Step(p, actions[0]), actions[1..])
  }

  lemma {:induction false} RunConcat(p: Pool, xs: seq<Action>, ys: seq<Action>)
    ensures Run(p, xs + ys) == Run(Run(p, xs), ys)
    decreases xs
  {
    if xs == [] {
      assert xs + ys == ys;
    } else {
      assert (xs + ys)[1..] == xs[1..] + ys;
      RunConcat(Step(p, xs[0]), xs[1..], ys);
    }
  }

  /** How many attempts are in phase `a`. */
  function Many(p: Pool, a: Attempt): nat { multiset(p.slots)[a] }

  /** What every reachable pool satisfies. */
  ghost predicate Consistent(p: Pool) {
    && p.inFlight == Many(p, Counted) + Many(p, Held) + Many(p, RollingBack)
    && p.available + Many(p, Held) + Many(p, Releasing) == p.hard
    && p.inFlight <= p.hard
    && p.ceiling <= p.hard
    && forall i :: 0 <= i < |p.slots| && (p.slots[i].ReadCeiling? || p.slots[i].Observed?) ==>
         p.slots[i].limit <= p.hard
  }

  lemma ManyAt(p: Pool, slot: nat)
    requires slot < |p.slots|
    ensures Many(p, p.slots[slot]) >= 1
  {
    assert p.slots[slot] in multiset(p.slots);
  }

  lemma ManyAfterPut(slots: seq<Attempt>, i: nat, a: Attempt)
    requires i < |slots|
    ensures forall b :: multiset(slots[i := a])[b] ==
                        multiset(slots)[b] - (if b == slots[i] then 1 else 0) + (if b == a then 1 else 0)
  {
    assert slots == slots[..i] + [slots[i]] + slots[i + 1..];
    assert slots[i := a] == slots[..i] + [a] + slots[i + 1..];
  }

  /** What one attempt contributes to the counter, and what it takes from the semaphore. */
  function CounterShare(a: Attempt): nat { if a in {Counted, Held, RollingBack} then 1 else 0 }
  function PermitShare(a: Attempt): nat { if a in {Held, Releasing} then 1 else 0 }

  lemma PutKeepsConsistent(p: Pool, q: Pool, i: nat, a: Attempt)
    requires Consistent(p) && i < |p.slots|
    requires q.hard == p.hard && q.ceiling == p.ceiling && q.slots == p.slots[i := a]
    requires q.inFlight + CounterShare(p.slots[i]) == p.inFlight + CounterShare(a) <= p.hard + CounterShare(p.slots[i])
    requires q.available + PermitShare(a) == p.available + PermitShare(p.slots[i])
    requires a.ReadCeiling? || a.Observed? ==> a.limit <= p.hard
    ensures Consistent(q)
  {
    ManyAfterPut(p.slots, i, a);
  }

  /** A step of a slot moves the counter and the permits by the change in what the slot holds of them. */
  lemma SlotStepMovesShares(p: Pool, a: Action, at: Attempt)
    requires !a.SetCeiling? && a.slot < |p.slots| && at == p.slots[a.slot]
    requires CounterShare(at) <= p.inFlight
    ensures var q := SlotStep(p, a, at);
            && q.hard == p.hard && q.ceiling == p.ceiling && |q.slots| == |p.slots|
            && q.slots == p.slots[a.slot := q.slots[a.slot]]
            && q.inFlight + CounterShare(at) == p.inFlight + CounterShare(q.slots[a.slot])
            && q.available + PermitShare(q.slots[a.slot]) == p.available + PermitShare(at)
  {
  }

  /** A slot is counted only below the ceiling it read, which is within the hard bound. */
  lemma SlotStepBounded(p: Pool, a: Action, at: Attempt)
    requires !a.SetCeiling? && a.slot < |p.slots| && at == p.slots[a.slot]
    requires p.inFlight <= p.hard && p.ceiling <= p.hard
    requires at.ReadCeiling? || at.Observed? ==> at.limit <= p.hard
    ensures var moved := SlotStep(p, a, at).slots[a.slot];
            && p.inFlight + CounterShare(moved) <= p.hard + CounterShare(at)
            && (moved.ReadCeiling? || moved.Observed? ==> moved.limit <= p.hard)
  {
  }

  lemma SlotStepKeepsConsistent(p: Pool, a: Action, at: Attempt)
    requires Consistent(p)
    requires !a.SetCeiling? && a.slot < |p.slots| && at == p.slots[a.slot]
    ensures Consistent(SlotStep(p, a, at))
  {
    var q := SlotStep(p, a, at);
    ManyAt(p, a.slot);
    SlotStepMovesShares(p, a, at);
    SlotStepBounded(p, a, at);
    PutKeepsConsistent(p, q, a.slot, q.slots[a.slot]);
  }

  lemma StepKeepsConsistent(p: Pool, a: Action)
    requires Consistent(p)
    ensures Consistent(Step(p, a))
    ensures Step(p, a).hard == p.hard
    ensures |Step(p, a).slots| == |p.slots|
  {
    if !a.SetCeiling? && a.slot < |p.slots| {
      SlotStepKeepsConsistent(p, a, p.slots[a.slot]);
    }
  }

  lemma NewIsConsistent(hard: nat, attempts: nat)
    ensures Consistent(New(hard, attempts))
  {
    var p := New(hard, attempts);
    forall a | a in multiset(p.slots) ensures a == Idle {
      assert a in p.slots;
    }
  }

  /**
   Accounting in every interleaving: the counter equals the counted, held and rolling-back
   attempts, it stays within the hard bound, and no decrement can wrap.
   */
  lemma {:induction false} RunKeepsConsistent(p: Pool, actions: seq<Action>)
    requires Consistent(p)
    ensures Consistent(Run(p, actions))
    ensures Run(p, actions).hard == p.hard
    ensures |Run(p, actions).slots| == |p.slots|
    decreases actions
  {
    if actions == [] {
    } else {
      StepKeepsConsistent(p, actions[0]);
      RunKeepsConsistent(Step(p, actions[0]), actions[1..]);
    }
  }

  lemma ReachableIsConsistent(hard: nat, attempts: nat, actions: seq<Action>)
    ensures Consistent(Run(New(hard, attempts), actions))
    ensures Run(New(hard, attempts), actions).hard == hard
  {
    NewIsConsistent(hard, attempts);
    RunKeepsConsistent(New(hard, attempts), actions);
  }

  /** Neither decrement of the counter wraps, wherever it happens in a run. */
  lemma DecrementNeverWraps(hard: nat, attempts: nat, actions: seq<Action>, slot: nat)
    requires At(Run(New(hard, attempts), actions), slot) in {Held, RollingBack}
    ensures Run(New(hard, attempts), actions).inFlight >= 1
  {
    var p := Run(New(hard, attempts), actions);
    ReachableIsConsistent(hard, attempts, actions);
    ManyAt(p, slot);
  }

  /**
   The rollback branch, exactly: a counted attempt is refused by the semaphore if and only if
   held and half-dropped permits together use up the hard bound, and that can only be while
   some drop has decremented the counter and not yet returned its permit.
   */
  lemma RollbackExactly(hard: nat, attempts: nat, actions: seq<Action>, slot: nat)
    requires At(Run(New(hard, attempts), actions), slot) == Counted
    ensures var p := Run(New(hard, attempts), actions);
            && (At(Step(p, TakePermit(slot)), slot) == RollingBack <==> Many(p, Held) + Many(p, Releasing) == hard)
            && (At(Step(p, TakePermit(slot)), slot) == RollingBack ==> Many(p, Releasing) >= 1)
            && (At(Step(p, TakePermit(slot)), slot) != RollingBack ==> At(Step(p, TakePermit(slot)), slot) == Held)
  {
    ReachableIsConsistent(hard, attempts, actions);
    ManyAt(Run(New(hard, attempts), actions), slot);
  }

  /** When every attempt is at rest, both counters agree with the permits held. */
  lemma QuiescentCountersAgree(hard: nat, attempts: nat, actions: seq<Action>)
    requires var p := Run(New(hard, attempts), actions);
             forall i :: 0 <= i < |p.slots| ==> p.slots[i] in {Idle, Refused, Held}
    ensures var p := Run(New(hard, attempts), actions);
            p.inFlight == Many(p, Held) && p.available == hard - Many(p, Held)
  {
    var p := Run(New(hard, attempts), actions);
    ReachableIsConsistent(hard, attempts, actions);
    forall a | a in multiset(p.slots) ensures a in {Idle, Refused, Held} {
      assert a in p.slots;
    }
  }

  // ---- One attempt alone ----

  function AcquireActions(slot: nat): seq<Action> {
    [LoadCeiling(slot), LoadInFlight(slot), Exchange(slot, false), TakePermit(slot)]
  }

  /** An attempt that nobody interrupts, from load to outcome; one that was refused may try again. */
  lemma SoloAcquire(p: Pool, slot: nat)
    requires slot < |p.slots| && p.slots[slot] in {Idle, Refused}
    ensures var q := Run(p, AcquireActions(slot));
            if p.inFlight >= p.ceiling then q == Put(p, slot, Refused)
            else if p.available == 0 then q == Put(p, slot, RollingBack).(inFlight := p.inFlight + 1)
            else q == Put(p, slot, Held).(inFlight := p.inFlight + 1, available := p.available - 1)
  {
    var acts := AcquireActions(slot);
    var p1 := Step(p, acts[0]);
    var p2 := Step(p1, acts[1]);
    var p3 := Step(p2, acts[2]);
    var p4 := Step(p3, acts[3]);
    assert Run(p, acts) == Run(p1, acts[1..]);
    assert acts[1..][1..] == acts[2..] && acts[2..][1..] == acts[3..] && acts[3..][1..] == [];
    assert Run(p1, acts[1..]) == Run(p2, acts[2..]) == Run(p3, acts[3..]) == p4;
    assert p2.slots == p.slots[slot := Observed(p.ceiling, p.inFlight)];
    assert p3.slots[slot := p4.slots[slot]] == p.slots[slot := p4.slots[slot]];
  }

  // ---- What is taken comes back ----

  function DropActions(slot: nat): seq<Action> { [DropCount(slot), DropPermit(slot)] }

  lemma RunTwo(p: Pool, a: Action, b: Action)
    ensures Run(p, [a, b]) == Step(Step(p, a), b)
  {
    assert [a, b][1..] == [b] && [b][1..] == [];
    assert Run(Step(p, a), [b]) == Step(Step(p, a), b);
  }

  lemma DropEffect(p: Pool, slot: nat)
    requires At(p, slot) == Held && p.inFlight >= 1
    ensures Run(p, DropActions(slot)) ==
            Pool(p.hard, p.ceiling, p.inFlight - 1, p.available + 1, p.slots[slot := Idle])
  {
    RunTwo(p, DropCount(slot), DropPermit(slot));
    assert p.slots[slot := Releasing][slot := Idle] == p.slots[slot := Idle];
  }

  /** Dropping a permit frees its slot, gives the permit back and takes the holder off the counter. */
  lemma DropReturnsPermit(p: Pool, slot: nat)
    requires Consistent(p) && At(p, slot) == Held
    ensures Run(p, DropActions(slot)) ==
            Pool(p.hard, p.ceiling, p.inFlight - 1, p.available + 1, p.slots[slot := Idle])
  {
    ManyAt(p, slot);
    DropEffect(p, slot);
  }

  /** Rolling back takes the attempt off the counter and touches no permit. */
  lemma RollBackReturnsCount(p: Pool, slot: nat)
    requires Consistent(p) && At(p, slot) == RollingBack
    ensures Step(p, RollBack(slot)) ==
            Pool(p.hard, p.ceiling, p.inFlight - 1, p.available, p.slots[slot := Refused])
  {
    ManyAt(p, slot);
  }

  /** An uninterrupted acquire followed by the drop leaves a pool with room exactly as it was. */
  lemma AcquireThenDrop(p: Pool, slot: nat)
    requires At(p, slot) == Idle && p.inFlight < p.ceiling && p.available > 0
    ensures Run(p, AcquireActions(slot) + DropActions(slot)) == p
  {
    var held := Run(p, AcquireActions(slot));
    SoloAcquire(p, slot);
    RunConcat(p, AcquireActions(slot), DropActions(slot));
    DropEffect(held, slot);
    assert p.slots[slot := Held][slot := Idle] == p.slots;
  }

  /** With any positive bound, what one attempt held and dropped, any attempt can hold next. */
  lemma DroppedPermitIsReused(hard: nat, attempts: nat, first: nat, second: nat)
    requires hard >= 1 && first < attempts && second < attempts
    ensures At(Run(New(hard, attempts), AcquireActions(first) + DropActions(first) + AcquireActions(second)), second)
         == Held
  {
    var start := New(hard, attempts);
    AcquireThenDrop(start, first);
    RunConcat(start, AcquireActions(first) + DropActions(first), AcquireActions(second));
    SoloAcquire(start, second);
  }

  predicate AtRest(a: Attempt) { a in {Idle, Refused} }

  /** Whatever an attempt is doing, these steps of its own bring it to an end. */
  function FinishActions(slot: nat): seq<Action> {
    [LoadInFlight(slot), Exchange(slot, false)] + ([Exchange(slot, false), TakePermit(slot)] +
    ([RollBack(slot), DropCount(slot)] + [DropPermit(slot), DropPermit(slot)]))
  }

  ghost predicate OnlyMoves(p: Pool, q: Pool, slot: nat) {
    |q.slots| == |p.slots| && forall i :: 0 <= i < |p.slots| && i != slot ==> q.slots[i] == p.slots[i]
  }

  /** Two steps of a slot, the first half of a finish: it is decided. */
  lemma FinishDecides(p: Pool, slot: nat)
    requires slot < |p.slots|
    ensures var q := Run(p, [LoadInFlight(slot), Exchange(slot, false)]);
            OnlyMoves(p, q, slot) && (p.slots[slot].ReadCeiling? || p.slots[slot].Observed? ==>
              q.slots[slot] in {Refused, Counted} || q.slots[slot] == Observed(p.slots[slot].limit, q.inFlight))
            && (!p.slots[slot].ReadCeiling? && !p.slots[slot].Observed? ==> q == p)
  {
    RunTwo(p, LoadInFlight(slot), Exchange(slot, false));
  }

  lemma FinishTakes(p: Pool, slot: nat)
    requires slot < |p.slots| && !p.slots[slot].ReadCeiling?
    requires p.slots[slot].Observed? ==> p.slots[slot].seen == p.inFlight
    ensures var q := Run(p, [Exchange(slot, false), TakePermit(slot)]);
            OnlyMoves(p, q, slot) && q.slots[slot] in {Idle, Refused, RollingBack, Held, Releasing}
  {
    RunTwo(p, Exchange(slot, false), TakePermit(slot));
  }

  lemma FinishReleases(p: Pool, slot: nat)
    requires slot < |p.slots| && p.slots[slot] in {Idle, Refused, RollingBack, Held, Releasing}
    ensures var q := Run(p, [RollBack(slot), DropCount(slot)]);
            OnlyMoves(p, q, slot) && q.slots[slot] in {Idle, Refused, Releasing}
  {
    RunTwo(p, RollBack(slot), DropCount(slot));
  }

  /** From any phase, an attempt that runs on comes to rest and leaves the others alone. */
  lemma AttemptFinishes(p: Pool, slot: nat)
    requires slot < |p.slots|
    ensures OnlyMoves(p, Run(p, FinishActions(slot)), slot) && AtRest(Run(p, FinishActions(slot)).slots[slot])
  {
    var a, b := [LoadInFlight(slot), Exchange(slot, false)], [Exchange(slot, false), TakePermit(slot)];
    var c, d := [RollBack(slot), DropCount(slot)], [DropPermit(slot), DropPermit(slot)];
    var p1 := Run(p, a);
    var p2 := Run(p1, b);
    var p3 := Run(p2, c);
    RunConcat(p, a, b + (c + d));
    RunConcat(p1, b, c + d);
    RunConcat(p2, c, d);
    FinishDecides(p, slot);
    FinishTakes(p1, slot);
    FinishReleases(p2, slot);
    RunTwo(p3, DropPermit(slot), DropPermit(slot));
  }

  /** Attempts 0, ..., n - 1 run to their end one after the other. */
  function FinishFirst(n: nat): seq<Action> {
    if n == 0 then [] else FinishFirst(n - 1) + FinishActions(n - 1)
  }

  lemma {:induction false} FirstFinish(p: Pool, n: nat)
    requires n <= |p.slots|
    ensures |Run(p, FinishFirst(n)).slots| == |p.slots|
    ensures forall i :: 0 <= i < n ==> AtRest(Run(p, FinishFirst(n)).slots[i])
  {
    if n == 0 {
    } else {
      FirstFinish(p, n - 1);
      var before, last := FinishFirst(n - 1), FinishActions(n - 1);
      assert Run(p, FinishFirst(n)) == Run(Run(p, before), last) by {
        RunConcat(p, before, last);
      }
      AttemptFinishes(Run(p, before), n - 1);
    }
  }

  /** No permit and no count is ever lost: after any run, letting every attempt finish leaves the counter at
      zero and all permits available. */
  lemma NothingLeaks(hard: nat, attempts: nat, actions: seq<Action>)
    ensures var p := Run(New(hard, attempts), actions + FinishFirst(attempts));
            p.inFlight == 0 && p.available == hard && forall i :: 0 <= i < |p.slots| ==> AtRest(p.slots[i])
  {
    var p := Run(New(hard, attempts), actions);
    NewIsConsistent(hard, attempts);
    RunKeepsConsistent(New(hard, attempts), actions);
    RunConcat(New(hard, attempts), actions, FinishFirst(attempts));
    FirstFinish(p, attempts);
    QuiescentCountersAgree(hard, attempts, actions + FinishFirst(attempts));
    assert Held !in Run(p, FinishFirst(attempts)).slots;
  }

  // ---- The rollback branch is reachable for every positive hard bound ----

  function Filled(hard: nat, attempts: nat, held: nat): Pool
    requires held <= hard
  {
    Pool(hard, hard, held, hard - held, seq(attempts, i => if i < held then Held else Idle))
  }

  lemma {:induction false} FillTo(hard: nat, attempts: nat, held: nat) returns (actions: seq<Action>)
    requires held <= hard && held <= attempts
    ensures Run(New(hard, attempts), actions) == Filled(hard, attempts, held)
  {
    if held == 0 {
      actions := [];
      assert New(hard, attempts).slots == Filled(hard, attempts, 0).slots;
    } else {
      var before := FillTo(hard, attempts, held - 1);
      var slot := held - 1;
      actions := before + AcquireActions(slot);
      RunConcat(New(hard, attempts), before, AcquireActions(slot));
      SoloAcquire(Filled(hard, attempts, held - 1), slot);
      assert Filled(hard, attempts, held - 1).slots[slot := Held] == Filled(hard, attempts, held).slots;
    }
  }

  lemma RollbackReachable(hard: nat) returns (actions: seq<Action>)
    requires hard >= 1
    ensures At(Run(New(hard, hard + 1), actions), hard) == RollingBack
  {
    var fill := FillTo(hard, hard + 1, hard);
    var full := Filled(hard, hard + 1, hard);
    var dropping := Step(full, DropCount(0));
    actions := fill + ([DropCount(0)] + AcquireActions(hard));
    RunConcat(New(hard, hard + 1), fill, [DropCount(0)] + AcquireActions(hard));
    RunConcat(full, [DropCount(0)], AcquireActions(hard));
    assert Run(full, [DropCount(0)]) == dropping by {
      assert [DropCount(0)][1..] == [];
    }
    SoloAcquire(dropping, hard);
  }

  // ---- Lowering the ceiling ----

  function StaleWeight(a: Attempt, c: nat): nat {
    if (a.ReadCeiling? || a.Observed?) && a.limit > c then 1 else 0
  }

  /** Attempts that read a ceiling above `c` and have not yet been decided. */
  function Stale(slots: seq<Attempt>, c: nat): nat {
    if slots == [] then 0 else StaleWeight(slots[0], c) + Stale(slots[1..], c)
  }

  lemma {:induction false} StaleUpdate(slots: seq<Attempt>, i: nat, a: Attempt, c: nat)
    requires i < |slots|
    ensures Stale(slots[i := a], c) + StaleWeight(slots[i], c) == Stale(slots, c) + StaleWeight(a, c)
  {
    if i == 0 {
      assert slots[0 := a][1..] == slots[1..];
    } else {
      assert slots[i := a][1..] == slots[1..][i - 1 := a];
      StaleUpdate(slots[1..], i - 1, a, c);
    }
  }

  /** The action admits an attempt although the counter is already at or above `c`. */
  predicate AdmitsAtOrAbove(p: Pool, a: Action, c: nat) {
    a.Exchange? && At(p, a.slot).Observed? && At(Step(p, a), a.slot) == Counted && p.inFlight >= c
  }

  function LateAdmissions(p: Pool, c: nat, actions: seq<Action>): nat
    decreases actions
  {
    if actions == [] then 0
    else (if AdmitsAtOrAbove(p, actions[0], c) then 1 else 0) + LateAdmissions(Step(p, actions[0]), c, actions[1..])
  }

  ghost predicate NeverRaisedAbove(actions: seq<Action>, c: nat) {
    forall i :: 0 <= i < |actions| && actions[i].SetCeiling? ==> actions[i].value <= c
  }

  lemma StepSpendsStale(p: Pool, a: Action, c: nat)
    requires p.ceiling <= c
    requires a.SetCeiling? ==> a.value <= c
    ensures Step(p, a).ceiling <= c
    ensures (if AdmitsAtOrAbove(p, a, c) then 1 else 0) + Stale(Step(p, a).slots, c) <= Stale(p.slots, c)
  {
    if !a.SetCeiling? && a.slot < |p.slots| {
      StaleUpdate(p.slots, a.slot, Step(p, a).slots[a.slot], c);
      assert Step(p, a).slots == p.slots[a.slot := Step(p, a).slots[a.slot]];
    }
  }

  /**
   After the ceiling is lowered to `c`, admissions made at or above `c` are paid for one by
   one by attempts that had read an older, higher ceiling.
   */
  lemma {:induction false} LoweredCeilingHolds(p: Pool, c: nat, actions: seq<Action>)
    requires p.ceiling <= c
    requires NeverRaisedAbove(actions, c)
    ensures LateAdmissions(p, c, actions) + Stale(Run(p, actions).slots, c) <= Stale(p.slots, c)
    decreases actions
  {
    if actions == [] {
    } else {
      StepSpendsStale(p, actions[0], c);
      LoweredCeilingHolds(Step(p, actions[0]), c, actions[1..]);
    }
  }

  // ---- The bound on late admissions is met ----

  lemma {:induction false} LateConcat(p: Pool, c: nat, xs: seq<Action>, ys: seq<Action>)
    ensures LateAdmissions(p, c, xs + ys) == LateAdmissions(p, c, xs) + LateAdmissions(Run(p, xs), c, ys)
    decreases xs
  {
    if xs == [] {
      assert xs + ys == ys;
    } else {
      assert (xs + ys)[1..] == xs[1..] + ys;
      LateConcat(Step(p, xs[0]), c, xs[1..], ys);
    }
  }

  /** n attempts have read the ceiling n. */
  function Poised(n: nat, k: nat): Pool {
    Pool(n, n, 0, n, seq(n, i => if i < k then ReadCeiling(n) else Idle))
  }

  /** The ceiling is now 0, and k of the n attempts have been counted all the same. */
  function Lowered(n: nat, k: nat): Pool {
    Pool(n, 0, k, n, seq(n, i => if i < k then Counted else ReadCeiling(n)))
  }

  lemma {:induction false} PoiseTo(n: nat, k: nat) returns (actions: seq<Action>)
    requires k <= n
    ensures Run(New(n, n), actions) == Poised(n, k)
  {
    if k == 0 {
      actions := [];
      assert New(n, n).slots == Poised(n, 0).slots;
    } else {
      var before := PoiseTo(n, k - 1);
      actions := before + [LoadCeiling(k - 1)];
      RunConcat(New(n, n), before, [LoadCeiling(k - 1)]);
      assert [LoadCeiling(k - 1)][1..] == [];
      assert Poised(n, k - 1).slots[k - 1 := ReadCeiling(n)] == Poised(n, k).slots;
    }
  }

  lemma LateOne(n: nat, k: nat)
    requires k < n
    ensures var actions := [LoadInFlight(k), Exchange(k, false)];
            && Run(Lowered(n, k), actions) == Lowered(n, k + 1)
            && LateAdmissions(Lowered(n, k), 0, actions) == 1
  {
    var actions := [LoadInFlight(k), Exchange(k, false)];
    var p := Lowered(n, k);
    var q := Step(p, actions[0]);
    assert actions[1..] == [actions[1]] && [actions[1]][1..] == [];
    assert q.slots[k] == Observed(n, k) && q.inFlight == k;
    assert Step(q, actions[1]).slots == Lowered(n, k + 1).slots;
    assert Run(q, [actions[1]]) == Step(q, actions[1]);
    assert LateAdmissions(q, 0, [actions[1]]) == 1;
  }

  lemma {:induction false} LateMany(n: nat, k: nat) returns (actions: seq<Action>)
    requires k <= n
    ensures Run(Lowered(n, 0), actions) == Lowered(n, k) && LateAdmissions(Lowered(n, 0), 0, actions) == k
    ensures forall i :: 0 <= i < |actions| ==> !actions[i].SetCeiling?
  {
    if k == 0 {
      actions := [];
    } else {
      var before := LateMany(n, k - 1);
      var last := [LoadInFlight(k - 1), Exchange(k - 1, false)];
      actions := before + last;
      RunConcat(Lowered(n, 0), before, last);
      LateConcat(Lowered(n, 0), 0, before, last);
      LateOne(n, k - 1);
    }
  }

  /** The bound is met: for every n, some run admits n attempts after the ceiling was lowered to 0. */
  lemma LateAdmissionsReach(n: nat) returns (before: seq<Action>, after: seq<Action>)
    ensures Run(New(n, n), before).ceiling == 0
    ensures NeverRaisedAbove(after, 0)
    ensures LateAdmissions(Run(New(n, n), before), 0, after) == n
  {
    var poise := PoiseTo(n, n);
    before := poise + [SetCeiling(0)];
    RunConcat(New(n, n), poise, [SetCeiling(0)]);
    assert [SetCeiling(0)][1..] == [];
    assert Poised(n, n).slots == Lowered(n, 0).slots;
    after := LateMany(n, n);
  }

  /** A held permit is never revoked: only its own drop ends it. */
  lemma {:induction false} HeldUntilDropped(p: Pool, slot: nat, actions: seq<Action>)
    requires At(p, slot) == Held
    requires DropCount(slot) !in actions
    ensures At(Run(p, actions), slot) == Held
    decreases actions
  {
    if actions == [] {
    } else {
      assert actions[0] != DropCount(slot);
      HeldUntilDropped(Step(p, actions[0]), slot, actions[1..]);
    }
  }

  // ---- Racing attempts at a fixed ceiling ----

  predicate RacingSlot(a: Attempt, c: nat, inFlight: nat) {
    match a
    case ReadCeiling(limit) => limit == c
    case Observed(limit, seen) => limit == c && seen <= inFlight
    case Refused => inFlight == c
    case Releasing => false
    case RollingBack => false
    case _ => true
  }

  ghost predicate Racing(p: Pool, c: nat) {
    && Consistent(p)
    && p.ceiling == c
    && p.inFlight <= c
    && forall i :: 0 <= i < |p.slots| ==> RacingSlot(p.slots[i], c, p.inFlight)
  }

  predicate OnlyAcquires(a: Action) {
    a.LoadCeiling? || a.LoadInFlight? || a.Exchange? || a.TakePermit? || a.RollBack?
  }

  lemma PermitLeftForCounted(p: Pool, c: nat, slot: nat)
    requires Racing(p, c) && slot < |p.slots| && p.slots[slot] == Counted
    ensures p.available > 0
  {
    ManyAt(p, slot);
    assert Releasing !in p.slots;
  }

  lemma StepKeepsRacing(p: Pool, c: nat, a: Action)
    requires Racing(p, c) && OnlyAcquires(a)
    ensures Racing(Step(p, a), c) && |Step(p, a).slots| == |p.slots|
  {
    StepKeepsConsistent(p, a);
    if a.slot < |p.slots| {
      var q := SlotStep(p, a, p.slots[a.slot]);
      if a.TakePermit? && p.slots[a.slot] == Counted {
        PermitLeftForCounted(p, c, a.slot);
      }
      assert p.inFlight <= q.inFlight <= c;
      forall i | 0 <= i < |q.slots| ensures RacingSlot(q.slots[i], c, q.inFlight) {
        assert RacingSlot(p.slots[i], c, p.inFlight);
        if i != a.slot {
          assert q.slots[i] == p.slots[i];
        }
      }
    }
  }

  ghost predicate AllAcquires(actions: seq<Action>) {
    forall i :: 0 <= i < |actions| ==> OnlyAcquires(actions[i])
  }

  lemma AcquiresTail(actions: seq<Action>)
    requires actions != [] && AllAcquires(actions)
    ensures AllAcquires(actions[1..]) && OnlyAcquires(actions[0])
  {
  }

  lemma {:induction false} RunKeepsRacing(p: Pool, c: nat, actions: seq<Action>)
    requires Racing(p, c) && AllAcquires(actions)
    ensures Racing(Run(p, actions), c)
    ensures |Run(p, actions).slots| == |p.slots|
    decreases actions
  {
    if actions == [] {
    } else {
      AcquiresTail(actions);
      StepKeepsRacing(p, c, actions[0]);
      RunKeepsRacing(Step(p, actions[0]), c, actions[1..]);
    }
  }

  lemma {:induction false} HeldAndRefused(slots: seq<Attempt>)
    requires forall i :: 0 <= i < |slots| ==> slots[i] in {Held, Refused}
    ensures multiset(slots)[Held] + multiset(slots)[Refused] == |slots|
  {
    if slots == [] {
    } else {
      HeldAndRefused(slots[1..]);
      assert slots == [slots[0]] + slots[1..];
    }
  }

  /**
   However `attempts` acquirers race against a ceiling set to `c`, once all are decided exactly
   min(c, hard, attempts) hold a permit and the rest were refused.
   */
  lemma RacersSplitExactly(hard: nat, c: nat, attempts: nat, actions: seq<Action>)
    requires AllAcquires(actions)
    requires var p := Run(Step(New(hard, attempts), SetCeiling(c)), actions);
             forall i :: 0 <= i < |p.slots| ==> p.slots[i] in {Held, Refused}
    ensures var p := Run(Step(New(hard, attempts), SetCeiling(c)), actions);
            Many(p, Held) == p.inFlight == Min(Min(c, hard), attempts)
  {
    var start := Step(New(hard, attempts), SetCeiling(c));
    NewIsConsistent(hard, attempts);
    StepKeepsConsistent(New(hard, attempts), SetCeiling(c));
    RunKeepsRacing(start, Min(c, hard), actions);
    var p := Run(start, actions);
    HeldAndRefused(p.slots);
    assert Counted !in p.slots && RollingBack !in p.slots;
    if Refused in p.slots {
      assert multiset(p.slots)[Refused] >= 1;
    }
  }
}
