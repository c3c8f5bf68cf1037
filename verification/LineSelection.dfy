/**
 LINE selection (src/client/selection.rs): a group remembers which LINE last authenticated and how
 many faults each has collected; a new session tries the first healthy LINE from there and one
 alternate.  How the race between the two ends is an input.
 */
module LineSelection {
  import opened Words
  import opened Wrappers

  const TRIP_AFTER: nat := 2
  const MAX_LINES_PER_GROUP: nat := 8

  datatype ConfigError = GroupEmpty | GroupTooLarge

  datatype Group = Group(sticky: nat, faults: seq<nat>) {
    predicate Valid() {
      && sticky < |faults|
      && forall i :: 0 <= i < |faults| ==> faults[i] <= TRIP_AFTER
    }
  }

  /** How a session ended: who authenticated, or that nobody did. */
  datatype Outcome = PrimaryWon | AlternateWon | Deadline | AttemptsFailed(alternateTried: bool)

  function Around(start: nat, offset: nat, n: nat): (i: nat)
    requires start < n && offset <= n
    ensures i == (if start + offset < n then start + offset else start + offset - n)
    ensures i < n
  {
    DivModUnique(start + offset, n, if start + offset < n then 0 else 1,
                 if start + offset < n then start + offset else start + offset - n);
    (start + offset) % n
  }

  predicate Healthy(faults: seq<nat>, i: nat)
    requires i < |faults|
  {
    faults[i] < TRIP_AFTER
  }

  /** The first healthy LINE at `offset` or more steps from `start`, or `fallback`. */
  function Scan(faults: seq<nat>, start: nat, offset: nat, fallback: nat): (i: nat)
    requires start < |faults| && fallback < |faults|
    ensures i < |faults|
    decreases |faults| - offset
  {
    if offset >= |faults| then fallback
    else if Healthy(faults, Around(start, offset, |faults|)) then Around(start, offset, |faults|)
    else Scan(faults, start, offset + 1, fallback)
  }

  function Primary(g: Group): (i: nat)
    requires g.Valid()
    ensures i < |g.faults|
  {
    Scan(g.faults, g.sticky, 0, g.sticky)
  }

  function Alternate(g: Group): (i: nat)
    requires g.Valid()
    ensures i < |g.faults|
  {
    Scan(g.faults, Primary(g), 1, Around(Primary(g), 1, |g.faults|))
  }

  function Faulted(g: Group, i: nat): (r: Group)
    requires g.Valid() && i < |g.faults|
    ensures r.Valid()
  {
    g.(faults := g.faults[i := Min(g.faults[i] + 1, TRIP_AFTER)])
  }

  function Succeeded(g: Group, i: nat): (r: Group)
    requires g.Valid() && i < |g.faults|
    ensures r.Valid()
  {
    Group(i, g.faults[i := 0])
  }

  /** What one session does to the group. */
  function After(g: Group, outcome: Outcome): (r: Group)
    requires g.Valid()
    ensures r.Valid()
  {
    Ended(g, outcome, Primary(g), Alternate(g))
  }

  /** What a session with primary p and alternate a does. */
  function Ended(g: Group, outcome: Outcome, p: nat, a: nat): (r: Group)
    requires g.Valid() && p < |g.faults| && a < |g.faults|
    ensures r.Valid()
  {
    var many := |g.faults| > 1;
    match outcome
    case PrimaryWon => Succeeded(g, p)
    case AlternateWon => if many then Succeeded(Faulted(g, p), a) else Faulted(g, p)
    case Deadline => if many then Faulted(Faulted(g, p), a) else Faulted(g, p)
    case AttemptsFailed(tried) => if many && tried then Faulted(Faulted(g, p), a) else Faulted(g, p)
  }

  // ---- What a scan finds ----

  function StepsTo(start: nat, i: nat, n: nat): (offset: nat)
    requires start < n && i < n
    ensures offset < n && Around(start, offset, n) == i
  {
    if i >= start then i - start else i + n - start
  }

  /** A scan finds a healthy LINE if there is one in its range. */
  lemma {:induction false} ScanFinds(faults: seq<nat>, start: nat, offset: nat, fallback: nat, i: nat)
    requires start < |faults| && fallback < |faults| && i < |faults|
    requires Healthy(faults, i) && offset <= StepsTo(start, i, |faults|)
    ensures Healthy(faults, Scan(faults, start, offset, fallback))
    decreases |faults| - offset
  {
    if Healthy(faults, Around(start, offset, |faults|)) {
    } else {
      ScanFinds(faults, start, offset + 1, fallback, i);
    }
  }

  /** What a scan from the second position on finds is not where it started. */
  lemma {:induction false} ScanMovesOn(faults: seq<nat>, start: nat, offset: nat, fallback: nat)
    requires start < |faults| && fallback < |faults| && 1 <= offset && fallback != start
    ensures Scan(faults, start, offset, fallback) != start
    decreases |faults| - offset
  {
    if offset >= |faults| || Healthy(faults, Around(start, offset, |faults|)) {
    } else {
      ScanMovesOn(faults, start, offset + 1, fallback);
    }
  }

  lemma {:induction false} ScanFallsBack(faults: seq<nat>, start: nat, offset: nat, fallback: nat)
    requires start < |faults| && fallback < |faults|
    requires forall i :: 0 <= i < |faults| ==> !Healthy(faults, i)
    ensures Scan(faults, start, offset, fallback) == fallback
    decreases |faults| - offset
  {
    if offset >= |faults| {
    } else {
      ScanFallsBack(faults, start, offset + 1, fallback);
    }
  }

  /** A scan stops at the nearest healthy LINE in its range. */
  lemma {:induction false} ScanIsNearest(faults: seq<nat>, start: nat, offset: nat, fallback: nat, i: nat)
    requires start < |faults| && fallback < |faults| && i < |faults|
    requires Healthy(faults, i) && offset <= StepsTo(start, i, |faults|)
    ensures offset <= StepsTo(start, Scan(faults, start, offset, fallback), |faults|) <= StepsTo(start, i, |faults|)
    decreases |faults| - offset
  {
    if Healthy(faults, Around(start, offset, |faults|)) {
    } else {
      ScanIsNearest(faults, start, offset + 1, fallback, i);
    }
  }

  /** The primary is the nearest healthy LINE from the sticky one on, the alternate the nearest after the primary. */
  lemma PicksAreNearest(g: Group, i: nat)
    requires g.Valid() && i < |g.faults| && Healthy(g.faults, i)
    ensures StepsTo(g.sticky, Primary(g), |g.faults|) <= StepsTo(g.sticky, i, |g.faults|)
    ensures i != Primary(g) ==>
              1 <= StepsTo(Primary(g), Alternate(g), |g.faults|) <= StepsTo(Primary(g), i, |g.faults|)
  {
    ScanIsNearest(g.faults, g.sticky, 0, g.sticky, i);
    if i != Primary(g) {
      ScanIsNearest(g.faults, Primary(g), 1, Around(Primary(g), 1, |g.faults|), i);
    }
  }

  /** In a group of two or more, the alternate is never the primary. */
  lemma AlternateDiffers(g: Group)
    requires g.Valid() && |g.faults| > 1
    ensures Alternate(g) != Primary(g)
  {
    ScanMovesOn(g.faults, Primary(g), 1, Around(Primary(g), 1, |g.faults|));
  }

  /** The primary is healthy if any LINE is, and a healthy sticky LINE is the primary. */
  lemma PrimaryHealthy(g: Group, i: nat)
    requires g.Valid() && i < |g.faults| && Healthy(g.faults, i)
    ensures Healthy(g.faults, Primary(g))
    ensures i == g.sticky ==> Primary(g) == i
  {
    ScanFinds(g.faults, g.sticky, 0, g.sticky, i);
  }

  /** The alternate is healthy if any LINE other than the primary is. */
  lemma AlternateHealthy(g: Group, i: nat)
    requires g.Valid() && i < |g.faults| && Healthy(g.faults, i) && i != Primary(g)
    ensures Healthy(g.faults, Alternate(g))
  {
    ScanFinds(g.faults, Primary(g), 1, Around(Primary(g), 1, |g.faults|), i);
  }

  // ---- What a session does to each LINE ----

  /** The LINE a session ends with, if any. */
  function Winner(g: Group, outcome: Outcome): Option<nat>
    requires g.Valid()
  {
    match outcome
    case PrimaryWon => Some(Primary(g))
    case AlternateWon => if |g.faults| > 1 then Some(Alternate(g)) else None
    case _ => None
  }

  /** The LINE was tried and did not win: the primary, or an alternate that took part in a lost race. */
  predicate Lost(g: Group, outcome: Outcome, i: nat)
    requires g.Valid()
  {
    && Winner(g, outcome) != Some(i)
    && (i == Primary(g)
        || (|g.faults| > 1 && i == Alternate(g) && (outcome == Deadline || outcome == AttemptsFailed(true))))
  }

  /** Every outcome and every LINE: the winner has no fault, a loser one more up to two, any other as many as
      before; only a winner becomes sticky. */
  lemma AfterExactly(g: Group, outcome: Outcome, i: nat)
    requires g.Valid() && i < |g.faults|
    ensures var next := After(g, outcome);
            && |next.faults| == |g.faults|
            && next.sticky == (if Winner(g, outcome).Some? then Winner(g, outcome).value else g.sticky)
            && next.faults[i] == if Winner(g, outcome) == Some(i) then 0
                                 else if Lost(g, outcome, i) then Min(g.faults[i] + 1, 2)
                                 else g.faults[i]
  {
    if |g.faults| > 1 {
      AlternateDiffers(g);
    }
    EndedExactly(g, outcome, Primary(g), Alternate(g), i);
  }

  lemma EndedExactly(g: Group, outcome: Outcome, p: nat, a: nat, i: nat)
    requires g.Valid() && i < |g.faults| && p < |g.faults| && a < |g.faults| && (|g.faults| > 1 ==> p != a)
    ensures var next, many := Ended(g, outcome, p, a), |g.faults| > 1;
            && |next.faults| == |g.faults|
            && next.sticky ==
               (if outcome == PrimaryWon then p else if outcome == AlternateWon && many then a else g.sticky)
            && next.faults[i] ==
               if (outcome == PrimaryWon && i == p) || (outcome == AlternateWon && many && i == a) then 0
               else if i == p || (many && i == a && (outcome == Deadline || outcome == AttemptsFailed(true)))
               then Min(g.faults[i] + 1, 2)
               else g.faults[i]
  {
  }

  // ---- One good LINE ----

  predicate Tried(g: Group, good: nat)
    requires g.Valid()
  {
    good == Primary(g) || (|g.faults| > 1 && good == Alternate(g))
  }

  /** The ends a session can have when `good` authenticates whenever tried and every other LINE fails. */
  predicate Plausible(g: Group, good: nat, outcome: Outcome)
    requires g.Valid()
  {
    if good == Primary(g) then outcome == PrimaryWon
    else if Tried(g, good) then outcome == AlternateWon
    else outcome == Deadline || outcome == AttemptsFailed(|g.faults| > 1)
  }

  predicate Settled(g: Group, good: nat) {
    good < |g.faults| && g.sticky == good && g.faults[good] == 0
  }

  /** The faults the other LINEs among the first k can still collect. */
  function Capacity(faults: seq<nat>, good: nat, k: nat): nat
    requires k <= |faults|
  {
    if k == 0 then 0
    else Capacity(faults, good, k - 1) + if k - 1 == good then 0 else SatSub(TRIP_AFTER, faults[k - 1])
  }

  function Left(g: Group, good: nat): nat { Capacity(g.faults, good, |g.faults|) }

  lemma {:induction false} CapacityBounded(faults: seq<nat>, good: nat, k: nat)
    requires k <= |faults|
    ensures Capacity(faults, good, k) + (if good < k then TRIP_AFTER else 0) <= TRIP_AFTER * k
  {
    if k == 0 {
    } else {
      CapacityBounded(faults, good, k - 1);
    }
  }

  lemma {:induction false} CapacityOfUpdate(faults: seq<nat>, good: nat, k: nat, i: nat, v: nat)
    requires k <= |faults| && i < |faults| && i != good && faults[i] <= v <= TRIP_AFTER
    ensures Capacity(faults[i := v], good, k) == Capacity(faults, good, k) - if i < k then v - faults[i] else 0
  {
    if k == 0 {
    } else {
      CapacityOfUpdate(faults, good, k - 1, i, v);
    }
  }

  lemma FaultUses(g: Group, good: nat, i: nat)
    requires g.Valid() && i < |g.faults| && i != good
    ensures Left(Faulted(g, i), good) == Left(g, good) - if Healthy(g.faults, i) then 1 else 0
  {
    CapacityOfUpdate(g.faults, good, |g.faults|, i, Min(g.faults[i] + 1, TRIP_AFTER));
  }

  /** A session that tries the good LINE settles on it. */
  lemma TriedSettles(g: Group, good: nat, outcome: Outcome)
    requires g.Valid() && good < |g.faults| && Plausible(g, good, outcome) && Tried(g, good)
    ensures Settled(After(g, outcome), good)
  {
  }

  /** A session that does not try it leaves it and the sticky LINE alone, and uses up a fault for each
      healthy LINE tried. */
  lemma MissUses(g: Group, good: nat, outcome: Outcome)
    requires g.Valid() && good < |g.faults| && Plausible(g, good, outcome) && !Tried(g, good)
    ensures var next := After(g, outcome);
            && next.sticky == g.sticky && |next.faults| == |g.faults| && next.faults[good] == g.faults[good]
            && Left(next, good) == Left(g, good) - (if Healthy(g.faults, Primary(g)) then 1 else 0)
                                                 - (if Healthy(g.faults, Alternate(g)) then 1 else 0)
  {
    var p, a := Primary(g), Alternate(g);
    OneLineTried(g, good);
    AlternateDiffers(g);
    FaultUses(g, good, p);
    FaultUses(Faulted(g, p), good, a);
  }

  lemma OneLineTried(g: Group, good: nat)
    requires g.Valid() && good < |g.faults| && !Tried(g, good)
    ensures |g.faults| > 1
  {
  }

  // ---- Runs ----

  /** Sessions one after the other, each ending as the one good LINE allows. */
  ghost predicate Trace(groups: seq<Group>, outcomes: seq<Outcome>, good: nat) {
    && |groups| == |outcomes| + 1
    && (forall i :: 0 <= i < |groups| ==> groups[i].Valid())
    && good < |groups[0].faults|
    && forall i :: 0 <= i < |outcomes| ==> Follows(groups, outcomes, good, i)
  }

  ghost predicate Follows(groups: seq<Group>, outcomes: seq<Outcome>, good: nat, i: nat)
    requires i < |outcomes| < |groups| && groups[i].Valid()
  {
    Plausible(groups[i], good, outcomes[i]) && groups[i + 1] == After(groups[i], outcomes[i])
  }

  lemma {:induction false} SizeStays(groups: seq<Group>, outcomes: seq<Outcome>, good: nat, k: nat)
    requires Trace(groups, outcomes, good) && k <= |outcomes|
    ensures |groups[k].faults| == |groups[0].faults|
  {
    if k == 0 {
    } else {
      SizeStays(groups, outcomes, good, k - 1);
      assert Follows(groups, outcomes, good, k - 1);
    }
  }

  ghost predicate SettledBy(groups: seq<Group>, good: nat, k: nat)
    requires k < |groups|
  {
    exists j :: 1 <= j <= k && Settled(groups[j], good)
  }

  /** Sessions before the good LINE is tried use up two faults of the others each. */
  lemma {:induction false} MissesUseTwo(groups: seq<Group>, outcomes: seq<Outcome>, good: nat, k: nat)
    requires Trace(groups, outcomes, good) && k <= |outcomes| && Healthy(groups[0].faults, good)
    ensures |groups[k].faults| == |groups[0].faults|
    ensures SettledBy(groups, good, k) ||
            (groups[k].faults[good] == groups[0].faults[good] && Left(groups[k], good) + 2 * k == Left(groups[0], good))
  {
    SizeStays(groups, outcomes, good, k);
    if k == 0 {
    } else {
      MissesUseTwo(groups, outcomes, good, k - 1);
      assert Follows(groups, outcomes, good, k - 1);
      if !SettledBy(groups, good, k - 1) {
        HealthyMiss(groups[k - 1], good, outcomes[k - 1]);
        assert Settled(groups[k], good) ==> SettledBy(groups, good, k);
      }
    }
  }

  lemma HealthyMiss(g: Group, good: nat, outcome: Outcome)
    requires g.Valid() && good < |g.faults| && Healthy(g.faults, good) && Plausible(g, good, outcome)
    ensures var next := After(g, outcome);
            Settled(next, good) || (|next.faults| == |g.faults| && next.faults[good] == g.faults[good] &&
                                    Left(next, good) == Left(g, good) - 2)
  {
    if Tried(g, good) {
      TriedSettles(g, good, outcome);
    } else {
      MissUses(g, good, outcome);
      PrimaryHealthy(g, good);
      AlternateHealthy(g, good);
    }
  }

  /** With a good LINE that is not tripped, at most n sessions pass before it is the sticky one. */
  lemma Converges(groups: seq<Group>, outcomes: seq<Outcome>, good: nat)
    requires Trace(groups, outcomes, good) && Healthy(groups[0].faults, good)
    requires |outcomes| >= |groups[0].faults|
    ensures SettledBy(groups, good, |groups[0].faults|)
  {
    var n := |groups[0].faults|;
    MissesUseTwo(groups, outcomes, good, n);
    CapacityBounded(groups[0].faults, good, n);
  }

  /** Once settled, the good LINE is the primary of every later session and wins it. */
  lemma {:induction false} StaysSettled(groups: seq<Group>, outcomes: seq<Outcome>, good: nat, j: nat, k: nat)
    requires Trace(groups, outcomes, good) && j <= k <= |outcomes| && Settled(groups[j], good)
    ensures Settled(groups[k], good) && Primary(groups[k]) == good
    ensures k < |outcomes| ==> outcomes[k] == PrimaryWon
    decreases k
  {
    if j == k {
    } else {
      StaysSettled(groups, outcomes, good, j, k - 1);
      assert Follows(groups, outcomes, good, k - 1);
    }
    PrimaryHealthy(groups[k], good);
    assert k < |outcomes| ==> Follows(groups, outcomes, good, k);
  }

  // ---- A tripped good LINE ----

  predicate AllTripped(g: Group) {
    forall i :: 0 <= i < |g.faults| ==> g.faults[i] == TRIP_AFTER
  }

  /** A fully tripped group only ever tries the sticky LINE and its successor. */
  lemma TrippedTries(g: Group, good: nat)
    requires g.Valid() && AllTripped(g) && good < |g.faults|
    ensures Tried(g, good) <==> InReach(g, good)
  {
    ScanFallsBack(g.faults, g.sticky, 0, g.sticky);
    ScanFallsBack(g.faults, Primary(g), 1, Around(Primary(g), 1, |g.faults|));
  }

  predicate InReach(g: Group, good: nat)
    requires g.Valid()
  {
    good == g.sticky || good == Around(g.sticky, 1, |g.faults|)
  }

  /** From a fully tripped group the good LINE is ever reached exactly when it is the sticky LINE or its
      successor; otherwise nothing ever changes. */
  lemma {:induction false} TrippedConvergesExactly(groups: seq<Group>, outcomes: seq<Outcome>, good: nat, k: nat)
    requires Trace(groups, outcomes, good) && AllTripped(groups[0]) && 1 <= k <= |outcomes|
    ensures SettledBy(groups, good, k) <==> InReach(groups[0], good)
    ensures !InReach(groups[0], good) ==> groups[k] == groups[0]
  {
    TrippedTries(groups[0], good);
    assert Follows(groups, outcomes, good, 0);
    if InReach(groups[0], good) {
      TriedSettles(groups[0], good, outcomes[0]);
      assert Settled(groups[1], good);
    } else {
      Stuck(groups, outcomes, good, k);
      forall j | 1 <= j <= k
        ensures !Settled(groups[j], good)
      {
        Stuck(groups, outcomes, good, j);
      }
    }
  }

  lemma {:induction false} Stuck(groups: seq<Group>, outcomes: seq<Outcome>, good: nat, k: nat)
    requires Trace(groups, outcomes, good) && AllTripped(groups[0]) && !InReach(groups[0], good) && k <= |outcomes|
    ensures groups[k] == groups[0]
  {
    if k == 0 {
    } else {
      Stuck(groups, outcomes, good, k - 1);
      assert Follows(groups, outcomes, good, k - 1);
      TrippedTries(groups[0], good);
      assert forall i :: 0 <= i < |groups[0].faults| ==> Faulted(groups[0], i) == groups[0];
    }
  }

  // ---- Exactly when a tripped good LINE is reached ----

  /** What a walk over the LINEs still carries: a LINE and the faults it has left. */
  datatype Carry = Nothing | Carrying(line: nat, left: nat)

  /** LINEs met on the walk pair off their remaining faults; whichever has some left is carried on. */
  function Meet(c: Carry, line: nat, left: nat): Carry {
    if left == 0 then c
    else if c.Nothing? then Carrying(line, left)
    else if left < c.left then Carrying(c.line, c.left - left)
    else if left == c.left then Nothing
    else Carrying(line, left - c.left)
  }

  function Remaining(faults: seq<nat>, i: nat): nat
    requires i < |faults|
  {
    SatSub(TRIP_AFTER, faults[i])
  }

  function Walk(faults: seq<nat>, start: nat, offset: nat, c: Carry): Carry
    requires start < |faults|
    decreases |faults| - offset
  {
    if offset >= |faults| then c
    else
      var i := Around(start, offset, |faults|);
      Walk(faults, start, offset + 1, Meet(c, i, Remaining(faults, i)))
  }

  /** The LINE left over when the walk from the sticky LINE has gone round once. */
  function Leftover(g: Group): Carry
    requires g.Valid()
  {
    Walk(g.faults, g.sticky, 0, Nothing)
  }

  /** The good LINE comes right after the one left over. */
  predicate AfterLeftover(g: Group, good: nat)
    requires g.Valid()
  {
    var c := Leftover(g);
    c.Carrying? && c.line < |g.faults| && good == Around(c.line, 1, |g.faults|)
  }

  /** No LINE is healthy at steps from, ..., to - 1 of the walk. */
  ghost predicate Barren(faults: seq<nat>, start: nat, from: nat, to: nat)
    requires start < |faults| && to <= |faults|
  {
    forall o :: from <= o < to ==> !Healthy(faults, Around(start, o, |faults|))
  }

  lemma {:induction false} WalkSkips(faults: seq<nat>, start: nat, offset: nat, end: nat, c: Carry)
    requires start < |faults| && offset <= end <= |faults| && Barren(faults, start, offset, end)
    ensures Walk(faults, start, offset, c) == Walk(faults, start, end, c)
    decreases end - offset
  {
    if offset == end {
    } else {
      WalkSkips(faults, start, offset + 1, end, c);
    }
  }

  lemma {:induction false} WalkAgrees(faults: seq<nat>, other: seq<nat>, start: nat, offset: nat, c: Carry)
    requires start < |faults| == |other|
    requires forall o :: offset <= o < |faults| ==>
               faults[Around(start, o, |faults|)] == other[Around(start, o, |faults|)]
    ensures Walk(faults, start, offset, c) == Walk(other, start, offset, c)
    decreases |faults| - offset
  {
    if offset >= |faults| {
    } else {
      var i := Around(start, offset, |faults|);
      WalkAgrees(faults, other, start, offset + 1, Meet(c, i, Remaining(faults, i)));
    }
  }

  /** A walk whose first two stops are `first` and `second`. */
  lemma WalkMeetsTwo(faults: seq<nat>, start: nat, first: nat, second: nat)
    requires start < |faults| && first < second < |faults|
    requires Barren(faults, start, 0, first) && Barren(faults, start, first + 1, second)
    ensures var p, a := Around(start, first, |faults|), Around(start, second, |faults|);
            Walk(faults, start, 0, Nothing) ==
            Walk(faults, start, second + 1, Meet(Meet(Nothing, p, Remaining(faults, p)), a, Remaining(faults, a)))
  {
    var p := Around(start, first, |faults|);
    WalkSkips(faults, start, 0, first, Nothing);
    WalkSkips(faults, start, first + 1, second, Meet(Nothing, p, Remaining(faults, p)));
  }

  lemma StepsApart(start: nat, i: nat, j: nat, n: nat)
    requires start < n && i < n && j < n && StepsTo(start, i, n) <= StepsTo(start, j, n)
    ensures StepsTo(i, j, n) == StepsTo(start, j, n) - StepsTo(start, i, n)
  {
  }

  lemma StepsAround(start: nat, o: nat, n: nat)
    requires start < n && o < n
    ensures StepsTo(start, Around(start, o, n), n) == o
  {
  }

  /** Nobody healthy stands between the sticky LINE and the primary, or between the primary and the alternate. */
  lemma PicksAreNext(g: Group, o: nat)
    requires g.Valid() && o < |g.faults| && Healthy(g.faults, Around(g.sticky, o, |g.faults|))
    ensures StepsTo(g.sticky, Primary(g), |g.faults|) <= o
    ensures Healthy(g.faults, Alternate(g)) && Alternate(g) != Primary(g) &&
            o != StepsTo(g.sticky, Primary(g), |g.faults|) ==>
              StepsTo(g.sticky, Primary(g), |g.faults|) < StepsTo(g.sticky, Alternate(g), |g.faults|) <= o
  {
    var n, i := |g.faults|, Around(g.sticky, o, |g.faults|);
    StepsAround(g.sticky, o, n);
    PicksAreNearest(g, i);
    if Healthy(g.faults, Alternate(g)) && Alternate(g) != Primary(g) && i != Primary(g) {
      PicksAreNearest(g, Alternate(g));
      StepsApart(g.sticky, Primary(g), i, n);
      StepsApart(g.sticky, Primary(g), Alternate(g), n);
    }
  }

  /** Taking one fault from each of the first two stops changes nothing of what is left over. */
  lemma MeetAfterFaults(p: nat, a: nat, cp: nat, ca: nat)
    requires 1 <= cp <= TRIP_AFTER && 1 <= ca <= TRIP_AFTER
    ensures Meet(Meet(Nothing, p, cp - 1), a, ca - 1) == Meet(Meet(Nothing, p, cp), a, ca)
  {
  }

  ghost predicate TwoHealthy(g: Group)
    requires g.Valid()
  {
    Healthy(g.faults, Primary(g)) && Healthy(g.faults, Alternate(g)) && Alternate(g) != Primary(g)
  }

  /** The first two stops of the walk are the primary and the alternate. */
  lemma StopsOf(g: Group, first: nat, second: nat)
    requires g.Valid() && TwoHealthy(g)
    requires first == StepsTo(g.sticky, Primary(g), |g.faults|) && second == StepsTo(g.sticky, Alternate(g), |g.faults|)
    ensures first < second && Barren(g.faults, g.sticky, 0, first) && Barren(g.faults, g.sticky, first + 1, second)
  {
    var n := |g.faults|;
    PicksAreNext(g, second);
    forall o | 0 <= o < second && o != first
      ensures !Healthy(g.faults, Around(g.sticky, o, n))
    {
      if Healthy(g.faults, Around(g.sticky, o, n)) {
        PicksAreNext(g, o);
      }
    }
  }

  lemma BarrenStays(faults: seq<nat>, other: seq<nat>, start: nat, from: nat, to: nat)
    requires start < |faults| == |other| && to <= |faults| && Barren(faults, start, from, to)
    requires forall i :: 0 <= i < |faults| ==> faults[i] <= other[i]
    ensures Barren(other, start, from, to)
  {
    forall o | from <= o < to
      ensures !Healthy(other, Around(start, o, |other|))
    {
      assert !Healthy(faults, Around(start, o, |faults|));
    }
  }

  lemma AgreeBeyond(faults: seq<nat>, other: seq<nat>, start: nat, first: nat, second: nat)
    requires start < |faults| == |other| && first < second < |faults|
    requires forall i :: 0 <= i < |faults| && faults[i] != other[i] ==>
                           i == Around(start, first, |faults|) || i == Around(start, second, |faults|)
    ensures forall o :: second < o < |faults| ==>
               faults[Around(start, o, |faults|)] == other[Around(start, o, |faults|)]
  {
    forall o | second < o < |faults|
      ensures faults[Around(start, o, |faults|)] == other[Around(start, o, |faults|)]
    {
      StepsAround(start, o, |faults|);
      StepsAround(start, first, |faults|);
      StepsAround(start, second, |faults|);
    }
  }

  /** `next` has one fault more at p and a, and is otherwise the same. */
  ghost predicate FaultedAt(faults: seq<nat>, next: seq<nat>, p: nat, a: nat) {
    && |next| == |faults| && p < |faults| && a < |faults|
    && Healthy(faults, p) && Healthy(faults, a) && next[p] == faults[p] + 1 && next[a] == faults[a] + 1
    && forall i :: 0 <= i < |faults| && i != p && i != a ==> next[i] == faults[i]
  }

  lemma FaultedWalkStart(faults: seq<nat>, next: seq<nat>, start: nat, first: nat, second: nat, p: nat, a: nat)
    requires start < |faults| && first < second < |faults| && FaultedAt(faults, next, p, a)
    requires p == Around(start, first, |faults|) && a == Around(start, second, |faults|)
    requires Barren(faults, start, 0, first) && Barren(faults, start, first + 1, second)
    ensures Walk(next, start, 0, Nothing) ==
            Walk(next, start, second + 1, Meet(Meet(Nothing, p, Remaining(faults, p)), a, Remaining(faults, a)))
  {
    BarrenStays(faults, next, start, 0, first);
    BarrenStays(faults, next, start, first + 1, second);
    WalkMeetsTwo(next, start, first, second);
    MeetAfterFaults(p, a, Remaining(faults, p), Remaining(faults, a));
  }

  /** One fault more at each of its first two stops leaves a walk with the same LINE. */
  lemma WalkAfterFaults(faults: seq<nat>, next: seq<nat>, start: nat, first: nat, second: nat, p: nat, a: nat)
    requires start < |faults| && first < second < |faults| && FaultedAt(faults, next, p, a)
    requires p == Around(start, first, |faults|) && a == Around(start, second, |faults|)
    requires Barren(faults, start, 0, first) && Barren(faults, start, first + 1, second)
    ensures Walk(next, start, 0, Nothing) == Walk(faults, start, 0, Nothing)
  {
    var met := Meet(Meet(Nothing, p, Remaining(faults, p)), a, Remaining(faults, a));
    FaultedWalkStart(faults, next, start, first, second, p, a);
    assert Walk(next, start, second + 1, met) == Walk(faults, start, second + 1, met) by {
      AgreeBeyond(faults, next, start, first, second);
      WalkAgrees(faults, next, start, second + 1, met);
    }
    WalkMeetsTwo(faults, start, first, second);
  }

  /** A miss on two healthy LINEs keeps what is left over. */
  lemma MissKeepsLeftover(g: Group)
    requires g.Valid() && TwoHealthy(g)
    ensures Leftover(Faulted(Faulted(g, Primary(g)), Alternate(g))) == Leftover(g)
  {
    var n := |g.faults|;
    var first, second := StepsTo(g.sticky, Primary(g), n), StepsTo(g.sticky, Alternate(g), n);
    StopsOf(g, first, second);
    var next := Faulted(Faulted(g, Primary(g)), Alternate(g));
    WalkAfterFaults(g.faults, next.faults, g.sticky, first, second, Primary(g), Alternate(g));
  }

  ghost predicate OnlyHealthy(g: Group, p: nat) {
    p < |g.faults| && Healthy(g.faults, p) && forall i :: 0 <= i < |g.faults| && i != p ==> !Healthy(g.faults, i)
  }

  /** A LINE that alone is healthy is the primary, is left over, and has its neighbour as alternate. */
  lemma LoneLine(g: Group, p: nat)
    requires g.Valid() && OnlyHealthy(g, p)
    ensures Primary(g) == p && Leftover(g) == Carrying(p, Remaining(g.faults, p))
    ensures |g.faults| > 1 ==> Alternate(g) == Around(p, 1, |g.faults|)
  {
    var n := |g.faults|;
    var step := StepsTo(g.sticky, p, n);
    PrimaryHealthy(g, p);
    forall o | 0 <= o < n && o != step
      ensures !Healthy(g.faults, Around(g.sticky, o, n))
    {
      StepsAround(g.sticky, o, n);
    }
    WalkSkips(g.faults, g.sticky, 0, step, Nothing);
    WalkSkips(g.faults, g.sticky, step + 1, n, Carrying(p, Remaining(g.faults, p)));
    if n > 1 {
      LoneAlternate(g.faults, p, 1, Around(p, 1, n));
    }
  }

  lemma {:induction false} LoneAlternate(faults: seq<nat>, p: nat, offset: nat, fallback: nat)
    requires p < |faults| && fallback < |faults| && 1 <= offset
    requires forall i :: 0 <= i < |faults| && i != p ==> !Healthy(faults, i)
    ensures Scan(faults, p, offset, fallback) == fallback
    decreases |faults| - offset
  {
    if offset >= |faults| {
    } else {
      StepsAround(p, offset, |faults|);
      LoneAlternate(faults, p, offset + 1, fallback);
    }
  }

  lemma NothingLeftOver(g: Group)
    requires g.Valid() && AllTripped(g)
    ensures Leftover(g) == Nothing
  {
    WalkSkips(g.faults, g.sticky, 0, |g.faults|, Nothing);
  }

  /** A LINE is healthy, the sticky one or its successor, or comes after the one left over. */
  predicate Reachable(g: Group, good: nat)
    requires g.Valid() && good < |g.faults|
  {
    Healthy(g.faults, good) || InReach(g, good) || AfterLeftover(g, good)
  }

  /** The three states a group can be in: fully tripped, one LINE healthy, or two to try. */
  lemma HealthCases(g: Group)
    requires g.Valid()
    ensures AllTripped(g) || OnlyHealthy(g, Primary(g)) || TwoHealthy(g)
  {
    if !AllTripped(g) {
      var i :| 0 <= i < |g.faults| && g.faults[i] != TRIP_AFTER;
      PrimaryHealthy(g, i);
      if !OnlyHealthy(g, Primary(g)) {
        var j :| 0 <= j < |g.faults| && j != Primary(g) && Healthy(g.faults, j);
        AlternateHealthy(g, j);
        AlternateDiffers(g);
      }
    }
  }

  /** Only a reachable LINE is ever tried. */
  lemma TriedIsReachable(g: Group, good: nat)
    requires g.Valid() && good < |g.faults| && Tried(g, good)
    ensures Reachable(g, good)
  {
    HealthCases(g);
    if AllTripped(g) {
      TrippedTries(g, good);
    } else if OnlyHealthy(g, Primary(g)) {
      LoneLine(g, Primary(g));
    }
  }

  lemma MissEffect(g: Group, good: nat, outcome: Outcome)
    requires g.Valid() && good < |g.faults| && Plausible(g, good, outcome) && !Tried(g, good)
    ensures After(g, outcome) == Faulted(Faulted(g, Primary(g)), Alternate(g))
  {
    OneLineTried(g, good);
  }

  /** A session that misses the LINE leaves it as reachable as it was. */
  lemma MissKeepsReachable(g: Group, good: nat, outcome: Outcome)
    requires g.Valid() && good < |g.faults| && Plausible(g, good, outcome) && !Tried(g, good)
    ensures |After(g, outcome).faults| == |g.faults|
    ensures Reachable(After(g, outcome), good) <==> Reachable(g, good)
  {
    var next := After(g, outcome);
    MissEffect(g, good, outcome);
    MissUses(g, good, outcome);
    HealthCases(g);
    if AllTripped(g) {
      assert next == g;
    } else if TwoHealthy(g) {
      MissKeepsLeftover(g);
    } else {
      LoneMiss(g, good, next);
    }
  }

  lemma LoneMiss(g: Group, good: nat, next: Group)
    requires g.Valid() && good < |g.faults| && |g.faults| > 1 && !Tried(g, good)
    requires OnlyHealthy(g, Primary(g)) && next == Faulted(Faulted(g, Primary(g)), Alternate(g))
    ensures !AfterLeftover(g, good) && !AfterLeftover(next, good)
  {
    var p := Primary(g);
    LoneLine(g, p);
    AlternateDiffers(g);
    forall i | 0 <= i < |g.faults| && i != p
      ensures next.faults[i] == TRIP_AFTER
    {
      assert !Healthy(g.faults, i);
    }
    if Healthy(next.faults, p) {
      assert OnlyHealthy(next, p);
      LoneLine(next, p);
    } else {
      assert AllTripped(next);
      NothingLeftOver(next);
    }
  }

  /** The most sessions that can still miss a reachable LINE: two faults a session, except for a lone LINE. */
  function Misses(g: Group, good: nat): nat { Min(Left(g, good), 1 + Left(g, good) / 2) }

  lemma {:induction false} LoneCapacity(faults: seq<nat>, good: nat, k: nat, p: nat)
    requires k <= |faults| && forall i :: 0 <= i < |faults| && i != p ==> !Healthy(faults, i)
    ensures Capacity(faults, good, k) <= if p < k then TRIP_AFTER else 0
  {
    if k == 0 {
    } else {
      LoneCapacity(faults, good, k - 1, p);
      assert k - 1 != p ==> !Healthy(faults, k - 1);
    }
  }

  /** Every session settles on a reachable LINE or leaves fewer sessions that can miss it. */
  lemma ReachableProgress(g: Group, good: nat, outcome: Outcome)
    requires g.Valid() && good < |g.faults| && Plausible(g, good, outcome) && Reachable(g, good)
    ensures Settled(After(g, outcome), good) || Misses(After(g, outcome), good) < Misses(g, good)
  {
    if Tried(g, good) {
      TriedSettles(g, good, outcome);
    } else {
      MissUses(g, good, outcome);
      HealthCases(g);
      if AllTripped(g) {
        NothingLeftOver(g);
        TrippedTries(g, good);
      } else if TwoHealthy(g) {
        assert Left(After(g, outcome), good) == Left(g, good) - 2;
      } else {
        LoneCapacity(g.faults, good, |g.faults|, Primary(g));
      }
    }
  }

  lemma ThreeSessions()
    ensures var start := Group(0, [0, 0, 0, 0, 0]);
            After(After(After(start, Deadline), Deadline), PrimaryWon) == Group(2, [2, 2, 0, 0, 0])
  {
    var start := Group(0, [0, 0, 0, 0, 0]);
    var once := After(start, Deadline);
    assert once == Group(0, [1, 1, 0, 0, 0]);
    var twice := After(once, Deadline);
    assert twice == Group(0, [2, 2, 0, 0, 0]);
    assert Scan(twice.faults, 0, 1, 0) == Scan(twice.faults, 0, 2, 0);
  }

  lemma LeftoverOfFive(f: seq<nat>)
    requires f == [2, 2, 0, 0, 0]
    ensures Walk(f, 2, 0, Nothing) == Carrying(4, 2)
  {
    assert Walk(f, 2, 0, Nothing) == Walk(f, 2, 1, Carrying(2, 2)) == Walk(f, 2, 2, Nothing);
    assert Walk(f, 2, 2, Nothing) == Walk(f, 2, 3, Carrying(4, 2)) == Walk(f, 2, 4, Carrying(4, 2));
    assert Walk(f, 2, 4, Carrying(4, 2)) == Walk(f, 2, 5, Carrying(4, 2)) == Carrying(4, 2);
  }

  lemma ReachOfFive(g: Group)
    requires g == Group(2, [2, 2, 0, 0, 0])
    ensures g.Valid() && |g.faults| == 5 && Reachable(g, 0) && !Reachable(g, 1)
  {
    LeftoverOfFive(g.faults);
  }

  /** In an ordinary group of five, two lost deadlines and a win leave LINE 0 reachable and LINE 1 not. */
  lemma TrippedForGood()
    ensures var start := Group(0, [0, 0, 0, 0, 0]);
            var tripped := After(After(After(start, Deadline), Deadline), PrimaryWon);
            |tripped.faults| == 5 && Reachable(tripped, 0) && !Reachable(tripped, 1)
  {
    var tripped := After(After(After(Group(0, [0, 0, 0, 0, 0]), Deadline), Deadline), PrimaryWon);
    assert tripped == Group(2, [2, 2, 0, 0, 0]) by {
      ThreeSessions();
    }
    ReachOfFive(tripped);
  }

  lemma {:induction false} ReachableRun(groups: seq<Group>, outcomes: seq<Outcome>, good: nat, k: nat)
    requires Trace(groups, outcomes, good) && k <= |outcomes| && Reachable(groups[0], good)
    ensures |groups[k].faults| == |groups[0].faults|
    ensures SettledBy(groups, good, k) ||
            (Reachable(groups[k], good) && Misses(groups[k], good) + k <= Misses(groups[0], good))
  {
    SizeStays(groups, outcomes, good, k);
    if k == 0 {
    } else {
      ReachableRun(groups, outcomes, good, k - 1);
      assert Follows(groups, outcomes, good, k - 1);
      if !SettledBy(groups, good, k - 1) {
        ReachableProgress(groups[k - 1], good, outcomes[k - 1]);
        if Tried(groups[k - 1], good) {
          TriedSettles(groups[k - 1], good, outcomes[k - 1]);
        } else {
          MissKeepsReachable(groups[k - 1], good, outcomes[k - 1]);
        }
        assert Settled(groups[k], good) ==> SettledBy(groups, good, k);
      }
    }
  }

  lemma {:induction false} UnreachableRun(groups: seq<Group>, outcomes: seq<Outcome>, good: nat, k: nat)
    requires Trace(groups, outcomes, good) && k <= |outcomes| && !Reachable(groups[0], good)
    ensures |groups[k].faults| == |groups[0].faults| && !Reachable(groups[k], good)
  {
    if k == 0 {
    } else {
      UnreachableRun(groups, outcomes, good, k - 1);
      assert Follows(groups, outcomes, good, k - 1);
      if Tried(groups[k - 1], good) {
        TriedIsReachable(groups[k - 1], good);
      } else {
        MissKeepsReachable(groups[k - 1], good, outcomes[k - 1]);
      }
    }
  }

  /**
   From every state of a group, the good LINE becomes the sticky one if and only if it is reachable:
   healthy, sticky, next to the sticky one, or next to the LINE left over.  A reachable LINE takes at
   most n + 1 sessions, an unreachable one is never tried.
   */
  lemma ReachedExactly(groups: seq<Group>, outcomes: seq<Outcome>, good: nat, k: nat)
    requires Trace(groups, outcomes, good) && k <= |outcomes|
    ensures SettledBy(groups, good, k) ==> Reachable(groups[0], good)
    ensures Reachable(groups[0], good) && k >= |groups[0].faults| + 1 ==> SettledBy(groups, good, k)
  {
    var n := |groups[0].faults|;
    if Reachable(groups[0], good) {
      ReachableRun(groups, outcomes, good, k);
      CapacityBounded(groups[0].faults, good, n);
    } else {
      forall j | 1 <= j <= k
        ensures !Settled(groups[j], good)
      {
        UnreachableRun(groups, outcomes, good, j);
      }
    }
  }

  // ---- The object ----

  class LineGroup {
    var sticky: nat
    var faults: seq<nat>

    ghost function View(): Group
      reads this
    {
      Group(sticky, faults)
    }

    constructor (lines: nat)
      requires 1 <= lines
      ensures View() == Group(0, seq(lines, _ => 0)) && View().Valid()
    {
      sticky, faults := 0, seq(lines, _ => 0);
    }

    /** The first healthy LINE from the sticky one on, else the sticky one. */
    method PickPrimary() returns (index: nat)
      requires View().Valid()
      ensures index == Primary(View())
    {
      var start := sticky % |faults|;
      var offset := 0;
      while offset < |faults|
        invariant 0 <= offset <= |faults| && start == sticky
        invariant Primary(View()) == Scan(faults, start, offset, start)
      {
        index := Around(start, offset, |faults|);
        if faults[index] < TRIP_AFTER {
          return index;
        }
        offset := offset + 1;
      }
      return start;
    }

    /** The next healthy LINE after the primary, else its neighbour. */
    method PickAlternate(primary: nat) returns (index: nat)
      requires View().Valid() && primary == Primary(View())
      ensures index == Alternate(View())
    {
      var offset := 1;
      while offset < |faults|
        invariant 1 <= offset
        invariant Alternate(View()) == Scan(faults, primary, offset, Around(primary, 1, |faults|))
      {
        index := Around(primary, offset, |faults|);
        if faults[index] < TRIP_AFTER {
          return index;
        }
        offset := offset + 1;
      }
      index := Around(primary, 1, |faults|);
    }

    method NoteSuccess(index: nat)
      requires View().Valid() && index < |faults|
      modifies this
      ensures View() == Succeeded(old(View()), index)
    {
      faults := faults[index := 0];
      sticky := index;
    }

    method NoteFault(index: nat)
      requires View().Valid() && index < |faults|
      modifies `faults
      ensures View() == Faulted(old(View()), index)
    {
      faults := faults[index := Min(faults[index] + 1, TRIP_AFTER)];
    }

    /** One session; the result is the LINE that authenticated. */
    method Authenticate(outcome: Outcome) returns (line: Option<nat>)
      requires View().Valid()
      modifies this
      ensures View().Valid() && View() == After(old(View()), outcome)
      ensures line == Winner(old(View()), outcome) && |faults| == |old(faults)|
      ensures sticky == if line.Some? then line.value else old(sticky)
      ensures forall i :: 0 <= i < |faults| ==>
                faults[i] == if line == Some(i) then 0
                             else if Lost(old(View()), outcome, i) then Min(old(faults[i]) + 1, 2)
                             else old(faults[i])
    {
      ghost var g := View();
      line := Race(outcome);
      forall i | 0 <= i < |g.faults|
        ensures |faults| == |g.faults|
        ensures faults[i] == if line == Some(i) then 0
                             else if Lost(g, outcome, i) then Min(g.faults[i] + 1, 2)
                             else g.faults[i]
      {
        AfterExactly(g, outcome, i);
      }
      AfterExactly(g, outcome, g.sticky);
    }

    /** Picks the LINEs to try and notes how the race between them ended. */
    method Race(outcome: Outcome) returns (line: Option<nat>)
      requires View().Valid()
      modifies this
      ensures View().Valid() && View() == After(old(View()), outcome) && line == Winner(old(View()), outcome)
    {
      var primary := PickPrimary();
      var alternate := None;
      if |faults| > 1 {
        var index := PickAlternate(primary);
        alternate := Some(index);
      }
      match outcome {
        case PrimaryWon =>
          NoteSuccess(primary);
          return Some(primary);
        case AlternateWon =>
          NoteFault(primary);
          if alternate.None? {
            return None;
          }
          NoteSuccess(alternate.value);
          return alternate;
        case Deadline =>
          NoteFault(primary);
          if alternate.Some? {
            NoteFault(alternate.value);
          }
          return None;
        case AttemptsFailed(tried) =>
          NoteFault(primary);
          if tried && alternate.Some? {
            NoteFault(alternate.value);
          }
          return None;
      }
    }
  }

  /** A group of one to eight LINEs, healthy and starting at the first; any other size is refused. */
  method NewGroup(lines: nat) returns (r: Result<LineGroup, ConfigError>)
    ensures r.Ok? <==> 1 <= lines <= 8
    ensures r.Ok? ==> fresh(r.value) && r.value.View() == Group(0, seq(lines, _ => 0)) && r.value.View().Valid()
    ensures r.Err? ==> r.error == if lines == 0 then GroupEmpty else GroupTooLarge
  {
    if lines == 0 {
      return Err(GroupEmpty);
    }
    if lines > MAX_LINES_PER_GROUP {
      return Err(GroupTooLarge);
    }
    var group := new LineGroup(lines);
    return Ok(group);
  }
}
