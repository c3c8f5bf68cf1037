/**
 The two-direction raw-relay commitment (crates/rr-session/src/vision.rs, rendezvous.rs, and the
 session model in fuzz/fuzz_targets/session_semantics.rs): each direction moves through its
 lifecycle and, at its raw boundary, commits to the bilateral pair or to relaying alone.

 The commitment theorems hold for every lifecycle table that only moves up in rank; `Permits` is
 the table of the engine.
 */
module RawRelay {
  import opened Wrappers

  datatype State = Framed | DirectPending | RawReady | Outer | Closed | Failed | PairPending | Relaying
  datatype Decision = Pair | Directional
  datatype Direction = Uplink | Downlink

  type Table = (State, State) -> bool

  function Rank(s: State): nat {
    match s
    case Framed => 0
    case DirectPending => 1
    case RawReady => 2
    case Outer => 2
    case PairPending => 3
    case Relaying => 3
    case Closed => 4
    case Failed => 4
  }

  const MAX_RANK := 4

  predicate Terminal(s: State) { s == Closed || s == Failed }

  ghost predicate Monotone(permits: Table) {
    forall s: State, t: State :: permits(s, t) ==> Rank(s) < Rank(t)
  }

  /** The engine's lifecycle table. */
  predicate Permits(s: State, t: State) {
    match s
    case Framed => t in {DirectPending, Outer, Closed, Failed}
    case DirectPending => t in {RawReady, Closed, Failed}
    case RawReady => t in {PairPending, Relaying, Closed, Failed}
    case PairPending => t in {Closed, Failed}
    case Relaying => t in {Closed, Failed}
    case Outer => t in {Closed, Failed}
    case Closed => false
    case Failed => false
  }

  /** A peer at its boundary or committed to the pair is joined; any other is not waited for. */
  function DecisionFor(peer: State): Decision {
    if peer == RawReady || peer == PairPending then Pair else Directional
  }

  function Successor(d: Decision): State { if d == Pair then PairPending else Relaying }

  // ---- One session as a value ----

  datatype Side = Side(state: State, transitions: nat, grants: nat, decision: Option<Decision>)

  datatype Session = Session(up: Side, down: Side) {
    function Of(d: Direction): Side { if d == Uplink then up else down }
    function PeerOf(d: Direction): Side { if d == Uplink then down else up }
    function With(d: Direction, side: Side): Session {
      if d == Uplink then this.(up := side) else this.(down := side)
    }
  }

  const FRESH := Side(Framed, 0, 0, None)
  const START := Session(FRESH, FRESH)

  datatype Event = Advance(direction: Direction, state: State) | PlanRelay(direction: Direction)

  /** With `held`, a direction committed to the pair is not settled: the adapter's obligation. */
  function Advanced(permits: Table, held: bool, side: Side, next: State): Side {
    if !permits(side.state, next) || (held && side.decision == Some(Pair) && Terminal(next)) then side
    else side.(state := next, transitions := side.transitions + 1)
  }

  function Planned(permits: Table, held: bool, side: Side, peer: State): Side {
    var decision := DecisionFor(peer);
    if !permits(side.state, Successor(decision)) then side
    else
      var moved := Advanced(permits, held, side, Successor(decision));
      moved.(grants := moved.grants + 1, decision := Some(decision))
  }

  function Step(permits: Table, held: bool, s: Session, e: Event): Session {
    match e
    case Advance(d, next) => s.With(d, Advanced(permits, held, s.Of(d), next))
    case PlanRelay(d) => s.With(d, Planned(permits, held, s.Of(d), s.PeerOf(d).state))
  }

  function Run(permits: Table, held: bool, s: Session, events: seq<Event>): Session
    decreases |events|
  {
    if events == [] then s else Run(permits, held, Step(permits, held, s, events[0]), events[1..])
  }

  /** Both directions decided, and not alike. */
  predicate SplitPair(s: Session) {
    s.up.decision.Some? && s.down.decision.Some? && s.up.decision != s.down.decision
  }

  // ---- What every run keeps ----

  predicate SideBounded(side: Side) {
    && side.transitions <= Rank(side.state)
    && side.grants <= 1
    && (side.grants == 1 <==> side.decision.Some?)
    && (side.decision.Some? ==> Rank(side.state) >= 3)
    && (side.decision == Some(Directional) ==> side.state != PairPending)
    && (side.decision == Some(Pair) ==> side.state == PairPending || Terminal(side.state))
  }

  predicate Committed(side: Side) { side.decision == Some(Pair) ==> side.state == PairPending }

  predicate Consistent(held: bool, s: Session) {
    && SideBounded(s.up) && SideBounded(s.down)
    && (held ==> Committed(s.up) && Committed(s.down) && !SplitPair(s))
  }

  /** One side after a step still obeys the bounds and, under the discipline, its commitment. */
  lemma AdvanceKeepsSide(permits: Table, held: bool, side: Side, next: State)
    requires Monotone(permits) && SideBounded(side) && (held ==> Committed(side))
    ensures var moved := Advanced(permits, held, side, next);
            SideBounded(moved) && (held ==> Committed(moved)) && moved.decision == side.decision
  {
    DecidedOneWay(side);
  }

  lemma PlanKeepsSide(permits: Table, held: bool, side: Side, peer: State)
    requires Monotone(permits) && SideBounded(side) && (held ==> Committed(side))
    ensures var planned := Planned(permits, held, side, peer);
            && SideBounded(planned) && (held ==> Committed(planned))
            && (planned == side || (side.decision == None && planned.decision == Some(DecisionFor(peer))))
  {
    DecidedOneWay(side);
  }

  /** A decision taken now agrees with a peer that keeps its own commitment. */
  lemma DecisionsAgree(peer: Side)
    requires SideBounded(peer) && Committed(peer) && peer.decision.Some?
    ensures peer.decision == Some(DecisionFor(peer.state))
  {
    DecidedOneWay(peer);
  }

  lemma StepKeepsConsistent(permits: Table, held: bool, s: Session, e: Event)
    requires Monotone(permits) && Consistent(held, s)
    ensures Consistent(held, Step(permits, held, s, e))
  {
    var side, peer := s.Of(e.direction), s.PeerOf(e.direction);
    match e {
      case Advance(_, next) => AdvanceKeepsSide(permits, held, side, next);
      case PlanRelay(_) =>
        PlanKeepsSide(permits, held, side, peer.state);
        if held && peer.decision.Some? {
          DecisionsAgree(peer);
        }
    }
  }

  lemma DecidedOneWay(side: Side)
    ensures side.decision in {None, Some(Pair), Some(Directional)}
  {
    match side.decision {
      case None =>
      case Some(d) => assert d == Pair || d == Directional;
    }
  }

  lemma {:induction false} RunKeepsConsistent(permits: Table, held: bool, s: Session, events: seq<Event>)
    requires Monotone(permits) && Consistent(held, s)
    ensures Consistent(held, Run(permits, held, s, events))
    decreases |events|
  {
    if events == [] {
    } else {
      StepKeepsConsistent(permits, held, s, events[0]);
      RunKeepsConsistent(permits, held, Step(permits, held, s, events[0]), events[1..]);
    }
  }

  /**
   Over every sequence of events and for every rank-monotone table: the directions never split, and
   each direction obtains at most one grant and at most four transitions.
   */
  lemma NeverSplits(permits: Table, events: seq<Event>, d: Direction)
    requires Monotone(permits)
    ensures var s := Run(permits, true, START, events);
            !SplitPair(s) && s.Of(d).grants <= 1 && s.Of(d).transitions <= MAX_RANK
  {
    RunKeepsConsistent(permits, true, START, events);
  }

  /** Grants and transitions are bounded even where a pair commitment is settled early. */
  lemma BoundedWithoutDiscipline(permits: Table, events: seq<Event>, d: Direction)
    requires Monotone(permits)
    ensures var s := Run(permits, false, START, events);
            s.Of(d).grants <= 1 && s.Of(d).transitions <= MAX_RANK
  {
    RunKeepsConsistent(permits, false, START, events);
  }

  /** A closed or failed direction stays as it is for the rest of any run. */
  lemma {:induction false} TerminalStays(permits: Table, held: bool, s: Session, events: seq<Event>, d: Direction)
    requires Monotone(permits) && Terminal(s.Of(d).state)
    ensures Run(permits, held, s, events).Of(d) == s.Of(d)
    decreases |events|
  {
    if events == [] {
    } else {
      var next := Step(permits, held, s, events[0]);
      assert next.Of(d) == s.Of(d);
      TerminalStays(permits, held, next, events[1..], d);
    }
  }

  /** A decision, once taken, is never revised. */
  lemma {:induction false} DecisionStays(permits: Table, held: bool, s: Session, events: seq<Event>, d: Direction)
    requires Monotone(permits) && Consistent(held, s) && s.Of(d).decision.Some?
    ensures Run(permits, held, s, events).Of(d).decision == s.Of(d).decision
    decreases |events|
  {
    if events == [] {
    } else {
      StepKeepsConsistent(permits, held, s, events[0]);
      DecisionStays(permits, held, Step(permits, held, s, events[0]), events[1..], d);
    }
  }

  // ---- Why the discipline is needed ----

  /**
   Without the discipline, after any history, a plan splits the pair exactly when it is granted
   while the peer has committed to the pair and has already been settled.
   */
  lemma SplitsExactlyWhenSettledEarly(permits: Table, events: seq<Event>, d: Direction)
    requires Monotone(permits)
    requires var s := Run(permits, false, START, events);
             !SplitPair(s) && permits(s.Of(d).state, Successor(DecisionFor(s.PeerOf(d).state)))
    ensures var s := Run(permits, false, START, events);
            SplitPair(Step(permits, false, s, PlanRelay(d))) <==>
              s.PeerOf(d).decision == Some(Pair) && Terminal(s.PeerOf(d).state)
  {
    RunKeepsConsistent(permits, false, START, events);
    var s := Run(permits, false, START, events);
    DecidedOneWay(s.up);
    DecidedOneWay(s.down);
  }

  function Approach(d: Direction): seq<Event> {
    [Advance(d, DirectPending), Advance(d, RawReady)]
  }

  lemma {:induction false} RunAppend(permits: Table, held: bool, s: Session, first: seq<Event>, second: seq<Event>)
    ensures Run(permits, held, s, first + second) == Run(permits, held, Run(permits, held, s, first), second)
    decreases |first|
  {
    if first == [] {
      assert first + second == second;
    } else {
      assert (first + second)[1..] == first[1..] + second;
      RunAppend(permits, held, Step(permits, held, s, first[0]), first[1..], second);
    }
  }

  lemma RunTwo(permits: Table, held: bool, s: Session, a: Event, b: Event)
    ensures Run(permits, held, s, [a, b]) == Step(permits, held, Step(permits, held, s, a), b)
  {
    var next := Step(permits, held, s, a);
    assert [a, b][1..] == [b] && [b][1..] == [];
    assert Run(permits, held, next, [b]) == Step(permits, held, next, b);
  }

  /** The engine's own table lets the pair split when the first depositor settles too early. */
  lemma EarlySettlementSplits()
    ensures SplitPair(Run(Permits, false, START,
                          Approach(Uplink) + Approach(Downlink) +
                          ([PlanRelay(Uplink), Advance(Uplink, Closed)] + [PlanRelay(Downlink)])))
  {
    var settle := [PlanRelay(Uplink), Advance(Uplink, Closed)];
    RunAppend(Permits, false, START, Approach(Uplink) + Approach(Downlink), settle + [PlanRelay(Downlink)]);
    RunAppend(Permits, false, START, Approach(Uplink), Approach(Downlink));
    RunTwo(Permits, false, START, Advance(Uplink, DirectPending), Advance(Uplink, RawReady));
    var s1 := Run(Permits, false, START, Approach(Uplink));
    RunTwo(Permits, false, s1, Advance(Downlink, DirectPending), Advance(Downlink, RawReady));
    var s2 := Run(Permits, false, s1, Approach(Downlink));
    assert s2.up.state == RawReady && s2.down.state == RawReady;
    RunAppend(Permits, false, s2, settle, [PlanRelay(Downlink)]);
    RunTwo(Permits, false, s2, PlanRelay(Uplink), Advance(Uplink, Closed));
    var s3 := Run(Permits, false, s2, settle);
    assert s3.up.decision == Some(Pair) && s3.up.state == Closed && s3.down.state == RawReady;
    assert [PlanRelay(Downlink)][1..] == [];
    assert Run(Permits, false, s3, [PlanRelay(Downlink)]) == Step(Permits, false, s3, PlanRelay(Downlink));
  }

  /** Two directions at their boundaries, planned in either order, both join the pair. */
  lemma BothJoin(s: Session, d: Direction, other: Direction)
    requires d != other && s.up.state == RawReady && s.down.state == RawReady
    ensures var joined := Run(Permits, true, s, [PlanRelay(d), PlanRelay(other)]);
            && joined.up.decision == Some(Pair) && joined.down.decision == Some(Pair)
            && joined.up.state == PairPending && joined.down.state == PairPending
            && joined.up.grants == s.up.grants + 1 && joined.down.grants == s.down.grants + 1
  {
    RunTwo(Permits, true, s, PlanRelay(d), PlanRelay(other));
    var once := Step(Permits, true, s, PlanRelay(d));
    assert once.Of(d).state == PairPending && once.PeerOf(d) == s.PeerOf(d);
  }

  /** A direction that relays alone goes through four transitions and gets its grant: the bounds are met. */
  lemma BoundsAreMet(d: Direction)
    ensures var s := Run(Permits, true, START, Approach(d) + [PlanRelay(d), Advance(d, Closed)]);
            s.Of(d) == Side(Closed, 4, 1, Some(Directional))
  {
    RunAppend(Permits, true, START, Approach(d), [PlanRelay(d), Advance(d, Closed)]);
    RunTwo(Permits, true, START, Advance(d, DirectPending), Advance(d, RawReady));
    var s := Run(Permits, true, START, Approach(d));
    assert s.Of(d) == Side(RawReady, 2, 0, None) && s.PeerOf(d) == FRESH;
    RunTwo(Permits, true, s, PlanRelay(d), Advance(d, Closed));
  }

  // ---- The engine's table ----

  /** A direction joins the pair exactly when its peer is at its own boundary or has joined already. */
  lemma PairExactly(peer: State)
    ensures DecisionFor(peer) == Pair <==> peer == RawReady || peer == PairPending
    ensures Successor(DecisionFor(peer)) == if peer == RawReady || peer == PairPending then PairPending else Relaying
  {
  }

  /** The edges of the engine's table: five forward ones, and from every state that is not terminal to both
      that are. */
  lemma EngineEdges(s: State, t: State)
    ensures Permits(s, t) <==>
            || (s !in {Closed, Failed} && t in {Closed, Failed})
            || (s, t) in {(Framed, DirectPending), (Framed, Outer), (DirectPending, RawReady),
                          (RawReady, PairPending), (RawReady, Relaying)}
  {
  }

  /** The engine's table only moves up, closes nothing for good except the terminal states, and grants
      a relay from the raw boundary alone. */
  lemma EngineTable(s: State, peer: State)
    ensures Monotone(Permits)
    ensures (forall t: State :: !Permits(s, t)) <==> Terminal(s)
    ensures Permits(s, Successor(DecisionFor(peer))) <==> s == RawReady
  {
    assert !Terminal(s) ==> Permits(s, Closed);
  }

  // ---- The rendezvous ----

  const YIELD_BUDGET := 2

  datatype RendezvousStep = Yield | Commit

  class PairRendezvous {
    var yieldsRemaining: nat
    var committed: bool

    ghost predicate Valid()
      reads this
    {
      yieldsRemaining <= YIELD_BUDGET
    }

    constructor ()
      ensures Valid() && yieldsRemaining == YIELD_BUDGET && !committed
    {
      yieldsRemaining, committed := YIELD_BUDGET, false;
    }

    /** Spends a scheduling point only while there is one and the peer is not there; committing is final. */
    method Step(peerCanPair: bool) returns (step: RendezvousStep)
      requires Valid()
      modifies this
      ensures Valid()
      ensures step == Commit <==> old(committed) || peerCanPair || old(yieldsRemaining) == 0
      ensures committed <==> step == Commit
      ensures yieldsRemaining == old(yieldsRemaining) - if step == Yield then 1 else 0
    {
      if committed || peerCanPair || yieldsRemaining == 0 {
        committed := true;
        return Commit;
      }
      yieldsRemaining := yieldsRemaining - 1;
      return Yield;
    }
  }

  /** The adapter's loop: whatever it observes, it spends one scheduling point for every look before
      the peer is seen, and never more than the budget. */
  method Rendezvous(observed: nat -> bool) returns (spent: nat)
    ensures spent <= 2
    ensures forall k :: 0 <= k < spent ==> !observed(k)
    ensures spent < 2 ==> observed(spent)
  {
    var rendezvous := new PairRendezvous();
    var looks := 0;
    while true
      invariant rendezvous.Valid() && !rendezvous.committed && fresh(rendezvous)
      invariant 0 <= looks == YIELD_BUDGET - rendezvous.yieldsRemaining
      invariant forall k :: 0 <= k < looks ==> !observed(k)
      decreases rendezvous.yieldsRemaining
    {
      var step := rendezvous.Step(observed(looks));
      if step == Commit {
        break;
      }
      looks := looks + 1;
    }
    spent := YIELD_BUDGET - rendezvous.yieldsRemaining;
  }

  // ---- The session object ----

  class SessionModel {
    const permits: Table
    var up: Side
    var down: Side

    ghost function View(): Session
      reads this
    {
      Session(up, down)
    }

    ghost predicate Valid()
      reads this
    {
      Monotone(permits) && Consistent(true, View())
    }

    constructor (permits: Table)
      requires Monotone(permits)
      ensures Valid() && this.permits == permits && View() == START
    {
      this.permits, up, down := permits, FRESH, FRESH;
    }

    method Put(d: Direction, side: Side)
      modifies `up, `down
      ensures View() == old(View()).With(d, side)
    {
      if d == Uplink {
        up := side;
      } else {
        down := side;
      }
    }

    method AdvanceTo(d: Direction, next: State)
      requires Valid()
      modifies `up, `down
      ensures Valid() && View() == Step(permits, true, old(View()), Advance(d, next))
    {
      StepKeepsConsistent(permits, true, View(), Advance(d, next));
      var side := if d == Uplink then up else down;
      if !permits(side.state, next) {
        return;
      }
      if side.decision == Some(Pair) && Terminal(next) {
        return;
      }
      Put(d, side.(state := next, transitions := side.transitions + 1));
    }

    /** Plans, commits the state, then takes the grant; refused unless the table allows the successor. */
    method PlanRawRelay(d: Direction, observed: nat -> bool) returns (granted: Option<Decision>)
      requires Valid()
      modifies `up, `down
      ensures Valid() && View() == Step(permits, true, old(View()), PlanRelay(d))
      ensures granted.Some? <==> View() != old(View())
      ensures granted.Some? ==> View().Of(d).decision == granted && View().PeerOf(d).decision in {None, granted}
      ensures granted.Some? ==>
                var peer := old(View()).PeerOf(d).state;
                granted == Some(if peer == RawReady || peer == PairPending then Pair else Directional)
    {
      var spent := Rendezvous(observed);
      StepKeepsConsistent(permits, true, View(), PlanRelay(d));
      var side := if d == Uplink then up else down;
      var peer := if d == Uplink then down else up;
      var decision := DecisionFor(peer.state);
      if !permits(side.state, Successor(decision)) {
        return None;
      }
      AdvanceTo(d, Successor(decision));
      side := if d == Uplink then up else down;
      Put(d, side.(grants := side.grants + 1, decision := Some(decision)));
      granted := Some(decision);
    }
  }
}
