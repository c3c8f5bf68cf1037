/**
 Address planning (src/network.rs): the resolver's addresses, without repeats and without forbidden
 families, alternate between the two families, starting with the one the process prefers.
 */
module DialPlanner {
  import opened Words
  import opened Wrappers
  import opened AddressFamilies
  import Health = FamilyHealth

  datatype SocketAddr =
    | V4(ip: nat, port: nat)
    | V6(ip: nat, port: nat, flow: nat, scope: nat)
  {
    function Family(): AddressFamily { if V4? then Ipv4 else Ipv6 }
  }


  predicate Wanted(address: SocketAddr, mode: DialPolicy, family: AddressFamily) {
    mode.Allows(address.Family()) && address.Family() == family
  }

  /** The distinct wanted addresses among the first k, in order of first appearance. */
  function Firsts(addresses: seq<SocketAddr>, mode: DialPolicy, family: AddressFamily, k: nat): seq<SocketAddr>
    requires k <= |addresses|
  {
    if k == 0 then []
    else
      var firsts := Firsts(addresses, mode, family, k - 1);
      var address := addresses[k - 1];
      if Wanted(address, mode, family) && address !in firsts then firsts + [address] else firsts
  }

  function Distinct(addresses: seq<SocketAddr>, mode: DialPolicy, family: AddressFamily): seq<SocketAddr> {
    Firsts(addresses, mode, family, |addresses|)
  }

  predicate NoRepeats(s: seq<SocketAddr>) {
    forall i, j :: 0 <= i < j < |s| ==> s[i] != s[j]
  }

  /** `a` is in the list before any `b`. */
  predicate Precedes(addresses: seq<SocketAddr>, a: SocketAddr, b: SocketAddr) {
    exists p :: 0 <= p < |addresses| && addresses[p] == a && b !in addresses[..p + 1]
  }

  lemma {:induction false} FirstsMembers(addresses: seq<SocketAddr>, mode: DialPolicy, family: AddressFamily, k: nat)
    requires k <= |addresses|
    ensures forall x :: x in Firsts(addresses, mode, family, k) <==> x in addresses[..k] && Wanted(x, mode, family)
    ensures NoRepeats(Firsts(addresses, mode, family, k))
  {
    if k == 0 {
    } else {
      FirstsMembers(addresses, mode, family, k - 1);
      assert addresses[..k] == addresses[..k - 1] + [addresses[k - 1]];
    }
  }

  lemma {:induction false} FirstsOrdered(addresses: seq<SocketAddr>, mode: DialPolicy, family: AddressFamily,
                                         k: nat, i: nat, j: nat)
    requires k <= |addresses| && i < j < |Firsts(addresses, mode, family, k)|
    ensures Precedes(addresses, Firsts(addresses, mode, family, k)[i], Firsts(addresses, mode, family, k)[j])
  {
    var now, before := Firsts(addresses, mode, family, k), Firsts(addresses, mode, family, k - 1);
    if j < |before| {
      FirstsOrdered(addresses, mode, family, k - 1, i, j);
    } else {
      FirstsMembers(addresses, mode, family, k - 1);
      assert before[i] in addresses[..k - 1];
      var p :| 0 <= p < k - 1 && addresses[p] == before[i];
      assert forall q :: 0 <= q < p + 1 ==> addresses[q] in addresses[..k - 1];
      assert now[j] !in addresses[..p + 1];
      assert addresses[p] == now[i];
    }
  }

  lemma {:induction false} FirstsSkip(addresses: seq<SocketAddr>, mode: DialPolicy, family: AddressFamily,
                                      from: nat, end: nat)
    requires from <= end <= |addresses|
    requires forall k :: from <= k < end && Wanted(addresses[k], mode, family) ==>
                           addresses[k] in Firsts(addresses, mode, family, from)
    ensures Firsts(addresses, mode, family, end) == Firsts(addresses, mode, family, from)
    decreases end
  {
    if from == end {
    } else {
      FirstsSkip(addresses, mode, family, from, end - 1);
    }
  }

  // ---- Alternation ----

  /** `f` and `s` take turns, `f` first; when one runs out the other goes on alone. */
  predicate Alternates(plan: seq<SocketAddr>, f: seq<SocketAddr>, s: seq<SocketAddr>) {
    && |plan| == |f| + |s|
    && (forall k :: 0 <= k < |f| ==> plan[FirstSlot(k, |s|)] == f[k])
    && (forall k :: 0 <= k < |s| ==> plan[SecondSlot(k, |f|)] == s[k])
  }

  function FirstSlot(k: nat, others: nat): nat { k + Min(k, others) }
  function SecondSlot(k: nat, others: nat): nat { k + Min(k + 1, others) }

  lemma PushFirst(plan: seq<SocketAddr>, f: seq<SocketAddr>, s: seq<SocketAddr>, address: SocketAddr)
    requires Alternates(plan, f, s) && |f| >= |s|
    ensures Alternates(plan + [address], f + [address], s)
  {
    var next := f + [address];
    forall k | 0 <= k < |next|
      ensures (plan + [address])[FirstSlot(k, |s|)] == next[k]
    {
      assert k < |f| ==> plan[FirstSlot(k, |s|)] == f[k];
    }
    forall k | 0 <= k < |s|
      ensures (plan + [address])[SecondSlot(k, |next|)] == s[k]
    {
      assert plan[SecondSlot(k, |f|)] == s[k];
    }
  }

  lemma PushSecond(plan: seq<SocketAddr>, f: seq<SocketAddr>, s: seq<SocketAddr>, address: SocketAddr)
    requires Alternates(plan, f, s) && |s| + 1 >= |f|
    ensures Alternates(plan + [address], f, s + [address])
  {
    var next := s + [address];
    forall k | 0 <= k < |next|
      ensures (plan + [address])[SecondSlot(k, |f|)] == next[k]
    {
      assert k < |s| ==> plan[SecondSlot(k, |f|)] == s[k];
    }
    forall k | 0 <= k < |f|
      ensures (plan + [address])[FirstSlot(k, |next|)] == f[k]
    {
      assert plan[FirstSlot(k, |s|)] == f[k];
    }
  }

  /** The slot a position of the plan comes from. */
  lemma PlanSlot(plan: seq<SocketAddr>, f: seq<SocketAddr>, s: seq<SocketAddr>, i: nat) returns (inFirst: bool, k: nat)
    requires Alternates(plan, f, s) && i < |plan|
    ensures inFirst ==> k < |f| && i == FirstSlot(k, |s|) && plan[i] == f[k]
    ensures !inFirst ==> k < |s| && i == SecondSlot(k, |f|) && plan[i] == s[k]
  {
    if i < 2 * Min(|f|, |s|) {
      inFirst, k := i % 2 == 0, i / 2;
    } else if |f| > |s| {
      inFirst, k := true, i - |s|;
    } else {
      inFirst, k := false, i - |f|;
    }
    if inFirst {
      assert plan[FirstSlot(k, |s|)] == f[k];
    } else {
      assert plan[SecondSlot(k, |f|)] == s[k];
    }
  }

  lemma PlanMember(plan: seq<SocketAddr>, f: seq<SocketAddr>, s: seq<SocketAddr>, i: nat)
    requires Alternates(plan, f, s) && i < |plan|
    ensures plan[i] in f || plan[i] in s
  {
    var inFirst, k := PlanSlot(plan, f, s, i);
    if inFirst {
      assert f[k] in f;
    } else {
      assert s[k] in s;
    }
  }

  lemma FirstInPlan(plan: seq<SocketAddr>, f: seq<SocketAddr>, s: seq<SocketAddr>, k: nat)
    requires Alternates(plan, f, s) && k < |f|
    ensures f[k] in plan
  {
    assert plan[FirstSlot(k, |s|)] == f[k];
  }

  lemma SecondInPlan(plan: seq<SocketAddr>, f: seq<SocketAddr>, s: seq<SocketAddr>, k: nat)
    requires Alternates(plan, f, s) && k < |s|
    ensures s[k] in plan
  {
    assert plan[SecondSlot(k, |f|)] == s[k];
  }

  lemma AlternatesMembers(plan: seq<SocketAddr>, f: seq<SocketAddr>, s: seq<SocketAddr>)
    requires Alternates(plan, f, s)
    ensures forall x :: x in plan <==> x in f || x in s
  {
    forall i | 0 <= i < |plan|
      ensures plan[i] in f || plan[i] in s
    {
      PlanMember(plan, f, s, i);
    }
    forall k | 0 <= k < |f|
      ensures f[k] in plan
    {
      FirstInPlan(plan, f, s, k);
    }
    forall k | 0 <= k < |s|
      ensures s[k] in plan
    {
      SecondInPlan(plan, f, s, k);
    }
  }

  lemma AlternatesNoRepeats(plan: seq<SocketAddr>, f: seq<SocketAddr>, s: seq<SocketAddr>, i: nat, j: nat)
    requires Alternates(plan, f, s) && NoRepeats(f) && NoRepeats(s) && i < j < |plan|
    requires forall x :: x in f ==> x !in s
    ensures plan[i] != plan[j]
  {
    var a, k := PlanSlot(plan, f, s, i);
    var b, m := PlanSlot(plan, f, s, j);
    assert a && !b ==> f[k] in f && s[m] in s;
    assert !a && b ==> f[m] in f && s[k] in s;
  }

  /** What a plan is: every allowed address once, nothing else, each family in the resolver's order. */
  lemma PlanIsExact(addresses: seq<SocketAddr>, mode: DialPolicy, first: AddressFamily, plan: seq<SocketAddr>)
    requires Alternates(plan, Distinct(addresses, mode, first), Distinct(addresses, mode, first.Alternate()))
    ensures forall x :: x in plan <==> x in addresses && mode.Allows(x.Family())
    ensures NoRepeats(plan)
    ensures plan != [] && (exists x :: x in addresses && Wanted(x, mode, first)) ==> plan[0].Family() == first
  {
    var f, s := Distinct(addresses, mode, first), Distinct(addresses, mode, first.Alternate());
    FirstsMembers(addresses, mode, first, |addresses|);
    FirstsMembers(addresses, mode, first.Alternate(), |addresses|);
    assert addresses[..|addresses|] == addresses;
    AlternatesMembers(plan, f, s);
    forall x
      ensures x in plan <==> x in addresses && mode.Allows(x.Family())
    {
      assert Wanted(x, mode, first) || Wanted(x, mode, first.Alternate()) <==> mode.Allows(x.Family());
    }
    forall i, j | 0 <= i < j < |plan|
      ensures plan[i] != plan[j]
    {
      AlternatesNoRepeats(plan, f, s, i, j);
    }
    if f != [] {
      assert plan[FirstSlot(0, |s|)] == f[0];
      assert f[0] in f;
    }
  }

  /** As long as both families last, neighbours in the plan are of different families. */
  lemma PlanAlternates(addresses: seq<SocketAddr>, mode: DialPolicy, first: AddressFamily,
                       plan: seq<SocketAddr>, i: nat)
    requires Alternates(plan, Distinct(addresses, mode, first), Distinct(addresses, mode, first.Alternate()))
    requires i < 2 * Min(|Distinct(addresses, mode, first)|, |Distinct(addresses, mode, first.Alternate())|)
    ensures plan[i].Family() == if i % 2 == 0 then first else first.Alternate()
  {
    var f, s := Distinct(addresses, mode, first), Distinct(addresses, mode, first.Alternate());
    FirstsMembers(addresses, mode, first, |addresses|);
    FirstsMembers(addresses, mode, first.Alternate(), |addresses|);
    if i % 2 == 0 {
      assert plan[FirstSlot(i / 2, |s|)] == f[i / 2];
      assert f[i / 2] in f;
    } else {
      assert plan[SecondSlot(i / 2, |f|)] == s[i / 2];
      assert s[i / 2] in s;
    }
  }

  // ---- The loops ----

  /** Advances to the next allowed address of the family that the plan does not hold yet. */
  method NextUniqueFamily(addresses: seq<SocketAddr>, from: nat, family: AddressFamily, mode: DialPolicy,
                          ordered: seq<SocketAddr>)
    returns (found: Option<SocketAddr>, index: nat)
    requires from <= |addresses|
    ensures from <= index <= |addresses|
    ensures found.None? ==>
              && index == |addresses|
              && forall k :: from <= k < index && Wanted(addresses[k], mode, family) ==> addresses[k] in ordered
    ensures found.Some? ==>
              && from < index && found.value == addresses[index - 1]
              && Wanted(found.value, mode, family) && found.value !in ordered
              && forall k :: from <= k < index - 1 && Wanted(addresses[k], mode, family) ==> addresses[k] in ordered
  {
    index := from;
    while index < |addresses|
      invariant from <= index <= |addresses|
      invariant forall k :: from <= k < index && Wanted(addresses[k], mode, family) ==> addresses[k] in ordered
    {
      var address := addresses[index];
      index := index + 1;
      if mode.Allows(address.Family()) && address.Family() == family && address !in ordered {
        return Some(address), index;
      }
    }
    found := None;
  }

  /** Which addresses of the family a partial plan already holds. */
  ghost predicate Holds(ordered: seq<SocketAddr>, mode: DialPolicy, family: AddressFamily, firsts: seq<SocketAddr>) {
    forall x :: Wanted(x, mode, family) ==> (x in ordered <==> x in firsts)
  }

  lemma PlanHolds(addresses: seq<SocketAddr>, mode: DialPolicy, first: AddressFamily, i: nat, j: nat,
                  ordered: seq<SocketAddr>)
    requires i <= |addresses| && j <= |addresses|
    requires Alternates(ordered, Firsts(addresses, mode, first, i), Firsts(addresses, mode, first.Alternate(), j))
    ensures Holds(ordered, mode, first, Firsts(addresses, mode, first, i))
    ensures Holds(ordered, mode, first.Alternate(), Firsts(addresses, mode, first.Alternate(), j))
  {
    var f, s := Firsts(addresses, mode, first, i), Firsts(addresses, mode, first.Alternate(), j);
    FirstsMembers(addresses, mode, first, i);
    FirstsMembers(addresses, mode, first.Alternate(), j);
    AlternatesMembers(ordered, f, s);
  }

  /** What `NextUniqueFamily` found is what the next distinct address of the family is. */
  ghost predicate Next(addresses: seq<SocketAddr>, mode: DialPolicy, family: AddressFamily, from: nat, to: nat,
                       found: Option<SocketAddr>)
    requires from <= |addresses|
  {
    && to <= |addresses|
    && Firsts(addresses, mode, family, to) ==
       Firsts(addresses, mode, family, from) + (if found.Some? then [found.value] else [])
    && (found.None? ==> to == |addresses|)
    && (found.Some? ==> from < to)
  }

  method NextOfFamily(addresses: seq<SocketAddr>, mode: DialPolicy, family: AddressFamily, from: nat,
                      ordered: seq<SocketAddr>)
    returns (found: Option<SocketAddr>, index: nat)
    requires from <= |addresses|
    requires Holds(ordered, mode, family, Firsts(addresses, mode, family, from))
    ensures Next(addresses, mode, family, from, index, found)
  {
    found, index := NextUniqueFamily(addresses, from, family, mode, ordered);
    FirstsSkip(addresses, mode, family, from, if found.Some? then index - 1 else index);
  }

  function Pushed(ordered: seq<SocketAddr>, found: Option<SocketAddr>): seq<SocketAddr> {
    if found.Some? then ordered + [found.value] else ordered
  }

  lemma TurnOfFirst(addresses: seq<SocketAddr>, mode: DialPolicy, first: AddressFamily, i: nat, next: nat,
                    s: seq<SocketAddr>, ordered: seq<SocketAddr>, found: Option<SocketAddr>)
    requires i <= |addresses| && Next(addresses, mode, first, i, next, found)
    requires Alternates(ordered, Firsts(addresses, mode, first, i), s)
    requires found.Some? ==> |Firsts(addresses, mode, first, i)| >= |s|
    ensures Alternates(Pushed(ordered, found), Firsts(addresses, mode, first, next), s)
  {
    if found.Some? {
      PushFirst(ordered, Firsts(addresses, mode, first, i), s, found.value);
    } else {
      assert Firsts(addresses, mode, first, next) == Firsts(addresses, mode, first, i);
    }
  }

  lemma TurnOfSecond(addresses: seq<SocketAddr>, mode: DialPolicy, second: AddressFamily, j: nat, next: nat,
                     f: seq<SocketAddr>, ordered: seq<SocketAddr>, found: Option<SocketAddr>)
    requires j <= |addresses| && Next(addresses, mode, second, j, next, found)
    requires Alternates(ordered, f, Firsts(addresses, mode, second, j))
    requires found.Some? ==> |Firsts(addresses, mode, second, j)| + 1 >= |f|
    ensures Alternates(Pushed(ordered, found), f, Firsts(addresses, mode, second, next))
  {
    if found.Some? {
      PushSecond(ordered, f, Firsts(addresses, mode, second, j), found.value);
    } else {
      assert Firsts(addresses, mode, second, next) == Firsts(addresses, mode, second, j);
    }
  }

  /** The planned order for a chosen first family. */
  method Arrange(addresses: seq<SocketAddr>, mode: DialPolicy, first: AddressFamily)
    returns (ordered: seq<SocketAddr>)
    ensures Alternates(ordered, Distinct(addresses, mode, first), Distinct(addresses, mode, first.Alternate()))
  {
    var second := first.Alternate();
    ordered := [];
    var i, j := 0, 0;
    ghost var f, s := Firsts(addresses, mode, first, i), Firsts(addresses, mode, second, j);
    while true
      invariant 0 <= i <= |addresses| && 0 <= j <= |addresses|
      invariant f == Firsts(addresses, mode, first, i) && s == Firsts(addresses, mode, second, j)
      invariant Alternates(ordered, f, s)
      invariant i == |addresses| || |f| >= |s|
      invariant j == |addresses| || |s| >= |f|
      decreases 2 * |addresses| - i - j
    {
      PlanHolds(addresses, mode, first, i, j, ordered);
      var a, nextI := NextOfFamily(addresses, mode, first, i, ordered);
      TurnOfFirst(addresses, mode, first, i, nextI, s, ordered, a);
      f := Firsts(addresses, mode, first, nextI);
      if a.Some? {
        ordered := ordered + [a.value];
      }
      PlanHolds(addresses, mode, first, nextI, j, ordered);
      var b, nextJ := NextOfFamily(addresses, mode, second, j, ordered);
      TurnOfSecond(addresses, mode, second, j, nextJ, f, ordered, b);
      s := Firsts(addresses, mode, second, nextJ);
      if b.Some? {
        ordered := ordered + [b.value];
      }
      i, j := nextI, nextJ;
      if a.None? && b.None? {
        break;
      }
    }
  }

  class ConnectionPlanner {
    const mode: DialPolicy
    const penalty: nat
    const environment: Health.NetworkEnvironment

    constructor (mode: DialPolicy, penalty: nat, environment: Health.NetworkEnvironment)
      ensures this.mode == mode && this.penalty == penalty && this.environment == environment
    {
      this.mode, this.penalty, this.environment := mode, penalty, environment;
    }

    /** The dial order; only a choice between two usable families asks, and may move, the shared health. */
    method PlanAt(addresses: seq<SocketAddr>, now: nat) returns (plan: seq<SocketAddr>)
      modifies environment
      ensures forall x :: x in plan <==> x in addresses && mode.Allows(x.Family())
      ensures NoRepeats(plan)
      ensures (exists a, b :: a in plan && b in plan && a.V4? && b.V6?) ==>
                && plan[0].Family() == Health.FirstFamily(old(environment.View()), now)
                && environment.View() == Health.Step(old(environment.View()), Health.Planned(now, penalty))
                && Alternates(plan, Distinct(addresses, mode, plan[0].Family()),
                              Distinct(addresses, mode, plan[0].Family().Alternate()))
      ensures !(exists a, b :: a in plan && b in plan && a.V4? && b.V6?) ==>
                && environment.View() == old(environment.View())
                && (plan == Distinct(addresses, mode, Ipv4) || plan == Distinct(addresses, mode, Ipv6))
    {
      var has4 := mode.Allows(Ipv4) && exists x :: x in addresses && x.V4?;
      var has6 := mode.Allows(Ipv6) && exists x :: x in addresses && x.V6?;
      var first := if has4 then AddressFamily.Ipv4 else AddressFamily.Ipv6;
      if has4 && has6 {
        first := environment.PreferredFamilyAt(now, penalty);
      }
      plan := Arrange(addresses, mode, first);
      PlanIsExact(addresses, mode, first, plan);
      if has4 && has6 {
        assert exists x :: x in addresses && Wanted(x, mode, first);
      } else {
        OneFamilyPlan(addresses, mode, first, plan);
      }
    }
  }

  /** With one family only, the plan is that family's distinct addresses. */
  lemma OneFamilyPlan(addresses: seq<SocketAddr>, mode: DialPolicy, first: AddressFamily, plan: seq<SocketAddr>)
    requires Alternates(plan, Distinct(addresses, mode, first), Distinct(addresses, mode, first.Alternate()))
    requires forall x :: x in addresses ==> !Wanted(x, mode, first.Alternate())
    ensures plan == Distinct(addresses, mode, first)
  {
    var f, s := Distinct(addresses, mode, first), Distinct(addresses, mode, first.Alternate());
    FirstsSkip(addresses, mode, first.Alternate(), 0, |addresses|);
    forall k | 0 <= k < |f|
      ensures plan[k] == f[k]
    {
      assert plan[FirstSlot(k, |s|)] == f[k];
    }
  }
}
