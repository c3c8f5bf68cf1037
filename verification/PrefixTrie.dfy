/** Fixed-width binary numerals, most significant bit first. */
module Bits {
  import opened Words

  function Pow2(n: nat): (p: nat)
    ensures p >= 1
  {
    if n == 0 then 1 else 2 * Pow2(n - 1)
  }

  /** Bit `offset` of a `width`-bit value, counted from the top. */
  predicate Bit(value: nat, width: nat, offset: nat)
    requires offset < width
  {
    value / Pow2(width - offset - 1) % 2 != 0
  }

  function BitsOf(value: nat, width: nat): (bits: seq<bool>)
    ensures |bits| == width
  {
    seq(width, offset requires 0 <= offset < width => Bit(value, width, offset))
  }

  /** The two values agree on their top `prefix` bits. */
  predicate AgreeTop(a: nat, b: nat, width: nat, prefix: nat)
    requires prefix <= width
  {
    a / Pow2(width - prefix) == b / Pow2(width - prefix)
  }

  lemma DivDiv(a: nat, b: nat)
    requires b >= 1
    ensures a / (2 * b) == a / b / 2
  {
    var q := a / b / 2;
    DivAtLeast(q, 2 * b, a);
    DivAtLeast(2 * q, b, a);
    DivAtLeast(q + 1, 2 * b, a);
    DivAtLeast(2 * q + 2, b, a);
    assert q * (2 * b) == 2 * q * b;
    assert (q + 1) * (2 * b) == (2 * q + 2) * b;
  }

  lemma TopBitsStep(a: nat, width: nat, prefix: nat)
    requires prefix < width
    ensures a / Pow2(width - prefix - 1) == 2 * (a / Pow2(width - prefix)) + (if Bit(a, width, prefix) then 1 else 0)
  {
    DivDiv(a, Pow2(width - prefix - 1));
  }

  lemma BitsSnoc(a: nat, width: nat, prefix: nat)
    requires prefix < width
    ensures BitsOf(a, width)[..prefix + 1] == BitsOf(a, width)[..prefix] + [Bit(a, width, prefix)]
  {
  }

  lemma SnocEqual<T>(xs: seq<T>, x: T, ys: seq<T>, y: T)
    ensures xs + [x] == ys + [y] <==> xs == ys && x == y
  {
    assert (xs + [x])[..|xs|] == xs && (ys + [y])[..|ys|] == ys;
    assert (xs + [x])[|xs|] == x && (ys + [y])[|ys|] == y;
    assert |xs + [x]| == |xs| + 1 && |ys + [y]| == |ys| + 1;
  }

  lemma AgreeTopStep(a: nat, b: nat, width: nat, prefix: nat)
    requires prefix < width
    ensures AgreeTop(a, b, width, prefix + 1) <==>
            AgreeTop(a, b, width, prefix) && Bit(a, width, prefix) == Bit(b, width, prefix)
  {
    TopBitsStep(a, width, prefix);
    TopBitsStep(b, width, prefix);
  }

  lemma PrefixStep(a: nat, b: nat, width: nat, prefix: nat)
    requires prefix < width
    ensures BitsOf(a, width)[..prefix + 1] == BitsOf(b, width)[..prefix + 1]
       <==> BitsOf(a, width)[..prefix] == BitsOf(b, width)[..prefix] && Bit(a, width, prefix) == Bit(b, width, prefix)
  {
    BitsSnoc(a, width, prefix);
    BitsSnoc(b, width, prefix);
    SnocEqual(BitsOf(a, width)[..prefix], Bit(a, width, prefix), BitsOf(b, width)[..prefix], Bit(b, width, prefix));
  }

  lemma AgreeOnNothing(a: nat, b: nat, width: nat)
    requires a < Pow2(width) && b < Pow2(width)
    ensures AgreeTop(a, b, width, 0)
  {
    SmallDiv(a, Pow2(width));
    SmallDiv(b, Pow2(width));
  }

  /** Equal prefixes of the numerals are equal leading bits of the numbers. */
  lemma {:induction false} PrefixIsTopBits(a: nat, b: nat, width: nat, prefix: nat)
    requires a < Pow2(width) && b < Pow2(width) && prefix <= width
    ensures BitsOf(a, width)[..prefix] == BitsOf(b, width)[..prefix] <==> AgreeTop(a, b, width, prefix)
    decreases prefix
  {
    if prefix == 0 {
      AgreeOnNothing(a, b, width);
    } else {
      var p: nat := prefix - 1;
      assert p + 1 == prefix;
      PrefixIsTopBits(a, b, width, p);
      AgreeTopStep(a, b, width, p);
      PrefixStep(a, b, width, p);
    }
  }
}

/** The arena-allocated binary prefix trie of CIDR blocks. */
module PrefixTrie {
  import opened Words
  import opened Wrappers
  import opened Bits

  datatype Inserted = Stored | TooManyNetworks

  datatype Node = Node(zero: Option<nat>, one: Option<nat>, terminal: bool) {
    function Child(branch: bool): Option<nat> { if branch then one else zero }
    function WithChild(branch: bool, child: nat): Node {
      if branch then this.(one := Some(child)) else this.(zero := Some(child))
    }
  }

  const LEAF := Node(None, None, false)

  /** An inserted network: the top `prefix` bits of `value`. */
  datatype Block = Block(value: nat, prefix: nat)

  predicate Fits(block: Block, width: nat) { block.value < Pow2(width) && block.prefix <= width }

  function PathOf(block: Block, width: nat): seq<bool> {
    BitsOf(block.value, width)[..Min(block.prefix, width)]
  }

  predicate Matches(block: Block, width: nat, value: nat) {
    block.prefix <= width && AgreeTop(block.value, value, width, block.prefix)
  }

  /** The reference: a linear scan over the blocks. */
  ghost predicate Covers(blocks: seq<Block>, width: nat, value: nat) {
    exists b :: b in blocks && Matches(b, width, value)
  }

  /** The bit strings that lead to nodes: distinct, prefix-closed, the root first. */
  ghost predicate Closed(paths: seq<seq<bool>>) {
    && |paths| >= 1
    && paths[0] == []
    && (forall i, j :: 0 <= i < j < |paths| ==> paths[i] != paths[j])
    && (forall i, m :: 0 <= i < |paths| && 0 <= m <= |paths[i]| ==> paths[i][..m] in paths)
  }

  /** A child link leads to the extended bit string, and is absent only if no node has it. */
  ghost predicate Linked(nodes: seq<Node>, paths: seq<seq<bool>>) {
    && |nodes| == |paths|
    && Closed(paths)
    && (forall i, branch :: 0 <= i < |nodes| ==> LinkedAt(nodes[i].Child(branch), paths, paths[i] + [branch]))
  }

  ghost predicate LinkedAt(child: Option<nat>, paths: seq<seq<bool>>, path: seq<bool>) {
    match child
    case Some(j) => j < |paths| && paths[j] == path
    case None => path !in paths
  }

  /** A node is terminal exactly when some block ends there. */
  ghost predicate Marked(nodes: seq<Node>, paths: seq<seq<bool>>, ends: set<seq<bool>>) {
    && |nodes| == |paths|
    && (forall i :: 0 <= i < |nodes| ==> (nodes[i].terminal <==> paths[i] in ends))
    && (forall end :: end in ends ==> end in paths)
  }

  lemma PathsPrefixClosed(paths: seq<seq<bool>>, path: seq<bool>, m: nat)
    requires Closed(paths) && m <= |path|
    ensures path in paths ==> path[..m] in paths
  {
    if path in paths {
      var i :| 0 <= i < |paths| && paths[i] == path;
      assert paths[i][..m] in paths;
    }
  }

  lemma GrowKeepsClosed(paths: seq<seq<bool>>, at: nat, branch: bool)
    requires Closed(paths) && at < |paths| && paths[at] + [branch] !in paths
    ensures Closed(paths + [paths[at] + [branch]])
  {
    var leaf := paths[at] + [branch];
    var paths' := paths + [leaf];
    forall i, m | 0 <= i < |paths'| && 0 <= m <= |paths'[i]|
      ensures paths'[i][..m] in paths'
    {
      if i < |paths| {
        assert paths[i][..m] in paths;
      } else if m < |leaf| {
        assert leaf[..m] == paths[at][..m];
      } else {
        assert leaf[..m] == leaf == paths'[|paths|];
      }
    }
  }

  /** Grow the trie by one leaf below node `at`. */
  lemma GrowKeepsLinked(nodes: seq<Node>, paths: seq<seq<bool>>, at: nat, branch: bool)
    requires Linked(nodes, paths) && at < |nodes| && nodes[at].Child(branch).None?
    ensures Linked((nodes + [LEAF])[at := nodes[at].WithChild(branch, |nodes|)], paths + [paths[at] + [branch]])
  {
    var nodes' := (nodes + [LEAF])[at := nodes[at].WithChild(branch, |nodes|)];
    var leaf := paths[at] + [branch];
    var paths' := paths + [leaf];
    assert LinkedAt(nodes[at].Child(branch), paths, leaf);
    GrowKeepsClosed(paths, at, branch);
    forall i, b | 0 <= i < |nodes'|
      ensures LinkedAt(nodes'[i].Child(b), paths', paths'[i] + [b])
    {
      if i == |nodes| {
        assert (leaf + [b])[..|leaf|] == leaf;
        PathsPrefixClosed(paths, leaf + [b], |leaf|);
      } else {
        assert LinkedAt(nodes[i].Child(b), paths, paths[i] + [b]);
        SnocEqual(paths[i], b, paths[at], branch);
      }
    }
  }

  lemma GrowKeepsMarked(nodes: seq<Node>, paths: seq<seq<bool>>, ends: set<seq<bool>>, at: nat, branch: bool)
    requires Linked(nodes, paths) && Marked(nodes, paths, ends)
    requires at < |nodes| && nodes[at].Child(branch).None?
    ensures Marked((nodes + [LEAF])[at := nodes[at].WithChild(branch, |nodes|)], paths + [paths[at] + [branch]], ends)
  {
  }

  lemma MarkKeeps(nodes: seq<Node>, paths: seq<seq<bool>>, ends: set<seq<bool>>, at: nat)
    requires Linked(nodes, paths) && Marked(nodes, paths, ends) && at < |nodes|
    ensures Linked(nodes[at := nodes[at].(terminal := true)], paths)
    ensures Marked(nodes[at := nodes[at].(terminal := true)], paths, ends + {paths[at]})
  {
    var nodes' := nodes[at := nodes[at].(terminal := true)];
    forall i, b | 0 <= i < |nodes'|
      ensures LinkedAt(nodes'[i].Child(b), paths, paths[i] + [b])
    {
      assert LinkedAt(nodes[i].Child(b), paths, paths[i] + [b]);
    }
  }

  ghost function Ends(blocks: seq<Block>, width: nat): set<seq<bool>> {
    set b | b in blocks :: PathOf(b, width)
  }

  lemma EndsSnoc(blocks: seq<Block>, b: Block, width: nat)
    ensures Ends(blocks + [b], width) == Ends(blocks, width) + {PathOf(b, width)}
  {
    forall x | x in blocks + [b]
      ensures x in blocks || x == b
    {
    }
    assert b in blocks + [b];
  }

  /** Some prefix of `bits` of at least `from` bits is the end of a block. */
  ghost predicate Hit(bits: seq<bool>, ends: set<seq<bool>>, from: nat) {
    exists m :: from <= m <= |bits| && bits[..m] in ends
  }

  lemma HitStep(bits: seq<bool>, ends: set<seq<bool>>, from: nat)
    requires from <= |bits|
    ensures Hit(bits, ends, from) <==> bits[..from] in ends || Hit(bits, ends, from + 1)
  {
    if m :| from <= m <= |bits| && bits[..m] in ends && m != from {
      assert Hit(bits, ends, from + 1);
    }
  }

  /** The scan agrees with: some prefix of the value's bits is the end of a block. */
  lemma CoversByPrefix(blocks: seq<Block>, width: nat, value: nat)
    requires (forall b :: b in blocks ==> Fits(b, width)) && value < Pow2(width)
    ensures Covers(blocks, width, value) <==> Hit(BitsOf(value, width), Ends(blocks, width), 0)
  {
    var bits := BitsOf(value, width);
    forall b | b in blocks
      ensures Matches(b, width, value) <==> PathOf(b, width) == bits[..b.prefix]
    {
      PrefixIsTopBits(b.value, value, width, b.prefix);
    }
    if Covers(blocks, width, value) {
      var b :| b in blocks && Matches(b, width, value);
      assert bits[..b.prefix] in Ends(blocks, width);
    }
    if m :| 0 <= m <= width && bits[..m] in Ends(blocks, width) {
      var b :| b in blocks && PathOf(b, width) == bits[..m];
      assert |PathOf(b, width)| == b.prefix;
    }
  }

  lemma NothingBelow(paths: seq<seq<bool>>, ends: set<seq<bool>>, bits: seq<bool>, from: nat)
    requires Closed(paths) && from <= |bits| && bits[..from] !in paths
    requires forall end :: end in ends ==> end in paths
    ensures !Hit(bits, ends, from)
  {
    forall m | from <= m <= |bits|
      ensures bits[..m] !in ends
    {
      PathsPrefixClosed(paths, bits[..m], from);
      assert bits[..m][..from] == bits[..from];
    }
  }

  // ---- How many nodes a set of blocks needs ----

  /** The root and every prefix of an end: the nodes a trie of these ends has. */
  ghost function Prefixes(ends: set<seq<bool>>): set<seq<bool>> {
    {[]} + (set end, m | end in ends && 0 <= m <= |end| :: end[..m])
  }

  ghost predicate Within(paths: seq<seq<bool>>, all: set<seq<bool>>) {
    forall path :: path in paths ==> path in all
  }

  lemma PrefixesGrow(ends: set<seq<bool>>, more: set<seq<bool>>)
    requires ends <= more
    ensures Prefixes(ends) <= Prefixes(more)
  {
    forall path | path in Prefixes(ends)
      ensures path in Prefixes(more)
    {
      if path != [] {
        var end, m :| end in ends && 0 <= m <= |end| && path == end[..m];
        assert end[..m] in Prefixes(more);
      }
    }
  }

  /** Distinct paths within a set are at most as many as the set. */
  lemma {:induction false} DistinctFit(paths: seq<seq<bool>>, all: set<seq<bool>>)
    requires Within(paths, all) && forall i, j :: 0 <= i < j < |paths| ==> paths[i] != paths[j]
    ensures |paths| <= |all|
    decreases paths
  {
    if paths == [] {
    } else {
      var n := |paths| - 1;
      forall path | path in paths[..n]
        ensures path in all - {paths[n]}
      {
        var i :| 0 <= i < n && paths[i] == path;
      }
      assert paths[n] in all;
      DistinctFit(paths[..n], all - {paths[n]});
    }
  }

  /** Paths that are distinct and cover a set are at least as many as the set. */
  lemma {:induction false} CoverFits(paths: seq<seq<bool>>, all: set<seq<bool>>)
    requires forall path :: path in all ==> path in paths
    ensures |all| <= |paths|
    decreases paths
  {
    if paths == [] {
      assert all == {};
    } else {
      var n := |paths| - 1;
      forall path | path in all - {paths[n]}
        ensures path in paths[..n]
      {
        var i :| 0 <= i < |paths| && paths[i] == path;
        assert paths[..n][i] == path;
      }
      CoverFits(paths[..n], all - {paths[n]});
    }
  }

  /** A trie whose nodes are all prefixes of its ends has exactly one node for each. */
  lemma NodeCount(nodes: seq<Node>, paths: seq<seq<bool>>, ends: set<seq<bool>>)
    requires Linked(nodes, paths) && Marked(nodes, paths, ends) && Within(paths, Prefixes(ends))
    ensures |nodes| == |Prefixes(ends)|
  {
    DistinctFit(paths, Prefixes(ends));
    forall path | path in Prefixes(ends)
      ensures path in paths
    {
      if path == [] {
        assert paths[0] == [];
      } else {
        var end, m :| end in ends && 0 <= m <= |end| && path == end[..m];
        PathsPrefixClosed(paths, end, m);
      }
    }
    CoverFits(paths, Prefixes(ends));
  }

  /** A missing prefix shows that there are fewer paths than prefixes. */
  lemma MissingPrefix(paths: seq<seq<bool>>, all: set<seq<bool>>, path: seq<bool>)
    requires Closed(paths) && Within(paths, all) && path in all && path !in paths
    ensures |paths| < |all|
  {
    DistinctFit(paths, all - {path});
  }

  lemma PrefixOfEnd(ends: set<seq<bool>>, end: seq<bool>, m: nat)
    requires end in ends && m <= |end|
    ensures end[..m] in Prefixes(ends)
  {
  }

  /** The first m bits of the path lead to a node in the set. */
  ghost predicate Leads(path: seq<bool>, m: nat, nodes: set<seq<bool>>) { m <= |path| && path[..m] in nodes }

  lemma StepLeads(path: seq<bool>, m: nat, nodes: set<seq<bool>>)
    requires m < |path| && Leads(path, m + 1, nodes)
    ensures path[..m + 1] == path[..m] + [path[m]] && path[..m] + [path[m]] in nodes
  {
    assert path[..m + 1] == path[..m] + [path[m]];
  }

  /** The nodes needed with one block more include those needed before and the block's own. */
  lemma NewGoal(blocks: seq<Block>, block: Block, width: nat)
    ensures var goal := Prefixes(Ends(blocks + [block], width));
            && Prefixes(Ends(blocks, width)) <= goal
            && forall m :: 0 <= m <= |PathOf(block, width)| ==> Leads(PathOf(block, width), m, goal)
  {
    EndsSnoc(blocks, block, width);
    PrefixesGrow(Ends(blocks, width), Ends(blocks + [block], width));
    forall m | 0 <= m <= |PathOf(block, width)|
      ensures Leads(PathOf(block, width), m, Prefixes(Ends(blocks + [block], width)))
    {
      PrefixOfEnd(Ends(blocks + [block], width), PathOf(block, width), m);
    }
  }

  ghost function OwnPrefixes(end: seq<bool>): set<seq<bool>> {
    set m | 1 <= m <= |end| :: end[..m]
  }

  lemma {:induction false} OwnPrefixCount(end: seq<bool>)
    ensures |OwnPrefixes(end)| <= |end|
  {
    if end == [] {
      assert OwnPrefixes(end) == {};
    } else {
      var front := end[..|end| - 1];
      OwnPrefixCount(front);
      forall path | path in OwnPrefixes(end)
        ensures path in OwnPrefixes(front) + {end}
      {
        var m :| 1 <= m <= |end| && path == end[..m];
        if m < |end| {
          assert front[..m] == path;
        } else {
          assert path == end;
        }
      }
      SubsetSize(OwnPrefixes(end), OwnPrefixes(front) + {end});
    }
  }

  lemma {:induction false} SubsetSize(a: set<seq<bool>>, b: set<seq<bool>>)
    requires a <= b
    ensures |a| <= |b|
    decreases b
  {
    if b == {} {
    } else {
      var x :| x in b;
      SubsetSize(a - {x}, b - {x});
      assert x in a ==> |a - {x}| == |a| - 1;
      assert x !in a ==> a - {x} == a;
    }
  }

  /** One end more needs at most its own length in nodes. */
  lemma PrefixesOfOneMore(ends: set<seq<bool>>, end: seq<bool>)
    ensures |Prefixes(ends + {end})| <= |Prefixes(ends)| + |end|
  {
    forall path | path in Prefixes(ends + {end})
      ensures path in Prefixes(ends) + OwnPrefixes(end)
    {
      if path != [] {
        var e, m :| e in ends + {end} && 0 <= m <= |e| && path == e[..m];
        if e in ends {
          PrefixOfEnd(ends, e, m);
        }
      }
    }
    SubsetSize(Prefixes(ends + {end}), Prefixes(ends) + OwnPrefixes(end));
    OwnPrefixCount(end);
    UnionSize(Prefixes(ends), OwnPrefixes(end));
  }

  lemma UnionSize(a: set<seq<bool>>, b: set<seq<bool>>)
    ensures |a + b| <= |a| + |b|
  {
    assert a + b == a + (b - a);
    SubsetSize(b - a, b);
  }

  /** The most nodes an arena with 32-bit node numbers holds. */
  const MAX_NODES: nat := 0x1_0000_0000

  class Trie {
    const width: nat
    var nodes: seq<Node>
    ghost var paths: seq<seq<bool>>
    ghost var blocks: seq<Block>

    ghost predicate Valid()
      reads this
    {
      && (forall b :: b in blocks ==> Fits(b, width))
      && Linked(nodes, paths)
      && Marked(nodes, paths, Ends(blocks, width))
      && |nodes| <= MAX_NODES
    }

    /** No node but for the blocks: a refused insert alone leaves others. */
    ghost predicate Exact()
      reads this
    {
      Within(paths, Prefixes(Ends(blocks, width)))
    }

    constructor (width: nat)
      ensures Valid() && Exact() && this.width == width && blocks == [] && |nodes| == 1
    {
      this.width := width;
      nodes, paths, blocks := [LEAF], [[]], [];
    }

    /** Pushes a fresh leaf and links it below `at`. */
    method Grow(at: nat, branch: bool) returns (child: nat)
      requires Valid() && at < |nodes| < MAX_NODES && nodes[at].Child(branch).None?
      modifies `nodes, `paths
      ensures Valid() && child < |nodes| == old(|nodes|) + 1
      ensures paths == old(paths) + [old(paths[at]) + [branch]] && child == old(|nodes|)
    {
      child := |nodes|;
      GrowKeepsLinked(nodes, paths, at, branch);
      GrowKeepsMarked(nodes, paths, Ends(blocks, width), at, branch);
      nodes := (nodes + [LEAF])[at := nodes[at].WithChild(branch, child)];
      paths := paths + [paths[at] + [branch]];
    }

    /** One step down, growing a leaf if there is none; only an arena that is full prevents it. */
    method Descend(at: nat, branch: bool, ghost goal: set<seq<bool>>) returns (child: Option<nat>)
      requires Valid() && at < |nodes| && paths[at] + [branch] in goal
      modifies `nodes, `paths
      ensures Valid() && |nodes| <= old(|nodes|) + 1
      ensures child.Some? ==> child.value < |nodes| && paths[child.value] == old(paths[at]) + [branch]
      ensures child.None? ==> |nodes| == old(|nodes|) == MAX_NODES
      ensures old(Within(paths, goal)) ==> Within(paths, goal) && (child.None? ==> |nodes| < |goal|)
    {
      assert LinkedAt(nodes[at].Child(branch), paths, paths[at] + [branch]);
      if nodes[at].Child(branch).Some? {
        return nodes[at].Child(branch);
      }
      if |nodes| > U32_MAX {
        if Within(paths, goal) {
          MissingPrefix(paths, goal, paths[at] + [branch]);
        }
        return None;
      }
      var grown := Grow(at, branch);
      child := Some(grown);
    }

    /** Follows the path of a block from the root, growing what is missing. */
    method Walk(value: nat, prefix: nat, ghost path: seq<bool>, ghost goal: set<seq<bool>>) returns (end: Option<nat>)
      requires Valid() && prefix == |path| <= width
      requires forall i :: 0 <= i < prefix ==> path[i] == Bit(value, width, i)
      requires forall m :: 0 <= m <= prefix ==> Leads(path, m, goal)
      modifies `nodes, `paths
      ensures Valid()
      ensures end.Some? ==> end.value < |nodes| <= old(|nodes|) + prefix && paths[end.value] == path
      ensures end.None? ==> U32_MAX < |nodes| < old(|nodes|) + prefix
      ensures old(Within(paths, goal)) ==> Within(paths, goal) && (end.None? ==> MAX_NODES < |goal|)
    {
      var at := 0;
      var offset := 0;
      while offset < prefix
        invariant 0 <= offset <= prefix && 0 <= at < |nodes|
        invariant Valid() && |nodes| <= old(|nodes|) + offset
        invariant paths[at] == path[..offset]
        invariant old(Within(paths, goal)) ==> Within(paths, goal)
      {
        var branch := Bit(value, width, offset);
        StepLeads(path, offset, goal);
        var child := Descend(at, branch, goal);
        if child.None? {
          return None;
        }
        at := child.value;
        offset := offset + 1;
      }
      assert path[..prefix] == path;
      return Some(at);
    }

    /** Adds one block with at most `prefix` new nodes.  An exact trie refuses it exactly when the blocks need
        more nodes than there are numbers; a refusal leaves the covered set as it was. */
    method Insert(value: nat, prefix: nat) returns (r: Inserted)
      requires Valid() && Fits(Block(value, prefix), width)
      modifies this
      ensures Valid()
      ensures r == Stored ==> blocks == old(blocks) + [Block(value, prefix)] && |nodes| <= old(|nodes|) + prefix
      ensures r == TooManyNetworks ==> blocks == old(blocks) && U32_MAX < |nodes| < old(|nodes|) + prefix
      ensures old(Exact()) ==>
                (r == Stored <==> |Prefixes(Ends(old(blocks) + [Block(value, prefix)], width))| <= MAX_NODES)
      ensures old(Exact()) && r == Stored ==> Exact()
    {
      ghost var block := Block(value, prefix);
      NewGoal(blocks, block, width);
      var at := Walk(value, prefix, PathOf(block, width), Prefixes(Ends(blocks + [block], width)));
      if at.None? {
        return TooManyNetworks;
      }
      Finish(at.value, block);
      r := Stored;
    }

    /** Marks the node at the end of a block. */
    method Finish(at: nat, ghost block: Block)
      requires Valid() && Fits(block, width) && at < |nodes| && paths[at] == PathOf(block, width)
      modifies `nodes, `blocks
      ensures Valid() && blocks == old(blocks) + [block] && |nodes| == old(|nodes|)
      ensures Within(paths, Prefixes(Ends(blocks, width))) ==> |nodes| == |Prefixes(Ends(blocks, width))|
    {
      MarkKeeps(nodes, paths, Ends(blocks, width), at);
      nodes := nodes[at := nodes[at].(terminal := true)];
      EndsSnoc(blocks, block, width);
      blocks := blocks + [block];
      if Within(paths, Prefixes(Ends(blocks, width))) {
        NodeCount(nodes, paths, Ends(blocks, width));
      }
    }

    /** Membership is exactly the linear scan over everything inserted. */
    method Contains(value: nat) returns (found: bool)
      requires Valid() && value < Pow2(width)
      ensures found <==> Covers(blocks, width, value)
    {
      ghost var bits := BitsOf(value, width);
      ghost var ends := Ends(blocks, width);
      CoversByPrefix(blocks, width, value);
      var at := 0;
      var offset := 0;
      while offset < width
        invariant 0 <= offset <= width && 0 <= at < |nodes|
        invariant paths[at] == bits[..offset]
        invariant Covers(blocks, width, value) <==> Hit(bits, ends, offset)
      {
        HitStep(bits, ends, offset);
        if nodes[at].terminal {
          return true;
        }
        var branch := Bit(value, width, offset);
        assert bits[..offset + 1] == bits[..offset] + [branch];
        assert LinkedAt(nodes[at].Child(branch), paths, paths[at] + [branch]);
        match nodes[at].Child(branch) {
          case None =>
            NothingBelow(paths, ends, bits, offset + 1);
            return false;
          case Some(child) =>
            at := child;
        }
        offset := offset + 1;
      }
      HitStep(bits, ends, width);
      found := nodes[at].terminal;
    }
  }
}
