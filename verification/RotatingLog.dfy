/**
 The size-rotated log file.

 `Files` records which events each file holds (index 0 is the active file, i >= 1 is the file
 rotated i times); `Written` is what one write does to it.  The class works on the bytes on disk,
 with rename, delete and prune loops, and is proved to leave exactly the bytes of `Written`.
 */
module RotatingLog {
  import opened Words

  type Event = seq<Byte>
  type Part = seq<Event>
  type Files = map<nat, Part>

  const MAX_MANAGED_ROTATIONS: nat := 64

  /** Sizes below this keep every 64-bit sum over the managed files exact. */
  const MAX_FILE_SIZE: nat := 0x0200_0000_0000_0000

  datatype Config = Config(maxBytes: nat, maxFiles: nat, maxTotal: nat) {
    predicate Valid() {
      1 <= maxFiles <= MAX_MANAGED_ROTATIONS && maxBytes <= MAX_FILE_SIZE && maxTotal <= U64_MAX
    }

    /** The highest rotation index in use. */
    function Last(): nat
      requires Valid()
    {
      maxFiles - 1
    }
  }

  function Flatten(part: Part): seq<Byte> {
    if part == [] then [] else Flatten(part[..|part| - 1]) + part[|part| - 1]
  }

  lemma FlattenSnoc(part: Part, e: Event)
    ensures Flatten(part + [e]) == Flatten(part) + e
  {
    assert (part + [e])[..|part|] == part;
  }

  function PartAt(files: Files, i: nat): Part { if i in files then files[i] else [] }
  function SizeAt(files: Files, i: nat): nat { |Flatten(PartAt(files, i))| }

  /** The events of files hi, hi - 1, ..., 0, oldest first. */
  function Events(files: Files, hi: nat): seq<Event> {
    PartAt(files, hi) + (if hi == 0 then [] else Events(files, hi - 1))
  }

  function Total(files: Files, hi: nat): nat {
    SizeAt(files, hi) + (if hi == 0 then 0 else Total(files, hi - 1))
  }

  ghost predicate UpTo(files: Files, hi: nat) { forall i :: i in files ==> i <= hi }

  ghost predicate EachAtMost(files: Files, size: nat) { forall i :: i in files ==> SizeAt(files, i) <= size }

  // ---- What one write does ----

  /** Every file moves up one index, the oldest falls off, and the active file starts empty. */
  function Rotated(files: Files, last: nat): Files {
    (map i: nat | 1 <= i <= last && HasOlder(files, i) :: PartAt(files, i - 1))[0 := []]
  }

  predicate HasOlder(files: Files, i: nat) { i >= 1 && i - 1 in files }

  /** Delete rotated files from index k down until the total fits the budget. */
  function Pruned(files: Files, last: nat, k: nat, budget: nat): Files
    decreases k
  {
    if k == 0 || Total(files, last) <= budget then files
    else Pruned(files - {k}, last, k - 1, budget)
  }

  function Fit(c: Config, files: Files): Files
    requires c.Valid()
  {
    Pruned(files, c.Last(), c.Last(), c.maxTotal)
  }

  /** The state a write appends to: rotated and pruned if the event would not fit. */
  function Room(c: Config, files: Files, e: Event): Files
    requires c.Valid()
  {
    if SizeAt(files, 0) > 0 && SizeAt(files, 0) + |e| > c.maxBytes then Fit(c, Rotated(files, c.Last())) else files
  }

  function Written(c: Config, files: Files, e: Event): Files
    requires c.Valid()
  {
    if |e| > c.maxBytes then files
    else
      var room := Room(c, files, e);
      Fit(c, room[0 := PartAt(room, 0) + [e]])
  }

  function WrittenAll(c: Config, files: Files, events: seq<Event>): Files
    requires c.Valid()
  {
    if events == [] then files
    else Written(c, WrittenAll(c, files, events[..|events| - 1]), events[|events| - 1])
  }

  /** The events short enough to be written. */
  function Accepted(c: Config, events: seq<Event>): seq<Event> {
    if events == [] then []
    else
      var e := events[|events| - 1];
      Accepted(c, events[..|events| - 1]) + (if |e| <= c.maxBytes then [e] else [])
  }

  // ---- History is kept as a suffix ----

  predicate Suffix(kept: seq<Event>, all: seq<Event>) {
    |kept| <= |all| && all[|all| - |kept|..] == kept
  }

  lemma SuffixDrop(dropped: seq<Event>, kept: seq<Event>)
    ensures Suffix(kept, dropped + kept)
  {
  }

  lemma SuffixTrans(a: seq<Event>, b: seq<Event>, c: seq<Event>)
    requires Suffix(a, b) && Suffix(b, c)
    ensures Suffix(a, c)
  {
    assert c[|c| - |a|..] == c[|c| - |b|..][|b| - |a|..];
  }

  lemma SuffixAppend(a: seq<Event>, b: seq<Event>, more: seq<Event>)
    requires Suffix(a, b)
    ensures Suffix(a + more, b + more)
  {
    assert (b + more)[|b + more| - |a + more|..] == b[|b| - |a|..] + more;
  }

  lemma {:induction false} EventsTop(files: Files, k: nat, hi: nat)
    requires UpTo(files, k) && k <= hi
    ensures Events(files, hi) == Events(files, k)
    decreases hi
  {
    if k == hi {
    } else {
      EventsTop(files, k, hi - 1);
    }
  }

  lemma {:induction false} EventsBelow(files: Files, other: Files, hi: nat)
    requires forall i :: 0 <= i <= hi ==> PartAt(files, i) == PartAt(other, i)
    ensures Events(files, hi) == Events(other, hi)
    decreases hi
  {
    if hi == 0 {
    } else {
      EventsBelow(files, other, hi - 1);
    }
  }

  lemma EventsOfTop(files: Files, k: nat, last: nat)
    requires 1 <= k <= last && UpTo(files, k)
    ensures Events(files, last) == PartAt(files, k) + Events(files, k - 1)
  {
    EventsTop(files, k, last);
  }

  lemma EventsWithoutTop(files: Files, k: nat, last: nat)
    requires 1 <= k <= last && UpTo(files, k)
    ensures UpTo(files - {k}, k - 1)
    ensures Events(files - {k}, last) == Events(files, k - 1)
  {
    EventsTop(files - {k}, k - 1, last);
    EventsBelow(files, files - {k}, k - 1);
  }

  lemma DeleteTop(files: Files, k: nat, last: nat)
    requires 1 <= k <= last && UpTo(files, k)
    ensures UpTo(files - {k}, k - 1)
    ensures Suffix(Events(files - {k}, last), Events(files, last))
  {
    EventsOfTop(files, k, last);
    EventsWithoutTop(files, k, last);
    SuffixDrop(PartAt(files, k), Events(files, k - 1));
  }

  lemma {:induction false} PrunedWithin(files: Files, last: nat, k: nat, budget: nat)
    ensures var kept := Pruned(files, last, k, budget);
            && (forall i :: i in kept ==> i in files && kept[i] == files[i])
            && (0 in files ==> 0 in kept)
    decreases k
  {
    if k == 0 || Total(files, last) <= budget {
    } else {
      PrunedWithin(files - {k}, last, k - 1, budget);
    }
  }

  lemma {:induction false} PrunedFits(files: Files, last: nat, k: nat, budget: nat)
    requires k <= last && UpTo(files, k)
    ensures Total(Pruned(files, last, k, budget), last) <= budget || UpTo(Pruned(files, last, k, budget), 0)
    decreases k
  {
    if k == 0 || Total(files, last) <= budget {
    } else {
      PrunedFits(files - {k}, last, k - 1, budget);
    }
  }

  lemma {:induction false} PrunedSuffix(files: Files, last: nat, k: nat, budget: nat)
    requires k <= last && UpTo(files, k)
    ensures Suffix(Events(Pruned(files, last, k, budget), last), Events(files, last))
    decreases k
  {
    if k == 0 || Total(files, last) <= budget {
      SuffixDrop([], Events(files, last));
      assert [] + Events(files, last) == Events(files, last);
    } else {
      DeleteTop(files, k, last);
      PrunedSuffix(files - {k}, last, k - 1, budget);
      SuffixTrans(Events(Pruned(files, last, k, budget), last), Events(files - {k}, last), Events(files, last));
    }
  }

  /** Pruning removes whole files, oldest first, and stops within budget or at the active file. */
  lemma PrunedKeepsSuffix(files: Files, last: nat, k: nat, budget: nat)
    requires k <= last && UpTo(files, k)
    ensures var kept := Pruned(files, last, k, budget);
            && Suffix(Events(kept, last), Events(files, last))
            && (forall i :: i in kept ==> i in files && kept[i] == files[i])
            && (0 in files ==> 0 in kept)
            && (Total(kept, last) <= budget || UpTo(kept, 0))
  {
    PrunedWithin(files, last, k, budget);
    PrunedFits(files, last, k, budget);
    PrunedSuffix(files, last, k, budget);
  }

  lemma {:induction false} RotatedShifts(files: Files, last: nat, hi: nat)
    requires hi < last
    ensures Events(Rotated(files, last), hi + 1) == Events(files, hi)
  {
    var moved := Rotated(files, last);
    assert PartAt(moved, hi + 1) == PartAt(files, hi);
    if hi == 0 {
      assert Events(moved, 0) == [] + [];
    } else {
      RotatedShifts(files, last, hi - 1);
    }
  }

  lemma RotatedKeepsSuffix(files: Files, last: nat)
    requires UpTo(files, last)
    ensures UpTo(Rotated(files, last), last) && 0 in Rotated(files, last)
    ensures Suffix(Events(Rotated(files, last), last), Events(files, last))
  {
    if last == 0 {
      SuffixDrop(Events(files, 0), []);
      assert Events(files, 0) + [] == Events(files, 0);
      assert Events(Rotated(files, 0), 0) == [];
    } else {
      RotatedShifts(files, last, last - 1);
      SuffixDrop(PartAt(files, last), Events(files, last - 1));
    }
  }

  lemma Reassociate(a: seq<Event>, b: seq<Event>, c: seq<Event>)
    ensures a + (b + c) == a + b + c
  {
  }

  lemma {:induction false} AppendExtends(files: Files, e: Event, hi: nat)
    ensures Events(files[0 := PartAt(files, 0) + [e]], hi) == Events(files, hi) + [e]
    decreases hi
  {
    if hi == 0 {
    } else {
      AppendExtends(files, e, hi - 1);
      Reassociate(PartAt(files, hi), Events(files, hi - 1), [e]);
    }
  }

  /** The files are indexed within bounds and the active one exists. */
  ghost predicate InBounds(c: Config, files: Files)
    requires c.Valid()
  {
    UpTo(files, c.Last()) && 0 in files
  }

  lemma FitKeepsSuffix(c: Config, files: Files)
    requires c.Valid() && InBounds(c, files)
    ensures InBounds(c, Fit(c, files))
    ensures Suffix(Events(Fit(c, files), c.Last()), Events(files, c.Last()))
  {
    PrunedKeepsSuffix(files, c.Last(), c.Last(), c.maxTotal);
  }

  lemma RoomKeepsSuffix(c: Config, files: Files, e: Event)
    requires c.Valid() && InBounds(c, files)
    ensures InBounds(c, Room(c, files, e))
    ensures Suffix(Events(Room(c, files, e), c.Last()), Events(files, c.Last()))
  {
    var last := c.Last();
    if Room(c, files, e) == files {
      SuffixDrop([], Events(files, last));
      assert [] + Events(files, last) == Events(files, last);
    } else {
      RotatedKeepsSuffix(files, last);
      FitKeepsSuffix(c, Rotated(files, last));
      SuffixTrans(Events(Room(c, files, e), last), Events(Rotated(files, last), last), Events(files, last));
    }
  }

  lemma WriteKeepsSuffix(c: Config, files: Files, e: Event)
    requires c.Valid() && InBounds(c, files) && |e| <= c.maxBytes
    ensures InBounds(c, Written(c, files, e))
    ensures Suffix(Events(Written(c, files, e), c.Last()), Events(files, c.Last()) + [e])
  {
    var last := c.Last();
    var room := Room(c, files, e);
    var appended := room[0 := PartAt(room, 0) + [e]];
    RoomKeepsSuffix(c, files, e);
    AppendExtends(room, e, last);
    SuffixAppend(Events(room, last), Events(files, last), [e]);
    FitKeepsSuffix(c, appended);
    SuffixTrans(Events(Written(c, files, e), last), Events(appended, last), Events(files, last) + [e]);
  }

  lemma WriteExtendsSuffix(c: Config, files: Files, e: Event, all: seq<Event>)
    requires c.Valid() && InBounds(c, files) && |e| <= c.maxBytes && Suffix(Events(files, c.Last()), all)
    ensures InBounds(c, Written(c, files, e))
    ensures Suffix(Events(Written(c, files, e), c.Last()), all + [e])
  {
    WriteKeepsSuffix(c, files, e);
    SuffixAppend(Events(files, c.Last()), all, [e]);
    SuffixTrans(Events(Written(c, files, e), c.Last()), Events(files, c.Last()) + [e], all + [e]);
  }

  /**
   Over every run of writes, the files from the highest index down to the active one hold a
   suffix of everything there was plus everything accepted.
   */
  lemma {:induction false} HistoryIsSuffix(c: Config, files: Files, events: seq<Event>)
    requires c.Valid() && InBounds(c, files)
    ensures InBounds(c, WrittenAll(c, files, events))
    ensures Suffix(Events(WrittenAll(c, files, events), c.Last()), Events(files, c.Last()) + Accepted(c, events))
    decreases events
  {
    var last := c.Last();
    if events == [] {
      SuffixDrop([], Events(files, last));
      assert [] + Events(files, last) == Events(files, last) == Events(files, last) + [];
    } else {
      var front, e := events[..|events| - 1], events[|events| - 1];
      var before := WrittenAll(c, files, front);
      HistoryIsSuffix(c, files, front);
      if |e| <= c.maxBytes {
        WriteExtendsSuffix(c, before, e, Events(files, last) + Accepted(c, front));
        assert Events(files, last) + Accepted(c, front) + [e] == Events(files, last) + Accepted(c, events);
      } else {
        assert Accepted(c, front) + [] == Accepted(c, front);
      }
    }
  }

  // ---- Bounds ----

  lemma FlattenOne(e: Event)
    ensures Flatten([e]) == e
  {
    assert [e][..0] == [];
  }

  /** File i of `after` is file i or file i - 1 of `files`, whole. */
  predicate Carried(files: Files, after: Files, i: nat)
    requires i in after
  {
    (i in files && after[i] == files[i]) || (i >= 1 && i - 1 in files && after[i] == files[i - 1])
  }

  lemma RoomMovesWholeFiles(c: Config, files: Files, e: Event)
    requires c.Valid() && InBounds(c, files)
    ensures var room := Room(c, files, e);
            && (forall i :: i in room && i >= 1 ==> Carried(files, room, i))
            && 0 in room
            && room[0] == (if SizeAt(files, 0) > 0 && SizeAt(files, 0) + |e| > c.maxBytes then [] else files[0])
  {
    if SizeAt(files, 0) > 0 && SizeAt(files, 0) + |e| > c.maxBytes {
      RotatedKeepsSuffix(files, c.Last());
      PrunedKeepsSuffix(Rotated(files, c.Last()), c.Last(), c.Last(), c.maxTotal);
    }
  }

  /** Where the parts of a write come from: rotated files are moved whole, the active one grows by the event. */
  lemma WriteMovesWholeFiles(c: Config, files: Files, e: Event)
    requires c.Valid() && InBounds(c, files) && |e| <= c.maxBytes
    ensures var after := Written(c, files, e);
            && (forall i :: i in after && i >= 1 ==> Carried(files, after, i))
            && 0 in after
            && after[0] == (if SizeAt(files, 0) > 0 && SizeAt(files, 0) + |e| > c.maxBytes then [e] else files[0] + [e])
  {
    var room := Room(c, files, e);
    RoomKeepsSuffix(c, files, e);
    RoomMovesWholeFiles(c, files, e);
    PrunedKeepsSuffix(room[0 := PartAt(room, 0) + [e]], c.Last(), c.Last(), c.maxTotal);
    forall i | i in Written(c, files, e) && i >= 1
      ensures Carried(files, Written(c, files, e), i)
    {
      assert Carried(files, room, i);
    }
  }

  lemma CarriedSize(files: Files, after: Files, i: nat, size: nat)
    requires i in after && Carried(files, after, i) && EachAtMost(files, size)
    ensures SizeAt(after, i) <= size
  {
    if i in files && after[i] == files[i] {
      assert SizeAt(after, i) == SizeAt(files, i);
    } else {
      assert SizeAt(after, i) == SizeAt(files, i - 1);
    }
  }

  lemma CarriedSizes(files: Files, after: Files, size: nat)
    requires EachAtMost(files, size) && SizeAt(after, 0) <= size
    requires forall i :: i in after && i >= 1 ==> Carried(files, after, i)
    ensures EachAtMost(after, size)
  {
    forall i | i in after
      ensures SizeAt(after, i) <= size
    {
      if i >= 1 {
        CarriedSize(files, after, i, size);
      }
    }
  }

  lemma ActiveSize(c: Config, files: Files, e: Event)
    requires c.Valid() && InBounds(c, files) && |e| <= c.maxBytes && SizeAt(files, 0) <= c.maxBytes
    ensures 0 in Written(c, files, e) && SizeAt(Written(c, files, e), 0) <= c.maxBytes
  {
    WriteMovesWholeFiles(c, files, e);
    FlattenSnoc(files[0], e);
    FlattenOne(e);
  }

  lemma WriteKeepsSizes(c: Config, files: Files, e: Event, size: nat)
    requires c.Valid() && InBounds(c, files) && |e| <= c.maxBytes <= size
    requires EachAtMost(files, size) && SizeAt(files, 0) <= c.maxBytes
    ensures EachAtMost(Written(c, files, e), size) && SizeAt(Written(c, files, e), 0) <= c.maxBytes
  {
    ActiveSize(c, files, e);
    WriteMovesWholeFiles(c, files, e);
    CarriedSizes(files, Written(c, files, e), size);
  }

  lemma {:induction false} TotalOfActive(files: Files, hi: nat)
    requires UpTo(files, 0)
    ensures Total(files, hi) == SizeAt(files, 0)
  {
    if hi == 0 {
    } else {
      TotalOfActive(files, hi - 1);
    }
  }

  /** After any write the log fits its budget, provided one full file does. */
  lemma WriteFitsBudget(c: Config, files: Files, e: Event)
    requires c.Valid() && InBounds(c, files) && |e| <= c.maxBytes <= c.maxTotal
    requires SizeAt(files, 0) <= c.maxBytes
    ensures Total(Written(c, files, e), c.Last()) <= c.maxTotal
  {
    var room := Room(c, files, e);
    var appended := room[0 := PartAt(room, 0) + [e]];
    RoomKeepsSuffix(c, files, e);
    PrunedKeepsSuffix(appended, c.Last(), c.Last(), c.maxTotal);
    ActiveSize(c, files, e);
    if UpTo(Written(c, files, e), 0) {
      TotalOfActive(Written(c, files, e), c.Last());
    }
  }

  lemma {:induction false} IndexCount(indices: set<nat>, hi: nat)
    requires forall i :: i in indices ==> i <= hi
    ensures |indices| <= hi + 1
    decreases hi
  {
    if hi > 0 {
      IndexCount(indices - {hi}, hi - 1);
    } else if indices != {} {
      assert indices == {0};
    }
  }

  const EMPTY_LOG: Files := map[0 := []]

  /**
   Three bounds at once, over every run of writes to an empty log: at most maxFiles files, each
   at most maxBytes long, together at most maxTotal when one full file fits that total.
   */
  lemma {:induction false} BoundsHold(c: Config, events: seq<Event>)
    requires c.Valid()
    ensures var files := WrittenAll(c, EMPTY_LOG, events);
            && InBounds(c, files)
            && |files| <= c.maxFiles
            && EachAtMost(files, c.maxBytes)
            && (c.maxBytes <= c.maxTotal ==> Total(files, c.Last()) <= c.maxTotal)
    decreases events
  {
    var files := WrittenAll(c, EMPTY_LOG, events);
    if events == [] {
      TotalOfActive(EMPTY_LOG, c.Last());
    } else {
      var before, e := WrittenAll(c, EMPTY_LOG, events[..|events| - 1]), events[|events| - 1];
      BoundsHold(c, events[..|events| - 1]);
      if |e| <= c.maxBytes {
        WriteKeepsSuffix(c, before, e);
        WriteKeepsSizes(c, before, e, c.maxBytes);
        if c.maxBytes <= c.maxTotal {
          WriteFitsBudget(c, before, e);
        }
      }
    }
    IndexCount(files.Keys, c.Last());
    assert |files| == |files.Keys|;
  }

  // ---- What is kept ----

  lemma {:induction false} TotalTop(files: Files, k: nat, hi: nat)
    requires UpTo(files, k) && k <= hi
    ensures Total(files, hi) == Total(files, k)
    decreases hi
  {
    if k == hi {
    } else {
      TotalTop(files, k, hi - 1);
    }
  }

  lemma {:induction false} TotalBelow(files: Files, other: Files, hi: nat)
    requires forall i :: 0 <= i <= hi ==> PartAt(files, i) == PartAt(other, i)
    ensures Total(files, hi) == Total(other, hi)
    decreases hi
  {
    if hi == 0 {
    } else {
      TotalBelow(files, other, hi - 1);
    }
  }

  lemma {:induction false} TotalGrows(files: Files, j: nat, hi: nat)
    requires j <= hi
    ensures Total(files, j) <= Total(files, hi)
    decreases hi
  {
    if j == hi {
    } else {
      TotalGrows(files, j, hi - 1);
    }
  }

  /** Pruning keeps a rotated file exactly when it and everything newer fit the budget. */
  lemma {:induction false} PrunedExactly(files: Files, last: nat, k: nat, budget: nat, j: nat)
    requires k <= last && UpTo(files, k) && 1 <= j && j in files
    ensures j in Pruned(files, last, k, budget) <==> Total(files, j) <= budget
    decreases k
  {
    if Total(files, last) <= budget {
      TotalGrows(files, j, last);
    } else if j == k {
      TotalTop(files, k, last);
      EventsWithoutTop(files, k, last);
      PrunedKeepsSuffix(files - {k}, last, k - 1, budget);
    } else {
      EventsWithoutTop(files, k, last);
      TotalBelow(files, files - {k}, j);
      PrunedExactly(files - {k}, last, k - 1, budget, j);
    }
  }

  lemma {:induction false} AppendTotal(files: Files, e: Event, hi: nat)
    ensures Total(files[0 := PartAt(files, 0) + [e]], hi) == Total(files, hi) + |e|
    decreases hi
  {
    if hi > 0 {
      AppendTotal(files, e, hi - 1);
    } else {
      FlattenSnoc(PartAt(files, 0), e);
    }
  }

  /** Every rotated file that does not fit a budget holds no event. */
  ghost predicate OverflowEmpty(files: Files, budget: int) {
    forall j :: j in files && 1 <= j && Total(files, j) > budget ==> files[j] == []
  }

  lemma SuffixEqual(kept: seq<Event>, middle: seq<Event>, all: seq<Event>)
    requires Suffix(kept, middle) && Suffix(middle, all)
    ensures kept == all <==> kept == middle && middle == all
  {
  }

  /** Pruning loses no event exactly when every rotated file beyond the budget is empty. */
  lemma {:induction false} PruneLosesNothing(files: Files, last: nat, k: nat, budget: nat)
    requires k <= last && UpTo(files, k)
    ensures Events(Pruned(files, last, k, budget), last) == Events(files, last) <==> OverflowEmpty(files, budget)
    decreases k
  {
    if k == 0 || Total(files, last) <= budget {
      forall j | j in files && 1 <= j
        ensures Total(files, j) <= Total(files, last)
      {
        TotalGrows(files, j, last);
      }
    } else {
      var rest := files - {k};
      EventsOfTop(files, k, last);
      EventsWithoutTop(files, k, last);
      PruneLosesNothing(rest, last, k - 1, budget);
      PrunedKeepsSuffix(rest, last, k - 1, budget);
      OverflowWithoutTop(files, last, k, budget);
    }
  }

  lemma OverflowWithoutTop(files: Files, last: nat, k: nat, budget: nat)
    requires 1 <= k <= last && UpTo(files, k) && Total(files, last) > budget
    ensures OverflowEmpty(files, budget) <==> OverflowEmpty(files - {k}, budget) && PartAt(files, k) == []
  {
    var rest := files - {k};
    TotalTop(files, k, last);
    forall j | j in rest && 1 <= j
      ensures j in files && Total(rest, j) == Total(files, j) && rest[j] == files[j]
    {
      TotalBelow(files, rest, j);
    }
    assert forall j :: j in files && j != k ==> j in rest;
  }

  /** The files a write appends to, before any pruning. */
  function Turned(c: Config, files: Files, e: Event): Files
    requires c.Valid()
  {
    if SizeAt(files, 0) > 0 && SizeAt(files, 0) + |e| > c.maxBytes then Rotated(files, c.Last()) else files
  }

  /** A rotation loses no event exactly when the file at the last index is empty or absent. */
  lemma RotateLosesNothing(files: Files, last: nat)
    requires UpTo(files, last)
    ensures Events(Rotated(files, last), last) == Events(files, last) <==> PartAt(files, last) == []
  {
    if last == 0 {
      assert Events(Rotated(files, 0), 0) == [] + [];
    } else {
      RotatedShifts(files, last, last - 1);
    }
  }

  lemma AppendOverflow(files: Files, e: Event, budget: nat)
    requires 0 in files
    ensures OverflowEmpty(files[0 := files[0] + [e]], budget) <==> OverflowEmpty(files, budget - |e|)
  {
    var appended := files[0 := files[0] + [e]];
    forall j | j in files && 1 <= j
      ensures Total(appended, j) == Total(files, j) + |e| && appended[j] == files[j]
    {
      AppendTotal(files, e, j);
    }
  }

  /** Up to an index that pruning keeps, it keeps everything. */
  lemma PrunedTotal(files: Files, last: nat, budget: nat, j: nat)
    requires UpTo(files, last) && 1 <= j && j in Pruned(files, last, last, budget)
    ensures j in files && Total(Pruned(files, last, last, budget), j) == Total(files, j)
  {
    var kept := Pruned(files, last, last, budget);
    PrunedKeepsSuffix(files, last, last, budget);
    PrunedExactly(files, last, last, budget, j);
    forall i | 0 <= i <= j
      ensures PartAt(kept, i) == PartAt(files, i)
    {
      if i in files && i >= 1 {
        TotalGrows(files, i, j);
        PrunedExactly(files, last, last, budget, i);
      }
    }
    TotalBelow(kept, files, j);
  }

  /** Pruning first to the budget and then to a smaller one loses nothing exactly when the latter alone does. */
  lemma PruneTwice(files: Files, last: nat, budget: nat, less: int)
    requires UpTo(files, last) && less <= budget
    ensures OverflowEmpty(files, budget) && OverflowEmpty(Pruned(files, last, last, budget), less)
            <==> OverflowEmpty(files, less)
  {
    var kept := Pruned(files, last, last, budget);
    forall j | j in kept && 1 <= j
      ensures j in files && Total(kept, j) == Total(files, j) && kept[j] == files[j]
    {
      PrunedTotal(files, last, budget, j);
      PrunedKeepsSuffix(files, last, last, budget);
    }
    forall j | j in files && 1 <= j
      ensures j in kept || Total(files, j) > budget
    {
      PrunedExactly(files, last, last, budget, j);
    }
  }

  /**
   Exactly when a write loses no event: a rotation it causes pushes out no event, and every rotated
   file that, with all newer ones and the event, exceeds the budget is empty.
   */
  lemma WriteLosesNothingExactly(c: Config, files: Files, e: Event)
    requires c.Valid() && InBounds(c, files) && |e| <= c.maxBytes
    ensures Events(Written(c, files, e), c.Last()) == Events(files, c.Last()) + [e] <==>
            && (Turned(c, files, e) != files ==> PartAt(files, c.Last()) == [])
            && OverflowEmpty(Turned(c, files, e), c.maxTotal - |e|)
  {
    var last, room := c.Last(), Room(c, files, e);
    var appended := room[0 := PartAt(room, 0) + [e]];
    RoomKeepsSuffix(c, files, e);
    AppendExtends(room, e, last);
    FitKeepsSuffix(c, appended);
    PruneLosesNothing(appended, last, last, c.maxTotal);
    AppendOverflow(room, e, c.maxTotal);
    RoomLosesNothing(c, files, e);
    SuffixAppend(Events(room, last), Events(files, last), [e]);
    SuffixEqual(Events(Written(c, files, e), last), Events(appended, last), Events(files, last) + [e]);
    assert Events(room, last) + [e] == Events(files, last) + [e] <==> Events(room, last) == Events(files, last) by {
      LastEqual(Events(room, last), Events(files, last), e);
    }
  }

  lemma LastEqual(a: seq<Event>, b: seq<Event>, e: Event)
    ensures a + [e] == b + [e] <==> a == b
  {
    assert (a + [e])[..|a + [e]| - 1] == a && (b + [e])[..|b + [e]| - 1] == b;
  }

  lemma RoomLosesNothing(c: Config, files: Files, e: Event)
    requires c.Valid() && InBounds(c, files)
    ensures Events(Room(c, files, e), c.Last()) == Events(files, c.Last())
            && OverflowEmpty(Room(c, files, e), c.maxTotal - |e|) <==>
            && (Turned(c, files, e) != files ==> PartAt(files, c.Last()) == [])
            && OverflowEmpty(Turned(c, files, e), c.maxTotal - |e|)
  {
    if SizeAt(files, 0) > 0 && SizeAt(files, 0) + |e| > c.maxBytes {
      var last, turned := c.Last(), Rotated(files, c.Last());
      RotatedKeepsSuffix(files, last);
      FitKeepsSuffix(c, turned);
      SuffixEqual(Events(Fit(c, turned), last), Events(turned, last), Events(files, last));
      PruneLosesNothing(turned, last, last, c.maxTotal);
      PruneTwice(turned, last, c.maxTotal, c.maxTotal - |e|);
      RotateLosesNothing(files, last);
      assert SizeAt(turned, 0) == 0;
    }
  }

  // ---- Exactly which files a write leaves ----

  /** Fitting the budget keeps the active file, and of the rotated files those that fit with everything newer. */
  lemma FitExactly(c: Config, files: Files, j: nat)
    requires c.Valid() && InBounds(c, files)
    ensures 0 in Fit(c, files) && Fit(c, files)[0] == files[0]
    ensures j >= 1 ==> (j in Fit(c, files) <==> j in files && Total(files, j) <= c.maxTotal)
    ensures j >= 1 && j in Fit(c, files) ==> Fit(c, files)[j] == files[j] && Total(Fit(c, files), j) == Total(files, j)
  {
    PrunedKeepsSuffix(files, c.Last(), c.Last(), c.maxTotal);
    if j >= 1 && j in files {
      PrunedExactly(files, c.Last(), c.Last(), c.maxTotal, j);
      if j in Fit(c, files) {
        PrunedTotal(files, c.Last(), c.maxTotal, j);
      }
    }
  }

  lemma {:induction false} RotatedTotal(files: Files, last: nat, j: nat)
    requires 1 <= j <= last
    ensures Total(Rotated(files, last), j) == Total(files, j - 1)
  {
    var moved := Rotated(files, last);
    assert PartAt(moved, j) == PartAt(files, j - 1);
    if j == 1 {
      assert Flatten([]) == [];
      assert Total(moved, 0) == 0;
    } else {
      RotatedTotal(files, last, j - 1);
    }
  }

  /** The index a file had before a rotation that may have happened. */
  function Before(rotated: bool, j: nat): nat
    requires j >= 1
  {
    if rotated then j - 1 else j
  }

  predicate MustRotate(c: Config, files: Files, e: Event) {
    SizeAt(files, 0) > 0 && SizeAt(files, 0) + |e| > c.maxBytes
  }

  lemma RotationExactly(files: Files, last: nat, j: nat)
    requires UpTo(files, last) && j >= 1
    ensures j in Rotated(files, last) <==> j <= last && j - 1 in files
    ensures j in Rotated(files, last) ==> Rotated(files, last)[j] == files[j - 1]
    ensures j <= last ==> Total(Rotated(files, last), j) == Total(files, j - 1)
  {
    assert HasOlder(files, j) <==> j - 1 in files;
    if j <= last {
      RotatedTotal(files, last, j);
    }
  }

  lemma RoomExactly(c: Config, files: Files, e: Event, j: nat)
    requires c.Valid() && InBounds(c, files) && j >= 1
    ensures var room, was := Room(c, files, e), Before(MustRotate(c, files, e), j);
            && (j in room <==>
                j <= c.Last() && was in files && (MustRotate(c, files, e) ==> Total(files, was) <= c.maxTotal))
            && (j in room ==> room[j] == files[was] && Total(room, j) == Total(files, was))
  {
    if MustRotate(c, files, e) {
      RotatedKeepsSuffix(files, c.Last());
      RotationExactly(files, c.Last(), j);
      FitExactly(c, Rotated(files, c.Last()), j);
    }
  }

  /**
   A write leaves a rotated file exactly where the file it comes from was, within the last index, and fits the
   budget together with everything newer and the event; it is that file, whole.
   */
  lemma WrittenExactly(c: Config, files: Files, e: Event, j: nat)
    requires c.Valid() && InBounds(c, files) && |e| <= c.maxBytes && j >= 1
    ensures var after, was := Written(c, files, e), Before(MustRotate(c, files, e), j);
            && (j in after <==> j <= c.Last() && was in files && Total(files, was) + |e| <= c.maxTotal)
            && (j in after ==> after[j] == files[was])
  {
    var room := Room(c, files, e);
    RoomKeepsSuffix(c, files, e);
    RoomExactly(c, files, e, j);
    AppendTotal(room, e, j);
    FitExactly(c, room[0 := PartAt(room, 0) + [e]], j);
  }

  // ---- Opening an existing log ----

  /** What opening does: forget out-of-range rotations, rotate a full active file, prune. */
  function Opened(c: Config, found: Files): Files
    requires c.Valid()
  {
    var kept := Managed(c, found);
    Fit(c, if SizeAt(kept, 0) >= c.maxBytes then Fit(c, Rotated(kept, c.Last())) else kept)
  }

  function Managed(c: Config, found: Files): Files
    requires c.Valid()
  {
    (map i | i in found && i <= c.Last() :: found[i])[0 := PartAt(found, 0)]
  }

  /** An opened log is within its index bounds and keeps the newest of what it found. */
  lemma OpenKeepsSuffix(c: Config, found: Files)
    requires c.Valid()
    ensures InBounds(c, Opened(c, found))
    ensures Suffix(Events(Opened(c, found), c.Last()), Events(found, c.Last()))
  {
    var last := c.Last();
    var kept := Managed(c, found);
    EventsBelow(kept, found, last);
    if SizeAt(kept, 0) >= c.maxBytes {
      RotatedKeepsSuffix(kept, last);
      FitKeepsSuffix(c, Rotated(kept, last));
      var turned := Fit(c, Rotated(kept, last));
      FitKeepsSuffix(c, turned);
      SuffixTrans(Events(turned, last), Events(Rotated(kept, last), last), Events(kept, last));
      SuffixTrans(Events(Opened(c, found), last), Events(turned, last), Events(kept, last));
    } else {
      FitKeepsSuffix(c, kept);
    }
  }

  lemma ManagedExactly(c: Config, found: Files, j: nat)
    requires c.Valid()
    ensures InBounds(c, Managed(c, found))
    ensures j in Managed(c, found) <==> (j in found && j <= c.Last()) || j == 0
    ensures j in Managed(c, found) ==> Managed(c, found)[j] == PartAt(found, j)
    ensures j <= c.Last() ==> Total(Managed(c, found), j) == Total(found, j)
  {
    if j <= c.Last() {
      TotalBelow(Managed(c, found), found, j);
    }
  }

  /** Fitting twice keeps what fitting once keeps. */
  lemma FitTwice(c: Config, files: Files, j: nat)
    requires c.Valid() && InBounds(c, files) && j >= 1
    ensures var twice := Fit(c, Fit(c, files));
            && 0 in twice && twice[0] == files[0]
            && (j in twice <==> j in files && Total(files, j) <= c.maxTotal)
            && (j in twice ==> twice[j] == files[j])
  {
    FitKeepsSuffix(c, files);
    FitExactly(c, files, j);
    FitExactly(c, Fit(c, files), j);
  }

  lemma FullExactly(c: Config, kept: Files, j: nat)
    requires c.Valid() && InBounds(c, kept) && j >= 1
    ensures var after := Fit(c, Fit(c, Rotated(kept, c.Last())));
            && 0 in after && after[0] == []
            && (j in after <==> j <= c.Last() && j - 1 in kept && Total(kept, j - 1) <= c.maxTotal)
            && (j in after ==> after[j] == kept[j - 1])
  {
    var turned := Rotated(kept, c.Last());
    RotatedKeepsSuffix(kept, c.Last());
    RotationExactly(kept, c.Last(), j);
    FitTwice(c, turned, j);
    assert turned[0] == [];
  }

  predicate StartsFull(c: Config, found: Files) { SizeAt(found, 0) >= c.maxBytes }

  lemma OpenedIs(c: Config, found: Files, kept: Files)
    requires c.Valid() && kept == Managed(c, found)
    ensures Opened(c, found) ==
            if StartsFull(c, found) then Fit(c, Fit(c, Rotated(kept, c.Last()))) else Fit(c, kept)
  {
    assert PartAt(kept, 0) == PartAt(found, 0);
  }

  lemma OpenedFull(c: Config, found: Files, j: nat)
    requires c.Valid() && j >= 1 && StartsFull(c, found)
    ensures var after := Opened(c, found);
            && 0 in after && after[0] == []
            && (j in after <==> j <= c.Last() && (j - 1 in found || j == 1) && Total(found, j - 1) <= c.maxTotal)
            && (j in after ==> after[j] == PartAt(found, j - 1))
  {
    var kept := Managed(c, found);
    ManagedExactly(c, found, j - 1);
    FullExactly(c, kept, j);
    OpenedIs(c, found, kept);
  }

  lemma OpenedRoomy(c: Config, found: Files, j: nat)
    requires c.Valid() && j >= 1 && !StartsFull(c, found)
    ensures var after := Opened(c, found);
            && 0 in after && after[0] == PartAt(found, 0)
            && (j in after <==> j <= c.Last() && j in found && Total(found, j) <= c.maxTotal)
            && (j in after ==> after[j] == PartAt(found, j))
  {
    var kept := Managed(c, found);
    ManagedExactly(c, found, j);
    FitExactly(c, kept, j);
    OpenedIs(c, found, kept);
    assert kept[0] == PartAt(found, 0);
  }

  /**
   Exactly what opening leaves: an active file below its limit stays active and a full one becomes the first
   rotation; a rotated file is a file found, whole, and is kept exactly when it is within the last index and
   fits the budget together with everything newer.
   */
  lemma OpenedExactly(c: Config, found: Files, j: nat)
    requires c.Valid() && j >= 1
    ensures var after, was := Opened(c, found), Before(StartsFull(c, found), j);
            && 0 in after && after[0] == (if StartsFull(c, found) then [] else PartAt(found, 0))
            && (j in after <==> j <= c.Last() && (was in found || was == 0) && Total(found, was) <= c.maxTotal)
            && (j in after ==> after[j] == PartAt(found, was))
  {
    if StartsFull(c, found) {
      OpenedFull(c, found, j);
    } else {
      OpenedRoomy(c, found, j);
    }
  }

  // ---- The file operations ----

  type Disk = map<nat, seq<Byte>>

  /** The bytes on disk are the recorded events, file by file. */
  ghost predicate Holds(disk: Disk, files: Files) {
    disk.Keys == files.Keys && forall i :: i in disk ==> disk[i] == Flatten(files[i])
  }

  lemma {:induction false} TotalIsSmall(files: Files, hi: nat)
    requires EachAtMost(files, MAX_FILE_SIZE)
    ensures Total(files, hi) <= (hi + 1) * MAX_FILE_SIZE
  {
    assert Flatten([]) == [];
    if hi == 0 {
    } else {
      TotalIsSmall(files, hi - 1);
    }
  }

  /** The saturating sum over the managed files is the exact one. */
  lemma TotalNext(files: Files, index: nat, total: nat)
    requires EachAtMost(files, MAX_FILE_SIZE) && 1 <= index < MAX_MANAGED_ROTATIONS
    requires total == Total(files, index - 1)
    ensures Total(files, index) == SatAdd64(total, SizeAt(files, index))
    ensures index !in files ==> Total(files, index) == total
  {
    TotalIsSmall(files, index);
    assert Flatten([]) == [];
  }

  lemma {:induction false} TotalAfterDelete(files: Files, k: nat, hi: nat)
    ensures Total(files - {k}, hi) == Total(files, hi) - (if k <= hi then SizeAt(files, k) else 0)
    decreases hi
  {
    assert Flatten([]) == [];
    if hi == 0 {
    } else {
      TotalAfterDelete(files, k, hi - 1);
    }
    if k > hi {
      assert PartAt(files - {k}, hi) == PartAt(files, hi);
    }
  }

  /** Indices without a file do not matter to pruning. */
  lemma {:induction false} PrunedSkips(files: Files, last: nat, k: nat, to: nat, budget: nat)
    requires to <= k && forall i :: to < i <= k ==> i !in files
    ensures Pruned(files, last, k, budget) == Pruned(files, last, to, budget)
    decreases k
  {
    if to == k {
    } else {
      assert files - {k} == files;
      PrunedSkips(files, last, k - 1, to, budget);
    }
  }

  /** A rotated file found on disk. */
  datatype Found = Found(index: nat, size: nat)

  ghost predicate Listed(rotations: seq<Found>, i: nat) {
    exists m :: 0 <= m < |rotations| && rotations[m].index == i
  }

  /** `rotations` are the rotated files below `end`, in index order, with their sizes. */
  ghost predicate Lists(rotations: seq<Found>, files: Files, end: nat) {
    && (forall m :: 0 <= m < |rotations| ==>
          1 <= rotations[m].index < end && rotations[m].index in files &&
              rotations[m].size == SizeAt(files, rotations[m].index))
    && (forall m, n :: 0 <= m < n < |rotations| ==> rotations[m].index < rotations[n].index)
    && (forall i :: i in files && 1 <= i < end ==> Listed(rotations, i))
  }

  lemma ListsNext(rotations: seq<Found>, files: Files, index: nat)
    requires Lists(rotations, files, index) && index >= 1
    ensures index in files ==> Lists(rotations + [Found(index, SizeAt(files, index))], files, index + 1)
    ensures index !in files ==> Lists(rotations, files, index + 1)
  {
    var more := rotations + [Found(index, SizeAt(files, index))];
    forall i | Listed(rotations, i)
      ensures Listed(more, i)
    {
      var m :| 0 <= m < |rotations| && rotations[m].index == i;
      assert more[m].index == i;
    }
    assert more[|rotations|].index == index;
  }

  /** The next index: a file there is listed and counted, an absent one changes nothing. */
  lemma MeasureNext(disk: Disk, files: Files, rotations: seq<Found>, index: nat, total: nat)
    requires Holds(disk, files) && EachAtMost(files, MAX_FILE_SIZE) && 1 <= index < MAX_MANAGED_ROTATIONS
    requires total == Total(files, index - 1) && Lists(rotations, files, index)
    ensures index in disk ==> SatAdd64(total, |disk[index]|) == Total(files, index)
    ensures index in disk ==> Lists(rotations + [Found(index, |disk[index]|)], files, index + 1)
    ensures index !in disk ==> Total(files, index) == total && Lists(rotations, files, index + 1)
  {
    TotalNext(files, index, total);
    ListsNext(rotations, files, index);
    if index in disk {
      assert |disk[index]| == SizeAt(files, index);
    }
  }

  function Top(rotations: seq<Found>): nat {
    if rotations == [] then 0 else rotations[|rotations| - 1].index
  }

  lemma ListedBelowTop(rotations: seq<Found>, files: Files, end: nat, i: nat)
    requires Lists(rotations, files, end) && Listed(rotations, i)
    ensures i <= Top(rotations)
  {
    var m :| 0 <= m < |rotations| && rotations[m].index == i;
  }

  lemma AboveTopUnlisted(rotations: seq<Found>, files: Files, end: nat, i: nat)
    requires Lists(rotations, files, end)
    ensures Top(rotations) < i < end ==> i !in files
  {
    if Listed(rotations, i) {
      ListedBelowTop(rotations, files, end, i);
    }
  }

  lemma ListsWithoutTop(rotations: seq<Found>, files: Files, end: nat)
    requires rotations != [] && Lists(rotations, files, end)
    ensures Lists(rotations[..|rotations| - 1], files - {Top(rotations)}, end)
  {
    var rest := rotations[..|rotations| - 1];
    var fewer := files - {Top(rotations)};
    forall m | 0 <= m < |rest|
      ensures rest[m].index in fewer && rest[m].size == SizeAt(fewer, rest[m].index)
    {
      assert rest[m] == rotations[m] && rotations[m].index < rotations[|rotations| - 1].index;
    }
    forall i | i in fewer && 1 <= i < end
      ensures Listed(rest, i)
    {
      ListedBelow(rotations, i);
    }
  }

  lemma ListedBelow(rotations: seq<Found>, i: nat)
    requires rotations != [] && Listed(rotations, i) && i != rotations[|rotations| - 1].index
    ensures Listed(rotations[..|rotations| - 1], i)
  {
    var m :| 0 <= m < |rotations| && rotations[m].index == i;
    assert rotations[..|rotations| - 1][m].index == i;
  }

  lemma GapBelowTop(rotations: seq<Found>, files: Files, end: nat)
    requires rotations != [] && Lists(rotations, files, end)
    ensures Top(rotations[..|rotations| - 1]) < Top(rotations)
    ensures forall i :: Top(rotations[..|rotations| - 1]) < i < Top(rotations) ==> i !in files
  {
    var rest := rotations[..|rotations| - 1];
    assert rest != [] ==> rotations[|rest| - 1].index < rotations[|rotations| - 1].index;
    forall i | Top(rest) < i < Top(rotations)
      ensures i !in files
    {
      ListsWithoutTop(rotations, files, end);
      AboveTopUnlisted(rest, files - {Top(rotations)}, end, i);
    }
  }

  lemma PrunedUnfold(files: Files, last: nat, k: nat, budget: nat)
    requires k >= 1 && Total(files, last) > budget
    ensures Pruned(files, last, k, budget) == Pruned(files - {k}, last, k - 1, budget)
  {
  }

  /** Deleting the last listed rotation is the next step of pruning. */
  lemma PruneStep(rotations: seq<Found>, files: Files, last: nat, budget: nat, k: nat, to: nat)
    requires rotations != [] && Lists(rotations, files, last + 1) && Total(files, last) > budget
    requires k == Top(rotations) && to == Top(rotations[..|rotations| - 1])
    ensures Pruned(files, last, k, budget) == Pruned(files - {k}, last, to, budget)
  {
    GapBelowTop(rotations, files, last + 1);
    PrunedUnfold(files, last, k, budget);
    PrunedSkips(files - {k}, last, k - 1, to, budget);
  }

  lemma PruneDone(rotations: seq<Found>, files: Files, last: nat, budget: nat)
    requires rotations == [] || Total(files, last) <= budget
    ensures Pruned(files, last, Top(rotations), budget) == files
  {
  }

  lemma PruneStart(rotations: seq<Found>, files: Files, last: nat, budget: nat)
    requires Lists(rotations, files, last + 1)
    ensures Top(rotations) <= last
    ensures Pruned(files, last, last, budget) == Pruned(files, last, Top(rotations), budget)
  {
    forall i | Top(rotations) < i <= last
      ensures i !in files
    {
      AboveTopUnlisted(rotations, files, last + 1, i);
    }
    PrunedSkips(files, last, last, Top(rotations), budget);
  }

  /** `rename_if_present`. */
  function Renamed(disk: Disk, from: nat, to: nat): Disk {
    if from in disk then disk[to := disk[from]] - {from} else disk
  }

  predicate SameAt(disk: Disk, i: nat, was: Disk, j: nat) {
    (i in disk <==> j in was) && (i in disk ==> disk[i] == was[j])
  }

  /** File i holds what file i - 1 held before. */
  predicate MovedUp(disk: Disk, was: Disk, i: nat) { i >= 1 && SameAt(disk, i, was, i - 1) }

  /** Rotations above k + 1 have moved up, k + 1 is free, and the rest is as it was. */
  ghost predicate Shifted(disk: Disk, was: Disk, k: nat, last: nat) {
    && (forall i :: i in disk ==> i <= last)
    && k + 1 !in disk
    && (forall i :: 0 <= i <= k ==> SameAt(disk, i, was, i))
    && (forall i :: k + 2 <= i <= last ==> MovedUp(disk, was, i))
  }

  lemma RenameShifts(disk: Disk, was: Disk, k: nat, last: nat)
    requires 1 <= k < last && Shifted(disk, was, k, last)
    ensures Shifted(Renamed(disk, k, k + 1), was, k - 1, last)
  {
    var next := Renamed(disk, k, k + 1);
    assert SameAt(disk, k, was, k);
    forall i | k + 1 <= i <= last
      ensures MovedUp(next, was, i)
    {
      if i > k + 1 {
        assert MovedUp(disk, was, i);
      }
    }
    forall i | 0 <= i <= k - 1
      ensures SameAt(next, i, was, i)
    {
      assert SameAt(disk, i, was, i);
    }
  }

  /** The rename loop of a rotation: the oldest file is deleted, the others move up by one. */
  method ShiftFiles(was: Disk, last: nat) returns (disk: Disk)
    requires forall i :: i in was ==> i <= last
    ensures forall i :: i in disk ==> 1 <= i <= last
    ensures forall i :: 1 <= i <= last ==> MovedUp(disk, was, i)
  {
    if last == 0 {
      return was - {0};
    }
    disk := was - {last};
    var index := last - 1;
    while index >= 1
      invariant 0 <= index < last
      invariant Shifted(disk, was, index, last)
    {
      RenameShifts(disk, was, index, last);
      disk := Renamed(disk, index, index + 1);
      index := index - 1;
    }
    assert SameAt(disk, 0, was, 0);
    ghost var before := disk;
    disk := Renamed(disk, 0, 1);
    forall i | 1 <= i <= last
      ensures MovedUp(disk, was, i)
    {
      if i >= 2 {
        assert MovedUp(before, was, i);
      }
    }
  }

  lemma RotatedOnDisk(shifted: Disk, was: Disk, files: Files, last: nat)
    requires Holds(was, files)
    requires forall i :: i in shifted ==> 1 <= i <= last
    requires forall i :: 1 <= i <= last ==> MovedUp(shifted, was, i)
    ensures Holds(shifted[0 := []], Rotated(files, last))
  {
    var disk := shifted[0 := []];
    var moved := Rotated(files, last);
    forall i: nat
      ensures i in disk <==> i in moved
      ensures i in disk ==> disk[i] == Flatten(moved[i])
    {
      if 1 <= i <= last {
        assert MovedUp(shifted, was, i);
        assert HasOlder(files, i) <==> i - 1 in files;
      }
    }
    assert disk.Keys == moved.Keys;
  }

  lemma RotatedSizes(files: Files, last: nat)
    requires EachAtMost(files, MAX_FILE_SIZE)
    ensures EachAtMost(Rotated(files, last), MAX_FILE_SIZE)
  {
    var moved := Rotated(files, last);
    forall i | i in moved
      ensures SizeAt(moved, i) <= MAX_FILE_SIZE
    {
      if i >= 1 {
        assert SizeAt(moved, i) == SizeAt(files, i - 1);
      } else {
        assert moved[0] == [];
      }
    }
  }

  lemma AppendOnDisk(disk: Disk, files: Files, e: Event)
    requires Holds(disk, files) && 0 in disk
    ensures Holds(disk[0 := disk[0] + e], files[0 := files[0] + [e]])
  {
    FlattenSnoc(files[0], e);
  }

  lemma AppendKeepsSizes(files: Files, e: Event)
    requires EachAtMost(files, MAX_FILE_SIZE) && 0 in files && SizeAt(files, 0) + |e| <= MAX_FILE_SIZE
    ensures EachAtMost(files[0 := files[0] + [e]], MAX_FILE_SIZE)
  {
    FlattenSnoc(files[0], e);
    var appended := files[0 := files[0] + [e]];
    forall i | i in appended
      ensures SizeAt(appended, i) <= MAX_FILE_SIZE
    {
      assert i != 0 ==> SizeAt(appended, i) == SizeAt(files, i);
    }
  }

  /** A log found on disk: each file counts as one block written earlier. */
  function Blocks(found: Disk): Files { map i | i in found :: [found[i]] }

  function WithActive(found: Disk): Disk { if 0 in found then found else found[0 := []] }

  /** Deletes the managed rotations the configuration no longer keeps. */
  method RemoveOutOfRange(found: Disk, first: nat) returns (disk: Disk)
    requires 1 <= first <= MAX_MANAGED_ROTATIONS
    ensures forall i :: i in disk <==> i in found && !(first <= i <= 64)
    ensures forall i :: i in disk ==> disk[i] == found[i]
  {
    disk := found;
    var index := first;
    while index <= MAX_MANAGED_ROTATIONS
      invariant first <= index <= MAX_MANAGED_ROTATIONS + 1
      invariant forall i :: i in disk <==> i in found && !(first <= i < index)
      invariant forall i :: i in disk ==> disk[i] == found[i]
    {
      disk := disk - {index};
      index := index + 1;
    }
  }

  function InRange(disk: Disk): Disk { map i | i in disk && i <= MAX_MANAGED_ROTATIONS :: disk[i] }
  function OutOfRange(disk: Disk): Disk { map i | i in disk && i > MAX_MANAGED_ROTATIONS :: disk[i] }

  /** What is left of a directory: the files in use, and those beyond the managed range as they were. */
  lemma KeptInRange(c: Config, found: Disk, kept: Disk)
    requires c.Valid()
    requires forall i :: i in kept <==> i in WithActive(found) && !(c.maxFiles <= i <= MAX_MANAGED_ROTATIONS)
    requires forall i :: i in kept ==> kept[i] == WithActive(found)[i]
    ensures forall i :: i in InRange(kept) <==> i in WithActive(found) && i < c.maxFiles
    ensures forall i :: i in InRange(kept) ==> InRange(kept)[i] == WithActive(found)[i]
    ensures OutOfRange(kept) == OutOfRange(found)
  {
  }

  lemma BlockAt(c: Config, found: Disk, i: nat)
    requires c.Valid() && i in Managed(c, Blocks(found))
    ensures i in WithActive(found) && i < c.maxFiles
    ensures Flatten(Managed(c, Blocks(found))[i]) == WithActive(found)[i]
  {
    if i in found {
      assert Managed(c, Blocks(found))[i] == [found[i]];
      FlattenOne(found[i]);
    }
  }

  lemma BlocksHold(c: Config, found: Disk, disk: Disk)
    requires c.Valid() && forall i :: i in found ==> |found[i]| <= MAX_FILE_SIZE
    requires forall i :: i in disk <==> i in WithActive(found) && i < c.maxFiles
    requires forall i :: i in disk ==> disk[i] == WithActive(found)[i]
    ensures Holds(disk, Managed(c, Blocks(found)))
    ensures InBounds(c, Managed(c, Blocks(found)))
    ensures EachAtMost(Managed(c, Blocks(found)), MAX_FILE_SIZE)
  {
    var files := Managed(c, Blocks(found));
    forall i | i in files
      ensures i in disk && disk[i] == Flatten(files[i]) && SizeAt(files, i) <= MAX_FILE_SIZE
    {
      BlockAt(c, found, i);
    }
    assert forall i :: i in disk ==> i in files;
  }

  /** The disk holds the files, and the files obey the bounds. */
  ghost predicate Kept(c: Config, disk: Disk, files: Files) {
    c.Valid() && Holds(disk, files) && InBounds(c, files) && EachAtMost(files, MAX_FILE_SIZE)
  }

  lemma RotateKeeps(c: Config, disk: Disk, files: Files, shifted: Disk)
    requires Kept(c, disk, files)
    requires forall i :: i in shifted ==> 1 <= i <= c.Last()
    requires forall i :: 1 <= i <= c.Last() ==> MovedUp(shifted, disk, i)
    ensures Kept(c, shifted[0 := []], Rotated(files, c.Last()))
  {
    RotatedOnDisk(shifted, disk, files, c.Last());
    RotatedKeepsSuffix(files, c.Last());
    RotatedSizes(files, c.Last());
  }

  lemma AppendKeeps(c: Config, disk: Disk, files: Files, e: Event)
    requires Kept(c, disk, files) && |disk[0]| + |e| <= MAX_FILE_SIZE
    ensures Kept(c, disk[0 := disk[0] + e], files[0 := files[0] + [e]])
  {
    AppendOnDisk(disk, files, e);
    AppendKeepsSizes(files, e);
  }

  /** Creates the active file if need be, deletes the out-of-range rotations and leaves the unmanaged ones. */
  method OpenDirectory(c: Config, found: Disk) returns (disk: Disk, unmanaged: Disk)
    requires c.Valid() && forall i :: i in found ==> |found[i]| <= MAX_FILE_SIZE
    ensures Kept(c, disk, Managed(c, Blocks(found)))
    ensures unmanaged == OutOfRange(found)
  {
    var kept := RemoveOutOfRange(WithActive(found), c.maxFiles);
    KeptInRange(c, found, kept);
    disk, unmanaged := InRange(kept), OutOfRange(kept);
    BlocksHold(c, found, disk);
  }

  class RotatingFile {
    const c: Config
    /** Rotations beyond the managed range, which the log never touches. */
    const unmanaged: Disk
    var disk: Disk
    var bytes: nat
    ghost var files: Files

    /** Everything except the limit on the active file, which a rotation or a write restores. */
    ghost predicate Stored()
      reads this
    {
      Kept(c, disk, files) && bytes == |disk[0]|
    }

    ghost predicate Valid()
      reads this
    {
      Stored() && bytes <= c.maxBytes
    }

    /** Opens a log directory: out-of-range rotations are deleted, a full active file is rotated. */
    constructor (c: Config, found: Disk)
      requires c.Valid()
      requires forall i :: i in found ==> |found[i]| <= MAX_FILE_SIZE
      ensures Valid() && this.c == c && files == Opened(c, Blocks(found))
      ensures unmanaged == OutOfRange(found)
    {
      var managed, rest := OpenDirectory(c, found);
      this.c, disk, unmanaged, bytes := c, managed, rest, |managed[0]|;
      files := Managed(c, Blocks(found));
      new;
      if bytes >= c.maxBytes {
        Rotate();
      }
      PruneTotal();
    }

    method Remove(index: nat)
      requires Stored() && index >= 1
      modifies `disk, `files
      ensures Stored() && files == old(files) - {index}
    {
      disk := disk - {index};
      files := files - {index};
    }

    /** Lists and counts the rotation at one index, if there is one. */
    method MeasureAt(index: nat, rotations: seq<Found>, total: nat) returns (more: seq<Found>, sum: nat)
      requires Stored() && 1 <= index < c.maxFiles
      requires total == Total(files, index - 1) && Lists(rotations, files, index)
      ensures sum == Total(files, index) && Lists(more, files, index + 1)
    {
      MeasureNext(disk, files, rotations, index, total);
      if index in disk {
        return rotations + [Found(index, |disk[index]|)], SatAdd64(total, |disk[index]|);
      }
      return rotations, total;
    }

    /** Adds up the sizes of the active file and of the rotations present. */
    method Measure() returns (rotations: seq<Found>, total: nat)
      requires Stored()
      ensures total == Total(files, c.Last())
      ensures Lists(rotations, files, c.maxFiles)
    {
      rotations, total := [], bytes;
      var index := 1;
      while index < c.maxFiles
        invariant 1 <= index <= c.maxFiles
        invariant total == Total(files, index - 1)
        invariant Lists(rotations, files, index)
      {
        rotations, total := MeasureAt(index, rotations, total);
        index := index + 1;
      }
    }

    /** A prune in progress: what is listed and counted, and what pruning on leads to. */
    ghost predicate Pruning(rotations: seq<Found>, total: nat, goal: Files)
      reads this
    {
      && Stored() && total == Total(files, c.Last())
      && Lists(rotations, files, c.maxFiles)
      && Pruned(files, c.Last(), Top(rotations), c.maxTotal) == goal
    }

    /** Deletes the oldest rotation listed. */
    method DropOldest(rotations: seq<Found>, total: nat, ghost goal: Files) returns (rest: seq<Found>, left: nat)
      requires rotations != [] && Pruning(rotations, total, goal) && total > c.maxTotal
      modifies `disk, `files
      ensures |rest| < |rotations| && Pruning(rest, left, goal)
    {
      var found := rotations[|rotations| - 1];
      TotalAfterDelete(files, found.index, c.Last());
      PruneStep(rotations, files, c.Last(), c.maxTotal, found.index, Top(rotations[..|rotations| - 1]));
      ListsWithoutTop(rotations, files, c.maxFiles);
      Remove(found.index);
      left := SatSub(total, found.size);
      rest := rotations[..|rotations| - 1];
    }

    /** Deletes rotations from the oldest on until the total fits the budget. */
    method PruneTotal()
      requires Stored()
      modifies `disk, `files
      ensures Stored() && files == Fit(c, old(files))
    {
      ghost var goal := Fit(c, files);
      var rotations, total := Measure();
      PruneStart(rotations, files, c.Last(), c.maxTotal);
      while rotations != [] && total > c.maxTotal
        invariant 0 <= total && Pruning(rotations, total, goal)
        decreases |rotations|
      {
        rotations, total := DropOldest(rotations, total, goal);
      }
      PruneDone(rotations, files, c.Last(), c.maxTotal);
    }

    /** Renames the rotations up by one, the oldest first, and starts an empty active file. */
    method Rotate()
      requires Stored()
      modifies this
      ensures Stored() && files == Fit(c, Rotated(old(files), c.Last())) && bytes == 0
    {
      var shifted := ShiftFiles(disk, c.maxFiles - 1);
      RotateKeeps(c, disk, files, shifted);
      disk := shifted[0 := []];
      files := Rotated(files, c.Last());
      bytes := 0;
      PruneTotal();
    }

    /** Rotates when the event would not fit behind what the active file holds. */
    method MakeRoom(e: Event)
      requires Valid() && |e| <= c.maxBytes
      modifies this
      ensures Stored() && files == Room(c, old(files), e) && bytes + |e| <= c.maxBytes
    {
      if bytes > 0 && SatAdd64(bytes, |e|) > c.maxBytes {
        Rotate();
      }
    }

    /** Appends the event to the active file. */
    method Append(e: Event)
      requires Stored() && bytes + |e| <= MAX_FILE_SIZE
      modifies this
      ensures Stored() && files == old(files)[0 := PartAt(old(files), 0) + [e]] && bytes == old(bytes) + |e|
    {
      AppendKeeps(c, disk, files, e);
      disk := disk[0 := disk[0] + e];
      files := files[0 := files[0] + [e]];
      bytes := SatAdd64(bytes, |e|);
    }

    /** One event: refused if longer than a file may be, else appended, rotating and pruning as needed. */
    method Write(e: Event) returns (ok: bool)
      requires Valid()
      modifies this
      ensures Valid()
      ensures ok <==> |e| <= c.maxBytes
      ensures files == Written(c, old(files), e)
    {
      if |e| > c.maxBytes {
        return false;
      }
      MakeRoom(e);
      Append(e);
      PruneTotal();
      ok := true;
    }
  }
}
