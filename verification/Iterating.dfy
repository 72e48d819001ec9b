/** Iterating over the numbers of a sequence set: in the given order with duplicates, or
    sorted and without duplicates. */
module Iterating {
  import opened Octets
  import opened SequenceSets
  import opened Sorting
  import opened Normalizing
  import opened Rereading

  /** Two bounds; the numbers between them are visited from the first to the second. */
  type Bounds = (nat, nat)

  predicate InBounds(b: Bounds, x: nat) {
    Min(b.0, b.1) <= x <= Max(b.0, b.1)
  }

  ghost predicate InSome(bs: seq<Bounds>, x: nat) {
    exists k :: 0 <= k < |bs| && InBounds(bs[k], x)
  }

  ghost predicate AllNonZero(bs: seq<Bounds>) {
    forall k | 0 <= k < |bs| :: 1 <= bs[k].0 <= U32_MAX && 1 <= bs[k].1 <= U32_MAX
  }

  function SimplifyOne(s: Sequence, largest: NonZeroU32, sort: bool): Bounds {
    match s
    case Single(a) => (a.Expand(largest), a.Expand(largest))
    case Range(a, b) =>
      var x, y := a.Expand(largest), b.Expand(largest);
      if sort && y < x then (y, x) else (x, y)
  }

  function Simplify(set_: seq<Sequence>, largest: NonZeroU32, sort: bool): seq<Bounds> {
    seq(|set_|, k requires 0 <= k < |set_| => SimplifyOne(set_[k], largest, sort))
  }

  lemma SimplifyKeepsMembers(set_: seq<Sequence>, largest: NonZeroU32, sort: bool)
    ensures var bs := Simplify(set_, largest, sort);
            && AllNonZero(bs)
            && (forall x :: InSome(bs, x) <==> Member(set_, largest, x))
            && (sort ==> forall k | 0 <= k < |bs| :: bs[k].0 <= bs[k].1)
  {
    var bs := Simplify(set_, largest, sort);
    forall x
      ensures InSome(bs, x) <==> Member(set_, largest, x)
    {
      if InSome(bs, x) {
        var k :| 0 <= k < |bs| && InBounds(bs[k], x);
        assert Denotes(set_[k], largest, x);
      }
      if Member(set_, largest, x) {
        var k :| 0 <= k < |set_| && Denotes(set_[k], largest, x);
        assert InBounds(bs[k], x);
      }
    }
  }

  // ----- Cleaning up -----

  predicate BoundsBefore(a: Bounds, b: Bounds) {
    a.0 < b.0 || (a.0 == b.0 && a.1 < b.1)
  }

  /** Ascending intervals between which at least one number is missing. */
  ghost predicate Disjoint(bs: seq<Bounds>) {
    && (forall k | 0 <= k < |bs| :: bs[k].0 <= bs[k].1)
    && (forall i, j | 0 <= i < j < |bs| :: bs[i].1 + 1 < bs[j].0)
  }

  ghost predicate InSomeUpTo(bs: seq<Bounds>, n: nat, x: nat)
    requires n <= |bs|
  {
    exists k :: 0 <= k < n && InBounds(bs[k], x)
  }

  lemma InSomePush(bs: seq<Bounds>, b: Bounds)
    ensures forall x :: InSome(bs + [b], x) <==> InSome(bs, x) || InBounds(b, x)
  {
    var all := bs + [b];
    forall x
      ensures InSome(all, x) <==> InSome(bs, x) || InBounds(b, x)
    {
      if InSome(bs, x) {
        var k :| 0 <= k < |bs| && InBounds(bs[k], x);
        assert InBounds(all[k], x);
      }
      if InBounds(b, x) {
        assert InBounds(all[|bs|], x);
      }
    }
  }

  method Stack(stack: seq<Bounds>, next: Bounds) returns (r: seq<Bounds>)
    requires stack != [] && Disjoint(stack) && AllNonZero(stack)
    requires 1 <= next.0 <= next.1 <= U32_MAX
    requires stack[|stack| - 1].0 <= next.0
    ensures r != [] && Disjoint(r) && AllNonZero(r)
    ensures r[|r| - 1].0 <= next.0
    ensures forall x :: InSome(r, x) <==> InSome(stack, x) || InBounds(next, x)
  {
    var m := |stack| - 1;
    var last, front := stack[m], stack[..m];
    assert stack == front + [last];
    InSomePush(front, last);
    if last.0 <= next.0 && next.0 <= SaturatingNext(last.1) {
      InSomePush(front, (last.0, Max(last.1, next.1)));
      r := front + [(last.0, Max(last.1, next.1))];
    } else {
      InSomePush(stack, next);
      r := stack + [next];
    }
  }

  lemma SortedBounds(sorted: seq<Bounds>, bs: seq<Bounds>)
    requires multiset(sorted) == multiset(bs)
    requires AllNonZero(bs) && (forall k | 0 <= k < |bs| :: bs[k].0 <= bs[k].1)
    ensures |sorted| == |bs|
    ensures AllNonZero(sorted) && (forall k | 0 <= k < |sorted| :: sorted[k].0 <= sorted[k].1)
    ensures forall x :: InSome(sorted, x) <==> InSome(bs, x)
  {
    SameElements(sorted, bs);
    SameElements(bs, sorted);
    assert |multiset(sorted)| == |multiset(bs)|;
  }

  method Cleanup(remaining: seq<Bounds>) returns (stack: seq<Bounds>)
    requires remaining != [] && AllNonZero(remaining)
    requires forall k | 0 <= k < |remaining| :: remaining[k].0 <= remaining[k].1
    ensures Disjoint(stack) && AllNonZero(stack)
    ensures forall x :: InSome(stack, x) <==> InSome(remaining, x)
  {
    BoundsOrder();
    var sorted := Sort(remaining, BoundsBefore);
    SortedBounds(sorted, remaining);
    stack := [sorted[0]];
    UpToOne(sorted);
    for i := 1 to |sorted|
      invariant stack != [] && Disjoint(stack) && AllNonZero(stack)
      invariant stack[|stack| - 1].0 <= sorted[i - 1].0
      invariant forall x :: InSome(stack, x) <==> InSomeUpTo(sorted, i, x)
    {
      UpToNext(sorted, i);
      stack := Stack(stack, sorted[i]);
    }
  }

  lemma BoundsOrder()
    ensures IsOrder(BoundsBefore)
  {
  }

  lemma UpToOne(bs: seq<Bounds>)
    requires bs != []
    ensures forall x :: InSome([bs[0]], x) <==> InSomeUpTo(bs, 1, x)
  {
    forall x ensures InSome([bs[0]], x) <==> InBounds(bs[0], x) {
      assert InBounds([bs[0]][0], x) <==> InBounds(bs[0], x);
    }
  }

  lemma UpToNext(bs: seq<Bounds>, i: nat)
    requires 1 <= i < |bs| && Sorted(bs, BoundsBefore)
    ensures bs[i - 1].0 <= bs[i].0
    ensures forall x :: InSomeUpTo(bs, i + 1, x) <==> InSomeUpTo(bs, i, x) || InBounds(bs[i], x)
  {
    assert !BoundsBefore(bs[i], bs[i - 1]);
  }

  // ----- What an iterator yields -----

  function Up(a: nat, b: nat): seq<nat>
    decreases if a <= b then b - a + 1 else 0
  {
    if a > b then [] else [a] + Up(a + 1, b)
  }

  function Down(a: nat, b: nat): seq<nat> {
    if a < b then [] else [a] + (if a == 0 then [] else Down(a - 1, b))
  }

  function Visit(b: Bounds): seq<nat> {
    if b.0 <= b.1 then Up(b.0, b.1) else Down(b.0, b.1)
  }

  function VisitAll(bs: seq<Bounds>): seq<nat> {
    if bs == [] then [] else Visit(bs[0]) + VisitAll(bs[1..])
  }

  lemma {:induction false} UpElements(a: nat, b: nat)
    ensures Ascending(Up(a, b))
    ensures forall x :: x in Up(a, b) <==> a <= x <= b
    decreases if a <= b then b - a + 1 else 0
  {
    if a <= b {
      UpElements(a + 1, b);
      AscendingCons(a, Up(a + 1, b));
    }
  }

  lemma AscendingCons(a: nat, s: seq<nat>)
    requires Ascending(s)
    requires forall x | x in s :: a < x
    ensures Ascending([a] + s)
  {
    var t := [a] + s;
    forall i, j | 0 <= i < j < |t|
      ensures t[i] < t[j]
    {
      assert t[j] == s[j - 1] && s[j - 1] in s;
      assert i > 0 ==> t[i] == s[i - 1];
    }
  }

  lemma {:induction false} DownElements(a: nat, b: nat)
    ensures forall x :: x in Down(a, b) <==> b <= x <= a
  {
    if b <= a && a > 0 {
      DownElements(a - 1, b);
    }
  }

  lemma {:induction false} VisitAllElements(bs: seq<Bounds>)
    ensures forall x :: x in VisitAll(bs) <==> InSome(bs, x)
  {
    if bs != [] {
      VisitAllElements(bs[1..]);
      UpElements(bs[0].0, bs[0].1);
      DownElements(bs[0].0, bs[0].1);
      assert bs == [bs[0]] + bs[1..];
      forall x: nat
        ensures InSome(bs, x) <==> InBounds(bs[0], x) || InSome(bs[1..], x)
      {
        if InSome(bs, x) {
          var k :| 0 <= k < |bs| && InBounds(bs[k], x);
          assert k > 0 ==> InBounds(bs[1..][k - 1], x);
        }
        if InSome(bs[1..], x) {
          var k :| 0 <= k < |bs[1..]| && InBounds(bs[1..][k], x);
          assert InBounds(bs[k + 1], x);
        }
      }
    }
  }

  lemma AscendingConcat(a: seq<nat>, b: seq<nat>)
    requires Ascending(a) && Ascending(b)
    requires forall x, y | x in a && y in b :: x < y
    ensures Ascending(a + b)
  {
    forall i, j | 0 <= i < j < |a + b|
      ensures (a + b)[i] < (a + b)[j]
    {
      if i < |a| <= j {
        assert a[i] in a && b[j - |a|] in b;
      }
    }
  }

  lemma {:induction false} VisitAllAscending(bs: seq<Bounds>)
    requires Disjoint(bs)
    ensures Ascending(VisitAll(bs))
  {
    if bs != [] {
      var rest := bs[1..];
      UpElements(bs[0].0, bs[0].1);
      VisitAllAscending(rest);
      VisitAllElements(rest);
      forall x, y | x in Visit(bs[0]) && y in VisitAll(rest)
        ensures x < y
      {
        var k :| 0 <= k < |rest| && InBounds(rest[k], y);
        assert rest[k] == bs[k + 1] && bs[0].1 < bs[k + 1].0;
      }
      AscendingConcat(Visit(bs[0]), VisitAll(rest));
    }
  }

  // ----- The iterator -----

  /** A range of the standard library, walked from either end. */
  datatype RangeInclusive = RangeInclusive(start: nat, end: nat, exhausted: bool)

  datatype ActiveRange = AscendingOver(range: RangeInclusive) | DescendingOver(range: RangeInclusive)

  function ToVisit(s: ActiveRange): seq<nat> {
    if s.range.exhausted then []
    else if s.AscendingOver? then Up(s.range.start, s.range.end)
    else Down(s.range.end, s.range.start)
  }

  /** The next number of a range. The last one is not stepped over, so nothing overflows. */
  function NextOf(s: ActiveRange): (r: (Option<nat>, ActiveRange))
  {
    var range := s.range;
    if range.exhausted || range.start > range.end then (None, s)
    else
      var item := if s.AscendingOver? then range.start else range.end;
      if range.start == range.end then (Some(item), s.(range := range.(exhausted := true)))
      else if s.AscendingOver? then (Some(item), s.(range := range.(start := range.start + 1)))
      else (Some(item), s.(range := range.(end := range.end - 1)))
  }

  lemma NextOfVisits(s: ActiveRange)
    ensures var (item, left) := NextOf(s);
            ToVisit(s) == if item.Some? then [item.value] + ToVisit(left) else []
  {
    var x := s.range.start;
    if x == s.range.end {
      assert Up(x + 1, x) == [] && (x > 0 ==> Down(x - 1, x) == []);
    }
  }

  lemma TakenFirst(s: ActiveRange, more: seq<nat>)
    ensures var (item, left) := NextOf(s);
            ToVisit(s) + more == if item.Some? then [item.value] + (ToVisit(left) + more) else more
  {
    NextOfVisits(s);
  }

  /** The first of the numbers is taken, if there is one. */
  ghost predicate Yields(before: seq<nat>, item: Option<nat>, after: seq<nat>) {
    match item
    case None => before == [] && after == []
    case Some(n) => before == [n] + after
  }

  class SequenceSetIter {
    var ranges: seq<Bounds>
    var activeRange: Option<ActiveRange>

    constructor (ranges: seq<Bounds>)
      ensures Remaining() == VisitAll(ranges)
    {
      this.ranges, activeRange := ranges, None;
    }

    /** The numbers still to be yielded. */
    ghost function Remaining(): seq<nat>
      reads this
    {
      (if activeRange.Some? then ToVisit(activeRange.value) else []) + VisitAll(ranges)
    }

    method Next() returns (item: Option<nat>)
      modifies this
      ensures Yields(old(Remaining()), item, Remaining())
    {
      ghost var all := Remaining();
      while true
        invariant Remaining() == all
        decreases |ranges|, activeRange.Some?
      {
        if activeRange.Some? {
          item := Advance();
          if item.Some? {
            return;
          }
        } else if ranges == [] {
          return None;
        } else {
          Activate();
        }
      }
    }

    /** Takes a number from the active range, or gives the range up. */
    method Advance() returns (item: Option<nat>)
      requires activeRange.Some?
      modifies this
      ensures ranges == old(ranges)
      ensures match item
              case None => activeRange == None && old(Remaining()) == Remaining()
              case Some(n) => old(Remaining()) == [n] + Remaining()
    {
      TakenFirst(activeRange.value, VisitAll(ranges));
      var (next, left) := NextOf(activeRange.value);
      item := next;
      activeRange := if next.Some? then Some(left) else None;
    }

    /** Makes the first range active. */
    method Activate()
      requires activeRange.None? && ranges != []
      modifies this
      ensures ranges == old(ranges)[1..] && Remaining() == old(Remaining())
    {
      var (a, b) := ranges[0];
      ranges := ranges[1..];
      activeRange := Some(if a <= b then AscendingOver(RangeInclusive(a, b, false))
                          else DescendingOver(RangeInclusive(b, a, false)));
    }
  }

  /** Of the numbers `all`, `items` are collected and `next` was just taken. */
  ghost predicate Collected(all: seq<nat>, items: seq<nat>, next: Option<nat>, remaining: seq<nat>) {
    match next
    case None => items == all
    case Some(x) => items + ([x] + remaining) == all
  }

  lemma CollectFirst(all: seq<nat>, next: Option<nat>, remaining: seq<nat>)
    requires Yields(all, next, remaining)
    ensures Collected(all, [], next, remaining)
  {
  }

  lemma CollectNext(
      all: seq<nat>, items: seq<nat>, x: nat, before: seq<nat>, next: Option<nat>, remaining: seq<nat>)
    requires Collected(all, items, Some(x), before)
    requires Yields(before, next, remaining)
    ensures Collected(all, items + [x], next, remaining)
    ensures |items| < |all|
  {
    assert items + ([x] + before) == (items + [x]) + before;
    assert before == [] ==> (items + [x]) + before == items + [x];
  }

  method Collect(iter: SequenceSetIter) returns (items: seq<nat>)
    modifies iter
    ensures items == old(iter.Remaining())
  {
    items := [];
    ghost var all := iter.Remaining();
    var next := iter.Next();
    CollectFirst(all, next, iter.Remaining());
    while next.Some?
      invariant Collected(all, items, next, iter.Remaining())
      decreases |all| - |items|
    {
      var x := next.value;
      ghost var before := iter.Remaining();
      next := iter.Next();
      CollectNext(all, items, x, before, next, iter.Remaining());
      items := items + [x];
    }
  }

  // ----- Fast and naive iteration -----

  ghost predicate FastOf(items: seq<nat>, set_: seq<Sequence>, largest: NonZeroU32) {
    Ascending(items) && forall x :: x in items <==> Member(set_, largest, x)
  }

  function NaiveItems(set_: seq<Sequence>, largest: NonZeroU32): seq<nat> {
    VisitAll(Simplify(set_, largest, false))
  }

  /** The numbers of one sequence from its first bound to its second. */
  ghost predicate IsRun(run: seq<nat>, s: Sequence, largest: NonZeroU32) {
    match s
    case Single(a) => run == [a.Expand(largest)]
    case Range(a, b) =>
      var x, y := a.Expand(largest), b.Expand(largest);
      if x <= y then |run| == y - x + 1 && forall k | 0 <= k < |run| :: run[k] == x + k
      else |run| == x - y + 1 && forall k | 0 <= k < |run| :: run[k] == x - k
  }

  function Concat(runs: seq<seq<nat>>): seq<nat> {
    if runs == [] then [] else runs[0] + Concat(runs[1..])
  }

  ghost predicate AreRuns(runs: seq<seq<nat>>, set_: seq<Sequence>, largest: NonZeroU32) {
    |runs| == |set_| && forall k | 0 <= k < |set_| :: IsRun(runs[k], set_[k], largest)
  }

  /** One run per sequence, in the order written. */
  ghost predicate RunByRun(items: seq<nat>, set_: seq<Sequence>, largest: NonZeroU32) {
    exists runs :: AreRuns(runs, set_, largest) && items == Concat(runs)
  }

  lemma {:induction false} UpIsRun(a: nat, b: nat)
    requires a <= b
    ensures |Up(a, b)| == b - a + 1
    ensures forall k | 0 <= k < |Up(a, b)| :: Up(a, b)[k] == a + k
    decreases b - a
  {
    if a < b {
      UpIsRun(a + 1, b);
    } else {
      assert Up(a + 1, b) == [];
    }
  }

  lemma {:induction false} DownIsRun(a: nat, b: nat)
    requires a >= b
    ensures |Down(a, b)| == a - b + 1
    ensures forall k | 0 <= k < |Down(a, b)| :: Down(a, b)[k] == a - k
    decreases a - b
  {
    if a > b {
      DownIsRun(a - 1, b);
    } else {
      assert a > 0 ==> Down(a - 1, b) == [];
    }
  }

  lemma VisitIsRun(s: Sequence, largest: NonZeroU32)
    ensures IsRun(Visit(SimplifyOne(s, largest, false)), s, largest)
  {
    var bounds := SimplifyOne(s, largest, false);
    if bounds.0 <= bounds.1 {
      UpIsRun(bounds.0, bounds.1);
    } else {
      DownIsRun(bounds.0, bounds.1);
    }
  }

  lemma {:induction false} VisitAllRuns(set_: seq<Sequence>, largest: NonZeroU32) returns (runs: seq<seq<nat>>)
    ensures AreRuns(runs, set_, largest) && NaiveItems(set_, largest) == Concat(runs)
  {
    if set_ == [] {
      runs := [];
    } else {
      var bs := Simplify(set_, largest, false);
      var more := VisitAllRuns(set_[1..], largest);
      assert bs[1..] == Simplify(set_[1..], largest, false);
      VisitIsRun(set_[0], largest);
      runs := [Visit(bs[0])] + more;
      assert runs[1..] == more;
    }
  }

  /** Naive iteration yields one run after the other, in the order written, with repetitions. */
  lemma NaiveRunByRun(set_: seq<Sequence>, largest: NonZeroU32)
    ensures RunByRun(NaiveItems(set_, largest), set_, largest)
  {
    var runs := VisitAllRuns(set_, largest);
  }

  method IterNaive(set_: seq<Sequence>, largest: NonZeroU32) returns (items: seq<nat>)
    ensures items == NaiveItems(set_, largest)
    ensures RunByRun(items, set_, largest)
  {
    NaiveRunByRun(set_, largest);
    var iter := new SequenceSetIter(Simplify(set_, largest, false));
    items := Collect(iter);
  }

  method Iter(set_: seq<Sequence>, largest: NonZeroU32) returns (items: seq<nat>)
    requires set_ != []
    ensures FastOf(items, set_, largest)
    ensures forall x | x in items :: 1 <= x <= U32_MAX
  {
    SimplifyKeepsMembers(set_, largest, true);
    var ranges := Cleanup(Simplify(set_, largest, true));
    var iter := new SequenceSetIter(ranges);
    items := Collect(iter);
    VisitAllElements(ranges);
    VisitAllAscending(ranges);
  }

  function InsertInto(sorted: seq<nat>, x: nat): seq<nat> {
    if sorted == [] || x <= sorted[0] then [x] + sorted
    else [sorted[0]] + InsertInto(sorted[1..], x)
  }

  function SortNumbers(s: seq<nat>): seq<nat> {
    if s == [] then [] else InsertInto(SortNumbers(s[1..]), s[0])
  }

  /** Removes consecutive repetitions. */
  function Dedup(s: seq<nat>): seq<nat> {
    if |s| <= 1 then s
    else if s[0] == s[1] then Dedup(s[1..])
    else [s[0]] + Dedup(s[1..])
  }

  ghost predicate NonDescending(s: seq<nat>) {
    forall i, j | 0 <= i < j < |s| :: s[i] <= s[j]
  }

  lemma ConsNonDescending(a: nat, s: seq<nat>)
    requires NonDescending(s)
    requires forall x | x in s :: a <= x
    ensures NonDescending([a] + s)
  {
    var t := [a] + s;
    forall i, j | 0 <= i < j < |t|
      ensures t[i] <= t[j]
    {
      assert t[j] == s[j - 1] && s[j - 1] in s;
      assert i > 0 ==> t[i] == s[i - 1];
    }
  }

  lemma {:induction false} InsertIntoSorted(s: seq<nat>, x: nat)
    requires NonDescending(s)
    ensures NonDescending(InsertInto(s, x))
    ensures forall y :: y in InsertInto(s, x) <==> y == x || y in s
  {
    if s == [] || x <= s[0] {
      ConsNonDescending(x, s);
    } else {
      InsertIntoSorted(s[1..], x);
      assert s == [s[0]] + s[1..];
      ConsNonDescending(s[0], InsertInto(s[1..], x));
    }
  }

  lemma {:induction false} SortNumbersSorted(s: seq<nat>)
    ensures NonDescending(SortNumbers(s))
    ensures forall y :: y in SortNumbers(s) <==> y in s
  {
    if s != [] {
      SortNumbersSorted(s[1..]);
      InsertIntoSorted(SortNumbers(s[1..]), s[0]);
      assert s == [s[0]] + s[1..];
    }
  }

  lemma {:induction false} DedupAscending(s: seq<nat>)
    requires NonDescending(s)
    ensures Ascending(Dedup(s))
    ensures forall y :: y in Dedup(s) <==> y in s
  {
    if |s| > 1 {
      var t := s[1..];
      DedupAscending(t);
      assert s == [s[0]] + t && t[0] in t;
      if s[0] != s[1] {
        forall y | y in Dedup(t)
          ensures s[0] < y
        {
          var k :| 0 <= k < |t| && t[k] == y;
          assert s[0] < s[1] <= s[k + 1];
        }
        AscendingCons(s[0], Dedup(t));
      }
    }
  }

  /** Fast iteration yields what sorting and deduplicating the naive iteration yields. */
  lemma FastRefinesNaive(items: seq<nat>, set_: seq<Sequence>, largest: NonZeroU32)
    ensures FastOf(items, set_, largest) <==> items == Dedup(SortNumbers(NaiveItems(set_, largest)))
  {
    var naive := NaiveItems(set_, largest);
    SimplifyKeepsMembers(set_, largest, false);
    VisitAllElements(Simplify(set_, largest, false));
    SortNumbersSorted(naive);
    DedupAscending(SortNumbers(naive));
    if FastOf(items, set_, largest) {
      AscendingUnique(items, Dedup(SortNumbers(naive)));
    }
  }

  // ----- Normalizing and iterating -----

  /** Normalizing leaves what iteration yields as it is if and only if it keeps the reading with
      `*` as `largest`. */
  lemma NormalizeKeepsIteration(
      set_: seq<Sequence>, out: seq<Sequence>, largest: NonZeroU32, before: seq<nat>, after: seq<nat>)
    requires NormalFormOf(out, set_)
    requires FastOf(before, set_, largest) && FastOf(after, out, largest)
    ensures before == after <==> Readable(set_, largest)
  {
    NormalFormKeepsReading(out, set_, largest);
    if SameMembers(out, set_, largest) {
      AscendingUnique(before, after);
    }
  }
}
