/** Normalizing as the library does it: in place, with a hash set and half-open ranges. */
module Normalizer {
  import opened SequenceSets
  import opened Normalizing
  import opened Sorting

  predicate StartsBefore(a: Span, b: Span) {
    a.start < b.start
  }

  predicate KeyBefore(a: Sequence, b: Sequence) {
    Key(a) < Key(b)
  }

  function Key(s: Sequence): NonZeroU32 {
    match s
    case Single(a) => a.ToNonZeroU32()
    case Range(a, _) => a.ToNonZeroU32()
  }

  ghost predicate AllValid(rs: seq<Span>) {
    forall k | 0 <= k < |rs| :: ValidSpan(rs[k])
  }

  ghost predicate SameCover(a: seq<Span>, b: seq<Span>) {
    forall x :: Covered(a, x) <==> Covered(b, x)
  }

  // ----- Merging -----

  ghost predicate CoveredUpTo(rs: seq<Span>, n: nat, x: nat)
    requires n <= |rs|
  {
    exists k :: 0 <= k < n && Covers(rs[k], x)
  }

  function Extend(last: Span, r: Span): Span {
    Span(last.start, Max(last.end, r.end))
  }

  lemma ExtendCovers(last: Span, r: Span)
    requires ValidSpan(last) && ValidSpan(r)
    requires last.start <= r.start <= last.end
    ensures ValidSpan(Extend(last, r))
    ensures forall x :: Covers(Extend(last, r), x) <==> Covers(last, x) || Covers(r, x)
  {
  }

  lemma CoveredPush(rs: seq<Span>, r: Span)
    ensures forall x :: Covered(rs + [r], x) <==> Covered(rs, x) || Covers(r, x)
  {
    var all := rs + [r];
    forall x
      ensures Covered(all, x) <==> Covered(rs, x) || Covers(r, x)
    {
      if Covered(rs, x) {
        var k :| 0 <= k < |rs| && Covers(rs[k], x);
        assert Covers(all[k], x);
      }
      if Covers(r, x) {
        assert Covers(all[|rs|], x);
      }
    }
  }

  /** Merges one more range, which starts no earlier than the last one, into the last interval
      or puts it behind. */
  method MergeRange(merged: seq<Span>, range: Span) returns (next: seq<Span>)
    requires merged != [] && Separated(merged) && ValidSpan(range)
    requires merged[|merged| - 1].start <= range.start
    ensures next != [] && Separated(next)
    ensures next[|next| - 1].start <= range.start
    ensures forall x :: Covered(next, x) <==> Covered(merged, x) || Covers(range, x)
  {
    var m := |merged| - 1;
    var last, front := merged[m], merged[..m];
    assert merged == front + [last];
    CoveredPush(front, last);
    if range.start <= last.end {
      ExtendCovers(last, range);
      CoveredPush(front, Extend(last, range));
      next := front + [Extend(last, range)];
    } else {
      CoveredPush(merged, range);
      next := merged + [range];
    }
  }

  lemma SortedCover(sorted: seq<Span>, ranges: seq<Span>)
    requires multiset(sorted) == multiset(ranges)
    requires AllValid(ranges)
    ensures AllValid(sorted) && SameCover(sorted, ranges)
    ensures |sorted| == |ranges|
  {
    SameElements(sorted, ranges);
    SameElements(ranges, sorted);
    assert |multiset(sorted)| == |multiset(ranges)|;
  }

  /** Merges overlapping and touching ranges into maximal intervals. */
  method MergeRanges(ranges: seq<Span>) returns (merged: seq<Span>)
    requires AllValid(ranges)
    ensures Separated(merged)
    ensures SameCover(merged, ranges)
    ensures ranges != [] ==> merged != []
  {
    if ranges == [] {
      return ranges;
    }
    var sorted := SortUnstable(ranges, StartsBefore);
    SortedCover(sorted, ranges);
    merged := [sorted[0]];
    for i := 1 to |sorted|
      invariant merged != [] && Separated(merged)
      invariant forall j | i <= j < |sorted| :: merged[|merged| - 1].start <= sorted[j].start
      invariant forall x :: Covered(merged, x) <==> CoveredUpTo(sorted, i, x)
    {
      assert forall x :: CoveredUpTo(sorted, i + 1, x) <==> CoveredUpTo(sorted, i, x) || Covers(sorted[i], x);
      merged := MergeRange(merged, sorted[i]);
    }
    assert forall x :: CoveredUpTo(sorted, |sorted|, x) <==> Covered(sorted, x);
  }

  // ----- Absorbing single numbers into ranges -----

  /** The one-number range that was pushed along with a single number. */
  ghost predicate Own(r: Span, single: NonZeroU32) {
    r.start <= single && r.end == SaturatingNext(single)
  }

  ghost predicate Owned(rs: seq<Span>, singles: set<NonZeroU32>) {
    forall s | s in singles :: exists k :: 0 <= k < |rs| && Own(rs[k], s)
  }

  /** Ranges that grew downwards at most. */
  ghost predicate Grown(after: seq<Span>, before: seq<Span>) {
    && |after| == |before|
    && (forall k | 0 <= k < |after| :: after[k].end == before[k].end && after[k].start <= before[k].start)
  }

  lemma GrownOwned(after: seq<Span>, before: seq<Span>, singles: set<NonZeroU32>)
    requires Grown(after, before) && Owned(before, singles)
    ensures Owned(after, singles)
  {
    forall s | s in singles
      ensures exists k :: 0 <= k < |after| && Own(after[k], s)
    {
      var k :| 0 <= k < |before| && Own(before[k], s);
      assert Own(after[k], s);
    }
  }

  lemma OwnCovers(r: Span, single: NonZeroU32)
    requires ValidSpan(r) && Own(r, single)
    ensures Covers(r, single)
  {
  }

  /** Extending a range down to a number that is covered anyway covers nothing new. */
  lemma LowerStart(rs: seq<Span>, k: nat, single: NonZeroU32)
    requires k < |rs| && AllValid(rs)
    requires single == Max(rs[k].start, 2) - 1
    requires Covered(rs, single)
    ensures AllValid(rs[k := rs[k].(start := single)])
    ensures SameCover(rs[k := rs[k].(start := single)], rs)
  {
    var after := rs[k := rs[k].(start := single)];
    forall x
      ensures Covered(after, x) <==> Covered(rs, x)
    {
      if Covered(after, x) {
        var j :| 0 <= j < |after| && Covers(after[j], x);
        assert j == k ==> Covers(rs[k], x) || x == single;
        assert j != k ==> Covers(rs[j], x);
      }
      if Covered(rs, x) {
        var j :| 0 <= j < |rs| && Covers(rs[j], x);
        assert Covers(after[j], x);
      }
    }
  }

  /** One single number against all ranges. */
  method AbsorbSingle(single: NonZeroU32, singles: set<NonZeroU32>, ranges: seq<Span>)
    returns (left: set<NonZeroU32>, absorbed: seq<Span>)
    requires AllValid(ranges)
    requires exists k :: 0 <= k < |ranges| && Own(ranges[k], single)
    ensures AllValid(absorbed) && Grown(absorbed, ranges) && SameCover(absorbed, ranges)
    ensures left == singles - {single}
  {
    left, absorbed := singles, ranges;
    ghost var own :| 0 <= own < |ranges| && Own(ranges[own], single);
    for k := 0 to |ranges|
      invariant AllValid(absorbed) && Grown(absorbed, ranges) && SameCover(absorbed, ranges)
      invariant singles - {single} <= left <= singles
      invariant own < k ==> single !in left
    {
      var range := absorbed[k];
      assert Covered(absorbed, single) by {
        OwnCovers(absorbed[own], single);
      }
      if single == Max(range.start, 2) - 1 {
        LowerStart(absorbed, k, single);
        left := left - {single};
        absorbed := absorbed[k := range.(start := single)];
      } else if single == range.end {
        left := left - {single};
        absorbed := absorbed[k := range.(end := single)];
        assert absorbed[k] == range;
      } else if Contains(range, single) {
        left := left - {single};
      }
    }
  }

  /** All single numbers, taken from the hash set in any order. None of them is left over. */
  method AbsorbSingles(singles: set<NonZeroU32>, ranges: seq<Span>)
    returns (left: set<NonZeroU32>, absorbed: seq<Span>)
    requires AllValid(ranges) && Owned(ranges, singles)
    ensures AllValid(absorbed) && |absorbed| == |ranges| && SameCover(absorbed, ranges)
    ensures left == {}
  {
    left, absorbed := singles, ranges;
    var todo := singles;
    while todo != {}
      invariant todo <= singles && left == todo
      invariant AllValid(absorbed) && Grown(absorbed, ranges) && SameCover(absorbed, ranges)
      decreases todo
    {
      var single :| single in todo;
      todo := todo - {single};
      GrownOwned(absorbed, ranges, singles);
      ghost var before := absorbed;
      left, absorbed := AbsorbSingle(single, left, absorbed);
      assert forall k | 0 <= k < |absorbed| :: absorbed[k].start <= before[k].start <= ranges[k].start;
    }
  }

  lemma SequencesAreSorted(merged: seq<Span>)
    requires Separated(merged)
    ensures Sorted(SequencesOf(merged), KeyBefore)
  {
    var out := SequencesOf(merged);
    forall i, j | 0 <= i < j < |out|
      ensures !KeyBefore(out[j], out[i])
    {
      assert merged[i].end < merged[j].start;
    }
  }

  class SequenceSet {
    var sequences: seq<Sequence>

    constructor (sequences: seq<Sequence>)
      requires sequences != []
      ensures this.sequences == sequences
    {
      this.sequences := sequences;
    }

    /** Normalizes each sequence and collects the single numbers and the ranges. */
    method CollectRanges() returns (singles: set<NonZeroU32>, ranges: seq<Span>)
      modifies this
      ensures |sequences| == |old(sequences)| == |ranges|
      ensures forall k | 0 <= k < |ranges| :: ranges[k] == SpanOf(old(sequences)[k])
      ensures Owned(ranges, singles)
    {
      singles, ranges := {}, [];
      for i := 0 to |sequences|
        invariant |ranges| == i <= |sequences| == |old(sequences)|
        invariant forall k | i <= k < |sequences| :: sequences[k] == old(sequences)[k]
        invariant forall k | 0 <= k < i :: ranges[k] == SpanOf(old(sequences)[k])
        invariant Owned(ranges, singles)
      {
        var s := NormalizeSequence(sequences[i]);
        ghost var before := ranges;
        sequences := sequences[i := s];
        match s {
          case Single(id) =>
            singles := singles + {id.ToNonZeroU32()};
            ranges := ranges + [Span(id.ToNonZeroU32(), SaturatingNext(id.ToNonZeroU32()))];
            assert Own(ranges[i], id.ToNonZeroU32());
          case Range(a, b) =>
            ranges := ranges + [Span(a.ToNonZeroU32(), SaturatingNext(b.ToNonZeroU32()))];
        }
        forall t | t in singles
          ensures exists k :: 0 <= k < |ranges| && Own(ranges[k], t)
        {
          if k :| 0 <= k < |before| && Own(before[k], t) {
            assert Own(ranges[k], t);
          }
        }
      }
    }

    /** Writes the merged ranges back, then what is left of the single numbers. */
    method Rebuild(singles: set<NonZeroU32>, merged: seq<Span>)
      requires Separated(merged)
      modifies this
      ensures singles == {} ==> sequences == SequencesOf(merged)
    {
      var left := singles;
      sequences := [];
      for i := 0 to |merged|
        invariant left <= singles
        invariant |sequences| == i
        invariant forall k | 0 <= k < i :: sequences[k] == SequenceOf(merged[k])
      {
        left := set single | single in left && !Contains(merged[i], single);
        sequences := sequences + [SequenceOf(merged[i])];
      }
      while left != {}
        invariant left <= singles
        invariant singles == {} ==> sequences == SequencesOf(merged)
        decreases left
      {
        var single :| single in left;
        left := left - {single};
        sequences := sequences + [Single(if single == MAX then Asterisk else Value(single))];
      }
      SequencesAreSorted(merged);
      sequences := Sort(sequences, KeyBefore);
    }

    /** Whatever the order of the hash set, the result is the normal form of the set. */
    method Normalize()
      requires sequences != []
      modifies this
      ensures sequences != []
      ensures NormalFormOf(sequences, old(sequences))
    {
      var singles, ranges := CollectRanges();
      CollectedCover(old(sequences), ranges);
      singles, ranges := AbsorbSingles(singles, ranges);
      var merged := MergeRanges(ranges);
      assert SpansFor(merged, old(sequences));
      Rebuild(singles, merged);
    }
  }

  lemma CollectedCover(set_: seq<Sequence>, ranges: seq<Span>)
    requires |set_| == |ranges|
    requires forall k | 0 <= k < |ranges| :: ranges[k] == SpanOf(set_[k])
    ensures AllValid(ranges)
    ensures forall x :: Covered(ranges, x) <==> Blurred(set_, x)
  {
    forall k | 0 <= k < |ranges|
      ensures ValidSpan(ranges[k])
    {
      SpanOfCovers(set_[k]);
    }
    forall x: nat
      ensures Covered(ranges, x) <==> Blurred(set_, x)
    {
      if Covered(ranges, x) {
        var k :| 0 <= k < |ranges| && Covers(ranges[k], x);
        SpanOfCovers(set_[k]);
      }
      if Blurred(set_, x) {
        var y: nat := if Member(set_, MAX, x) then x else MAX - 1;
        var k :| 0 <= k < |set_| && Denotes(set_[k], MAX, y);
        SpanOfCovers(set_[k]);
        assert Covers(ranges[k], x);
      }
    }
  }
}
