/** The normal form of a sequence set: merged, sorted, and independent of how it was written. */
module Normalizing {
  import opened SequenceSets

  /** Lower bound inclusive, upper bound exclusive. */
  datatype Span = Span(start: nat, end: nat)

  function Before(a: SeqOrUid, b: SeqOrUid): bool {
    match (a, b)
    case (Value(x), Value(y)) => x < y
    case (Asterisk, Asterisk) => false
    case (_, Asterisk) => true
    case (Asterisk, _) => false
  }

  /** Puts the smaller bound first and turns a range of one number into that number. */
  function NormalizeSequence(s: Sequence): Sequence {
    match s
    case Range(a, b) =>
      if a == b then Single(a)
      else if Before(b, a) then Range(b, a)
      else s
    case Single(_) => s
  }

  function SaturatingNext(n: NonZeroU32): NonZeroU32 {
    if n == MAX then MAX else n + 1
  }

  predicate Contains(r: Span, x: nat) {
    r.start <= x < r.end
  }

  predicate ValidSpan(r: Span) {
    1 <= r.start <= MAX && 1 <= r.end <= MAX && (r.start < r.end || r.start == r.end == MAX)
  }

  function SpanOf(s: Sequence): Span {
    match NormalizeSequence(s)
    case Single(id) => Span(id.ToNonZeroU32(), SaturatingNext(id.ToNonZeroU32()))
    case Range(a, b) => Span(a.ToNonZeroU32(), SaturatingNext(b.ToNonZeroU32()))
  }

  /** The sequence written for a merged span. An upper bound of MAX is written as `*`. */
  function SequenceOf(r: Span): Sequence
    requires ValidSpan(r)
  {
    if r.start == r.end || r.start + 1 == r.end then
      Single(if r.start == MAX then Asterisk else Value(r.start))
    else
      var from := if r.start == MAX then Asterisk else Value(r.start);
      if r.end == MAX then Range(from, Asterisk)
      else Range(from, Value(Max(r.end, 2) - 1))
  }

  // ----- What spans stand for -----

  /** Half-open spans cannot tell MAX - 1 from MAX as the last number: an upper bound of MAX
      is read as including MAX. */
  predicate Covers(r: Span, x: nat) {
    r.start <= x < r.end || (x == MAX && r.end == MAX)
  }

  ghost predicate Covered(rs: seq<Span>, x: nat) {
    exists k :: 0 <= k < |rs| && Covers(rs[k], x)
  }

  /** The numbers that the spans of a set cover, with `*` read as MAX. */
  ghost predicate Blurred(set_: seq<Sequence>, x: nat) {
    Member(set_, MAX, x) || (x == MAX && Member(set_, MAX, MAX - 1))
  }

  lemma SpanOfCovers(s: Sequence)
    ensures ValidSpan(SpanOf(s))
    ensures forall x :: Covers(SpanOf(s), x)
                   <==> Denotes(s, MAX, x) || (x == MAX && Denotes(s, MAX, MAX - 1))
    ensures SpanOf(s).start == Low(s, MAX)
  {
  }

  /** Maximal intervals in ascending order: between two of them at least one number is missing. */
  ghost predicate Separated(rs: seq<Span>) {
    && (forall k | 0 <= k < |rs| :: ValidSpan(rs[k]))
    && (forall i, j | 0 <= i < j < |rs| :: rs[i].end < rs[j].start)
  }

  lemma SeparatedEnd(rs: seq<Span>, x: nat)
    requires Separated(rs) && rs != []
    requires Covered(rs, x)
    ensures x < rs[|rs| - 1].end || x == MAX == rs[|rs| - 1].end
  {
    var k :| 0 <= k < |rs| && Covers(rs[k], x);
  }

  /** The last interval of a covering is determined by the numbers covered. */
  lemma LastSpanUnique(a: seq<Span>, b: seq<Span>)
    requires Separated(a) && Separated(b) && a != [] && b != []
    requires forall x :: Covered(a, x) <==> Covered(b, x)
    ensures a[|a| - 1] == b[|b| - 1]
  {
    var p, q := a[|a| - 1], b[|b| - 1];
    LastSpanAtMost(a, b);
    LastSpanAtMost(b, a);
  }

  lemma LastSpanAtMost(a: seq<Span>, b: seq<Span>)
    requires Separated(a) && Separated(b) && a != [] && b != []
    requires forall x :: Covered(a, x) <==> Covered(b, x)
    ensures a[|a| - 1].end <= b[|b| - 1].end
    ensures a[|a| - 1].end == b[|b| - 1].end ==> b[|b| - 1].start <= a[|a| - 1].start
  {
    var p, q := a[|a| - 1], b[|b| - 1];
    var top := if p.end == MAX then MAX else p.end - 1;
    assert Covers(p, top);
    assert Covered(a, top);
    SeparatedEnd(b, top);
    if p.end == q.end && p.start < q.start {
      var gap := q.start - 1;
      assert Covers(p, gap);
      assert Covered(a, gap);
      GapBeforeLast(b);
    }
  }

  lemma GapBeforeLast(rs: seq<Span>)
    requires Separated(rs) && rs != []
    ensures !Covered(rs, rs[|rs| - 1].start - 1)
  {
    var m := |rs| - 1;
    forall k | 0 <= k < |rs|
      ensures !Covers(rs[k], rs[m].start - 1)
    {
      assert k < m ==> rs[k].end < rs[m].start;
    }
  }

  /** Separated spans are determined by the numbers they cover. */
  lemma {:induction false} SeparatedUnique(a: seq<Span>, b: seq<Span>)
    requires Separated(a) && Separated(b)
    requires forall x :: Covered(a, x) <==> Covered(b, x)
    ensures a == b
    decreases |a|
  {
    if a == [] || b == [] {
      if a != [] {
        assert Covers(a[0], a[0].start);
        assert Covered(a, a[0].start);
      }
      if b != [] {
        assert Covers(b[0], b[0].start);
        assert Covered(b, b[0].start);
      }
    } else {
      LastSpanUnique(a, b);
      var m, n := |a| - 1, |b| - 1;
      DropLast(a);
      DropLast(b);
      forall x
        ensures Covered(a[..m], x) <==> Covered(b[..n], x)
      {
        assert Covered(a, x) <==> Covered(b, x);
      }
      SeparatedUnique(a[..m], b[..n]);
      assert a == a[..m] + [a[m]] && b == b[..n] + [b[n]];
    }
  }

  lemma DropLast(rs: seq<Span>)
    requires Separated(rs) && rs != []
    ensures Separated(rs[..|rs| - 1])
    ensures forall x :: Covered(rs[..|rs| - 1], x)
                   <==> Covered(rs, x) && !Covers(rs[|rs| - 1], x)
  {
    var m := |rs| - 1;
    forall x
      ensures Covered(rs[..m], x) <==> Covered(rs, x) && !Covers(rs[m], x)
    {
      if Covered(rs[..m], x) {
        var k :| 0 <= k < m && Covers(rs[..m][k], x);
        assert Covers(rs[k], x) && rs[k].end < rs[m].start;
      }
      if Covered(rs, x) && !Covers(rs[m], x) {
        var k :| 0 <= k < |rs| && Covers(rs[k], x);
        assert Covers(rs[..m][k], x);
      }
    }
  }

  // ----- The normal form -----

  function SequencesOf(rs: seq<Span>): seq<Sequence>
    requires forall k | 0 <= k < |rs| :: ValidSpan(rs[k])
  {
    seq(|rs|, k requires 0 <= k < |rs| => SequenceOf(rs[k]))
  }

  /** `spans` are the maximal intervals of `set_`. */
  ghost predicate SpansFor(spans: seq<Span>, set_: seq<Sequence>) {
    Separated(spans) && forall x :: Covered(spans, x) <==> Blurred(set_, x)
  }

  ghost predicate NormalFormOf(out: seq<Sequence>, set_: seq<Sequence>) {
    exists spans :: SpansFor(spans, set_) && out == SequencesOf(spans)
  }

  /** Sets that stand for the same numbers have the same normal form. */
  lemma NormalFormIsCanonical(
      a: seq<Sequence>, b: seq<Sequence>, outA: seq<Sequence>, outB: seq<Sequence>)
    requires SameMembers(a, b, MAX)
    requires NormalFormOf(outA, a) && NormalFormOf(outB, b)
    ensures outA == outB
  {
    var p :| SpansFor(p, a) && outA == SequencesOf(p);
    var q :| SpansFor(q, b) && outB == SequencesOf(q);
    assert forall x :: Blurred(a, x) <==> Blurred(b, x);
    SeparatedUnique(p, q);
  }

  lemma SequenceOfDenotes(r: Span, x: nat)
    requires ValidSpan(r)
    ensures Denotes(SequenceOf(r), MAX, x)
       <==> Covers(r, x) && !(x == MAX && r.start == MAX - 1)
  {
  }

  /** What a normal form stands for. */
  lemma NormalFormMembers(out: seq<Sequence>, set_: seq<Sequence>, x: nat)
    requires NormalFormOf(out, set_)
    ensures Member(out, MAX, x)
       <==> Blurred(set_, x)
            && !(x == MAX && Member(set_, MAX, MAX - 1) && !Member(set_, MAX, MAX - 2))
  {
    var spans: seq<Span> :| SpansFor(spans, set_) && out == SequencesOf(spans);
    if Member(out, MAX, x) {
      var k :| 0 <= k < |out| && Denotes(out[k], MAX, x);
      SequenceOfDenotes(spans[k], x);
      assert Covered(spans, x);
      if x == MAX {
        TopSpan(spans, set_, k);
      }
    }
    if Covered(spans, x) {
      var k :| 0 <= k < |spans| && Covers(spans[k], x);
      SequenceOfDenotes(spans[k], x);
      assert out[k] == SequenceOf(spans[k]);
      if x == MAX {
        TopSpan(spans, set_, k);
      }
    }
  }

  /** The span that covers MAX begins at MAX - 1 exactly when MAX - 2 is missing. */
  lemma TopSpan(spans: seq<Span>, set_: seq<Sequence>, k: nat)
    requires SpansFor(spans, set_)
    requires k < |spans| && Covers(spans[k], MAX)
    ensures spans[k].start == MAX - 1
       <==> Member(set_, MAX, MAX - 1) && !Member(set_, MAX, MAX - 2)
  {
    var r := spans[k];
    assert Covered(spans, MAX - 1) <==> Member(set_, MAX, MAX - 1);
    assert Covered(spans, MAX - 2) <==> Member(set_, MAX, MAX - 2);
    assert r.start <= MAX - 1 ==> Covers(r, MAX - 1);
    assert r.start <= MAX - 2 ==> Covers(r, MAX - 2);
    if Covered(spans, MAX - 1) {
      var j :| 0 <= j < |spans| && Covers(spans[j], MAX - 1);
      assert spans[j].end == MAX == r.end;
      assert j == k;
    }
    if r.start == MAX - 1 {
      forall j | 0 <= j < |spans|
        ensures !Covers(spans[j], MAX - 2)
      {
        assert j < k ==> spans[j].end < r.start;
      }
    }
  }

  /** The normal form stands for the same numbers, with `*` read as MAX, exactly when MAX - 1
      is not in the set, or MAX - 2 and MAX are both in it or both not in it. */
  lemma NormalFormKeepsMembers(out: seq<Sequence>, set_: seq<Sequence>)
    requires NormalFormOf(out, set_)
    ensures SameMembers(out, set_, MAX)
       <==> (Member(set_, MAX, MAX - 1) ==>
               (Member(set_, MAX, MAX - 2) <==> Member(set_, MAX, MAX)))
  {
    forall x {
      NormalFormMembers(out, set_, x);
    }
    if SameMembers(out, set_, MAX) {
      assert Member(out, MAX, MAX) <==> Member(set_, MAX, MAX);
    }
  }

  /** The numbers written in a sequence are at most `bound`; `*` is not a number. */
  predicate BoundedBy(s: Sequence, bound: nat) {
    match s
    case Single(a) => a.Value? ==> a.number <= bound
    case Range(a, b) => (a.Value? ==> a.number <= bound) && (b.Value? ==> b.number <= bound)
  }

  ghost predicate AtMost(set_: seq<Sequence>, bound: nat) {
    forall k | 0 <= k < |set_| :: BoundedBy(set_[k], bound)
  }

  /** Sets whose numbers stay below MAX - 1 keep their meaning. */
  lemma NormalFormOfModestSet(out: seq<Sequence>, set_: seq<Sequence>)
    requires NormalFormOf(out, set_)
    requires AtMost(set_, MAX - 2)
    ensures SameMembers(out, set_, MAX)
  {
    NormalFormKeepsMembers(out, set_);
    if Member(set_, MAX, MAX - 1) {
      var k :| 0 <= k < |set_| && Denotes(set_[k], MAX, MAX - 1);
      assert Denotes(set_[k], MAX, MAX - 2) && Denotes(set_[k], MAX, MAX);
    }
  }

  /** The family of inputs whose meaning changes is not empty. */
  lemma NormalFormCanChangeMeaning(out: seq<Sequence>)
    requires NormalFormOf(out, [Range(Value(MAX - 2), Value(MAX - 1))])
    ensures Member(out, MAX, MAX)
    ensures !Member([Range(Value(MAX - 2), Value(MAX - 1))], MAX, MAX)
  {
    var set_ := [Range(Value(MAX - 2), Value(MAX - 1))];
    assert Denotes(set_[0], MAX, MAX - 1) && Denotes(set_[0], MAX, MAX - 2);
    NormalFormMembers(out, set_, MAX);
  }

  /** Normalizing twice changes nothing more, even where normalizing once changed the meaning. */
  lemma NormalizeIsIdempotent(set_: seq<Sequence>, once: seq<Sequence>, twice: seq<Sequence>)
    requires NormalFormOf(once, set_) && NormalFormOf(twice, once)
    ensures twice == once
  {
    var p :| SpansFor(p, set_) && once == SequencesOf(p);
    var q :| SpansFor(q, once) && twice == SequencesOf(q);
    forall x
      ensures Blurred(once, x) <==> Blurred(set_, x)
    {
      NormalFormMembers(once, set_, x);
      NormalFormMembers(once, set_, MAX - 1);
    }
    SeparatedUnique(p, q);
  }

  /** Each sequence of a normal form ends, with a gap, before the next one begins. */
  lemma NormalFormIsSorted(out: seq<Sequence>, set_: seq<Sequence>, i: nat, j: nat)
    requires NormalFormOf(out, set_)
    requires i < j && j < |out|
    ensures High(out[i], MAX) + 1 < Low(out[j], MAX)
    ensures NormalizeSequence(out[i]) == out[i]
  {
    var spans: seq<Span> :| SpansFor(spans, set_) && out == SequencesOf(spans);
    assert out[i] == SequenceOf(spans[i]) && out[j] == SequenceOf(spans[j]);
    assert spans[i].end < spans[j].start;
  }
}
