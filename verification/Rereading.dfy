/** Reading a normal form with `*` as any number: when it stands for what the set stood for. */
module Rereading {
  import opened SequenceSets
  import opened Normalizing

  // ----- What a caller can see of a set -----

  predicate Mentions(s: Sequence, a: SeqOrUid) {
    match s
    case Single(b) => a == b
    case Range(b, c) => a == b || a == c
  }

  ghost predicate Written(set_: seq<Sequence>, v: NonZeroU32) {
    exists k :: 0 <= k < |set_| && Mentions(set_[k], Value(v))
  }

  ghost predicate HasAsterisk(set_: seq<Sequence>) {
    exists k :: 0 <= k < |set_| && Mentions(set_[k], Asterisk)
  }

  /** A range between MAX - 1 and `*`. */
  predicate IsTopPair(s: Sequence) {
    s == Range(Value(MAX - 1), Asterisk) || s == Range(Asterisk, Value(MAX - 1))
  }

  ghost predicate HasTopPair(set_: seq<Sequence>) {
    exists k :: 0 <= k < |set_| && IsTopPair(set_[k])
  }

  /** All numbers from `v` on are in the set, as far as half-open ranges can tell. */
  ghost predicate RunsToTop(set_: seq<Sequence>, v: nat) {
    forall y | v <= y < MAX :: Member(set_, MAX, y)
  }

  /** Normalizing drops `v` from the reading: it is swallowed by the range up to `*`. */
  ghost predicate Swallowed(set_: seq<Sequence>, v: NonZeroU32) {
    v == MAX || RunsToTop(set_, v - 1)
  }

  /** The exact condition. The first case is a set that contains MAX - 1 but not MAX - 2: its
      last interval is written as the number MAX - 1. In all other sets a last interval is
      written with `*`. */
  ghost predicate Readable(set_: seq<Sequence>, largest: NonZeroU32) {
    if Member(set_, MAX, MAX - 1) && !Member(set_, MAX, MAX - 2) then
      && !Written(set_, MAX)
      && (HasAsterisk(set_) ==>
            || largest == MAX - 1
            || (largest < MAX - 1 && Member(set_, MAX, largest) && !HasTopPair(set_)))
    else
      && (forall v: NonZeroU32 | Written(set_, v) && v > largest :: !Swallowed(set_, v))
      && (largest == MAX && Member(set_, MAX, MAX - 1) ==> Member(set_, MAX, MAX))
  }

  // ----- The interval up to MAX -----

  /** `s` is where the last interval begins, and it reaches MAX. */
  ghost predicate TopAt(set_: seq<Sequence>, s: NonZeroU32) {
    && Blurred(set_, MAX)
    && RunsToTop(set_, s)
    && !Member(set_, MAX, s - 1)
  }

  ghost predicate TopMember(set_: seq<Sequence>, s: nat, largest: NonZeroU32, x: nat) {
    exists k :: 0 <= k < |set_| && Low(set_[k], MAX) >= s && Denotes(set_[k], largest, x)
  }

  /** How the sequence written for the last interval is read. */
  predicate TopReads(s: NonZeroU32, largest: NonZeroU32, x: nat) {
    if s == MAX then x == largest
    else if s == MAX - 1 then x == s
    else Min(s, largest) <= x <= Max(s, largest)
  }

  /** A sequence lies within the last interval, or ends before it and does not mention `*`. */
  lemma Sides(set_: seq<Sequence>, s: NonZeroU32, k: nat, largest: NonZeroU32)
    requires TopAt(set_, s) && k < |set_|
    ensures Low(set_[k], MAX) >= s
      || (High(set_[k], MAX) + 1 < s && Low(set_[k], largest) == Low(set_[k], MAX)
                                     && High(set_[k], largest) == High(set_[k], MAX))
  {
    assert !Denotes(set_[k], MAX, s - 1);
  }

  lemma MemberSplits(set_: seq<Sequence>, s: NonZeroU32, largest: NonZeroU32, x: nat)
    requires TopAt(set_, s)
    ensures Member(set_, largest, x) <==> (x + 1 < s && Member(set_, MAX, x)) || TopMember(set_, s, largest, x)
  {
    if Member(set_, largest, x) {
      var k: nat :| k < |set_| && Denotes(set_[k], largest, x);
      Sides(set_, s, k, largest);
    }
    if x + 1 < s && Member(set_, MAX, x) {
      var k: nat :| k < |set_| && Denotes(set_[k], MAX, x);
      Sides(set_, s, k, largest);
    }
  }

  /** The last span begins at `s` and reaches MAX. */
  ghost predicate EndsAtTop(spans: seq<Span>, s: NonZeroU32) {
    && spans != [] && spans[|spans| - 1] == Span(s, MAX)
    && forall j | 0 <= j < |spans| - 1 :: spans[j].end < s
  }

  /** The last span is the last interval. */
  lemma TopSpanStart(spans: seq<Span>, set_: seq<Sequence>, s: NonZeroU32)
    requires SpansFor(spans, set_) && TopAt(set_, s)
    ensures EndsAtTop(spans, s)
  {
    assert Covered(spans, MAX);
    var top := |spans| - 1;
    SeparatedEnd(spans, MAX);
    GapBeforeLast(spans);
    assert !Member(set_, MAX, spans[top].start - 1);
    assert !Covered(spans, s - 1);
    assert !Covers(spans[top], s - 1);
  }

  lemma LowSpanReads(r: Span, largest: NonZeroU32, x: nat)
    requires ValidSpan(r) && r.end < MAX
    ensures Denotes(SequenceOf(r), largest, x) <==> Covers(r, x)
  {
  }

  lemma TopSpanReads(s: NonZeroU32, largest: NonZeroU32, x: nat)
    ensures ValidSpan(Span(s, MAX))
    ensures Denotes(SequenceOf(Span(s, MAX)), largest, x) <==> TopReads(s, largest, x)
  {
  }

  lemma SpanSplits(spans: seq<Span>, set_: seq<Sequence>, s: NonZeroU32, largest: NonZeroU32, k: nat, x: nat)
    requires SpansFor(spans, set_) && EndsAtTop(spans, s) && k < |spans|
    requires Denotes(SequenceOf(spans[k]), largest, x)
    ensures (x + 1 < s && Member(set_, MAX, x)) || TopReads(s, largest, x)
  {
    if k < |spans| - 1 {
      LowSpanReads(spans[k], largest, x);
      assert Covered(spans, x);
    } else {
      TopSpanReads(s, largest, x);
    }
  }

  lemma SplitHasSpan(spans: seq<Span>, set_: seq<Sequence>, s: NonZeroU32, largest: NonZeroU32, x: nat) returns (k: nat)
    requires SpansFor(spans, set_) && EndsAtTop(spans, s)
    requires (x + 1 < s && Member(set_, MAX, x)) || TopReads(s, largest, x)
    ensures k < |spans| && Denotes(SequenceOf(spans[k]), largest, x)
  {
    if TopReads(s, largest, x) {
      k := |spans| - 1;
      TopSpanReads(s, largest, x);
    } else {
      assert Covered(spans, x);
      k :| 0 <= k < |spans| && Covers(spans[k], x);
      LowSpanReads(spans[k], largest, x);
    }
  }

  lemma OutSplits(out: seq<Sequence>, set_: seq<Sequence>, s: NonZeroU32, largest: NonZeroU32, x: nat)
    requires NormalFormOf(out, set_) && TopAt(set_, s)
    ensures Member(out, largest, x) <==> (x + 1 < s && Member(set_, MAX, x)) || TopReads(s, largest, x)
  {
    var spans: seq<Span> :| SpansFor(spans, set_) && out == SequencesOf(spans);
    TopSpanStart(spans, set_, s);
    if Member(out, largest, x) {
      var k: nat :| k < |out| && Denotes(out[k], largest, x);
      SpanSplits(spans, set_, s, largest, k, x);
    }
    if (x + 1 < s && Member(set_, MAX, x)) || TopReads(s, largest, x) {
      var k := SplitHasSpan(spans, set_, s, largest, x);
      assert Denotes(out[k], largest, x);
    }
  }

  // ----- The three ways a last interval is written -----

  /** A number written in the last interval is denoted, whatever `*` is read as. */
  lemma WrittenIsMember(set_: seq<Sequence>, v: NonZeroU32, largest: NonZeroU32)
    requires Written(set_, v)
    ensures Member(set_, largest, v)
  {
    var k: nat :| k < |set_| && Mentions(set_[k], Value(v));
    assert Denotes(set_[k], largest, v);
  }

  /** Written as a range up to `*`. */
  lemma RangeReads(out: seq<Sequence>, set_: seq<Sequence>, s: NonZeroU32, largest: NonZeroU32)
    requires NormalFormOf(out, set_) && TopAt(set_, s) && s <= MAX - 2
    ensures SameMembers(out, set_, largest) <==> Readable(set_, largest)
  {
    if Readable(set_, largest) {
      forall x: nat ensures Member(out, largest, x) <==> Member(set_, largest, x) {
        OutSplits(out, set_, s, largest, x);
        MemberSplits(set_, s, largest, x);
        if s <= largest {
          UpReads(set_, s, largest, x);
        } else {
          DownReads(set_, s, largest, x);
        }
      }
    } else {
      RangeBreaks(out, set_, s, largest);
    }
  }

  lemma NoneSwallowed(set_: seq<Sequence>, s: NonZeroU32, largest: NonZeroU32, k: nat, v: NonZeroU32)
    requires TopAt(set_, s) && s <= MAX - 2 && Readable(set_, largest)
    requires k < |set_| && Low(set_[k], MAX) >= s && Mentions(set_[k], Value(v))
    ensures s <= v && v <= Max(s, largest)
  {
    assert Written(set_, v);
    if s < v {
      assert RunsToTop(set_, v - 1);
    }
  }

  lemma UpReads(set_: seq<Sequence>, s: NonZeroU32, largest: NonZeroU32, x: nat)
    requires TopAt(set_, s) && s <= MAX - 2 && Readable(set_, largest)
    requires s <= largest
    ensures TopMember(set_, s, largest, x) <==> s <= x <= largest
  {
    if TopMember(set_, s, largest, x) {
      var k: nat :| k < |set_| && Low(set_[k], MAX) >= s && Denotes(set_[k], largest, x);
      BoundsOf(set_, s, largest, k);
    }
    if s <= x <= largest {
      UpIsRead(set_, s, largest, x);
    }
  }

  lemma UpIsRead(set_: seq<Sequence>, s: NonZeroU32, largest: NonZeroU32, x: nat)
    requires TopAt(set_, s) && s <= MAX - 2 && Readable(set_, largest)
    requires s <= x <= largest
    ensures TopMember(set_, s, largest, x)
  {
    assert Member(set_, MAX, x);
    var k: nat :| k < |set_| && Denotes(set_[k], MAX, x);
    Sides(set_, s, k, largest);
    assert Denotes(set_[k], largest, x);
  }

  /** A sequence of the last interval stays between its beginning and `largest`. */
  lemma BoundsOf(set_: seq<Sequence>, s: NonZeroU32, largest: NonZeroU32, k: nat)
    requires TopAt(set_, s) && s <= MAX - 2 && Readable(set_, largest)
    requires k < |set_| && Low(set_[k], MAX) >= s
    ensures Min(s, largest) <= Low(set_[k], largest) && High(set_[k], largest) <= Max(s, largest)
    ensures largest < s ==> forall v: NonZeroU32 | Mentions(set_[k], Value(v)) :: v == s
  {
    forall v: NonZeroU32 | Mentions(set_[k], Value(v)) ensures s <= v <= Max(s, largest) {
      NoneSwallowed(set_, s, largest, k, v);
    }
    match set_[k]
    case Single(a) => assert a.Value? ==> Mentions(set_[k], Value(a.number));
    case Range(a, b) =>
      assert a.Value? ==> Mentions(set_[k], Value(a.number));
      assert b.Value? ==> Mentions(set_[k], Value(b.number));
  }

  lemma DownReads(set_: seq<Sequence>, s: NonZeroU32, largest: NonZeroU32, x: nat)
    requires TopAt(set_, s) && s <= MAX - 2 && Readable(set_, largest)
    requires largest < s
    ensures TopMember(set_, s, largest, x) <==> largest <= x <= s
  {
    if TopMember(set_, s, largest, x) {
      var k: nat :| k < |set_| && Low(set_[k], MAX) >= s && Denotes(set_[k], largest, x);
      BoundsOf(set_, s, largest, k);
    }
    if largest <= x <= s {
      assert Member(set_, MAX, s + 1);
      var k: nat :| k < |set_| && Denotes(set_[k], MAX, s + 1);
      Sides(set_, s, k, largest);
      BoundsOf(set_, s, largest, k);
      WholeInterval(set_[k], s, largest);
      assert Denotes(set_[k], largest, x);
    }
  }

  /** A sequence that mentions only `s` and `*` and goes beyond `s` is the range between them. */
  lemma WholeInterval(q: Sequence, s: NonZeroU32, largest: NonZeroU32)
    requires s < MAX && Denotes(q, MAX, s + 1) && Low(q, MAX) >= s
    requires s + 1 < MAX
    requires forall v: NonZeroU32 | Mentions(q, Value(v)) :: v == s
    ensures Low(q, largest) == Min(s, largest) && High(q, largest) == Max(s, largest)
  {
    match q
    case Single(a) => assert a.Value? ==> Mentions(q, Value(a.number));
    case Range(a, b) =>
      assert a.Value? ==> Mentions(q, Value(a.number));
      assert b.Value? ==> Mentions(q, Value(b.number));
  }

  lemma RangeBreaks(out: seq<Sequence>, set_: seq<Sequence>, s: NonZeroU32, largest: NonZeroU32)
    requires NormalFormOf(out, set_) && TopAt(set_, s) && s <= MAX - 2
    requires !Readable(set_, largest)
    ensures !SameMembers(out, set_, largest)
  {
    assert Member(set_, MAX, MAX - 1) && Member(set_, MAX, MAX - 2);
    if v: NonZeroU32 :| Written(set_, v) && v > largest && Swallowed(set_, v) {
      WrittenIsMember(set_, v, largest);
      OutSplits(out, set_, s, largest, v);
      assert v == MAX || s <= v - 1;
    } else {
      OutSplits(out, set_, s, largest, MAX);
    }
  }

  /** Written as `*` alone. */
  lemma AsteriskReads(out: seq<Sequence>, set_: seq<Sequence>, largest: NonZeroU32)
    requires NormalFormOf(out, set_) && TopAt(set_, MAX)
    ensures SameMembers(out, set_, largest) <==> Readable(set_, largest)
  {
    forall k: nat | k < |set_| && Low(set_[k], MAX) >= MAX
      ensures Denotes(set_[k], largest, largest) || Written(set_, MAX)
      ensures !Written(set_, MAX) || largest == MAX ==> Low(set_[k], largest) == High(set_[k], largest) == largest
    {
      OnlyMax(set_, k, largest);
    }
    forall x: nat ensures Member(out, largest, x) <==> (x + 1 < MAX && Member(set_, MAX, x)) || x == largest
             ensures Member(set_, largest, x) <==> (x + 1 < MAX && Member(set_, MAX, x)) || TopMember(set_, MAX, largest, x)
    {
      OutSplits(out, set_, MAX, largest, x);
      MemberSplits(set_, MAX, largest, x);
    }
    if Written(set_, MAX) && largest < MAX {
      WrittenIsMember(set_, MAX, largest);
      assert Swallowed(set_, MAX);
    } else {
      assert Member(set_, MAX, MAX);
      var k: nat :| k < |set_| && Denotes(set_[k], MAX, MAX);
      Sides(set_, MAX, k, largest);
      forall v: NonZeroU32 | Written(set_, v) && v > largest ensures !Swallowed(set_, v) {
        WrittenIsMember(set_, v, MAX);
      }
    }
  }

  /** A sequence that denotes MAX alone is written with MAX and `*`. */
  lemma OnlyMax(set_: seq<Sequence>, k: nat, largest: NonZeroU32)
    requires k < |set_| && Low(set_[k], MAX) >= MAX
    ensures Denotes(set_[k], largest, largest) || Written(set_, MAX)
    ensures !Written(set_, MAX) || largest == MAX ==> Low(set_[k], largest) == High(set_[k], largest) == largest
  {
    assert Mentions(set_[k], Value(MAX)) ==> Written(set_, MAX);
  }

  /** Written as the number MAX - 1. */
  lemma NumberReads(out: seq<Sequence>, set_: seq<Sequence>, largest: NonZeroU32)
    requires NormalFormOf(out, set_) && TopAt(set_, MAX - 1)
    ensures SameMembers(out, set_, largest) <==> Readable(set_, largest)
  {
    forall x: nat ensures Member(out, largest, x) <==> (x + 2 < MAX && Member(set_, MAX, x)) || x == MAX - 1
    {
      OutSplits(out, set_, MAX - 1, largest, x);
    }
    if Readable(set_, largest) {
      forall x: nat ensures Member(set_, largest, x) <==> (x + 2 < MAX && Member(set_, MAX, x)) || x == MAX - 1 {
        NumberStays(set_, largest, x);
      }
    } else {
      NumberBreaks(out, set_, largest);
    }
  }

  lemma NumberStays(set_: seq<Sequence>, largest: NonZeroU32, x: nat)
    requires TopAt(set_, MAX - 1) && Readable(set_, largest)
    ensures Member(set_, largest, x) <==> (x + 2 < MAX && Member(set_, MAX, x)) || x == MAX - 1
  {
    MemberSplits(set_, MAX - 1, largest, x);
    if TopMember(set_, MAX - 1, largest, x) {
      var k: nat :| k < |set_| && Low(set_[k], MAX) >= MAX - 1 && Denotes(set_[k], largest, x);
      TopForms(set_, k, largest);
    }
    if x == MAX - 1 {
      assert Member(set_, MAX, MAX - 1);
      var k: nat :| k < |set_| && Denotes(set_[k], MAX, MAX - 1);
      Sides(set_, MAX - 1, k, largest);
      TopForms(set_, k, largest);
      assert Denotes(set_[k], largest, x);
    }
  }

  /** A sequence of the last two numbers: without `*` it is the number MAX - 1. */
  lemma TopForms(set_: seq<Sequence>, k: nat, largest: NonZeroU32)
    requires k < |set_| && Low(set_[k], MAX) >= MAX - 1
    requires !Written(set_, MAX)
    ensures !Mentions(set_[k], Asterisk) ==> Low(set_[k], largest) == High(set_[k], largest) == MAX - 1
    ensures Mentions(set_[k], Asterisk) ==> HasAsterisk(set_) && (IsTopPair(set_[k]) ==> HasTopPair(set_))
    ensures Mentions(set_[k], Asterisk) && !IsTopPair(set_[k])
        ==> Low(set_[k], largest) == High(set_[k], largest) == largest
    ensures IsTopPair(set_[k]) ==> Denotes(set_[k], largest, MAX - 1)
  {
    assert Mentions(set_[k], Value(MAX)) ==> Written(set_, MAX);
  }

  lemma NumberBreaks(out: seq<Sequence>, set_: seq<Sequence>, largest: NonZeroU32)
    requires NormalFormOf(out, set_) && TopAt(set_, MAX - 1)
    requires !Readable(set_, largest)
    ensures !SameMembers(out, set_, largest)
  {
    OutSplits(out, set_, MAX - 1, largest, MAX);
    OutSplits(out, set_, MAX - 1, largest, MAX - 2);
    OutSplits(out, set_, MAX - 1, largest, largest);
    if Written(set_, MAX) {
      WrittenIsMember(set_, MAX, largest);
    } else {
      AsteriskIsMember(set_, largest);
      if HasTopPair(set_) && largest < MAX - 1 {
        TopPairReads(set_, largest);
      }
    }
  }

  lemma AsteriskIsMember(set_: seq<Sequence>, largest: NonZeroU32)
    requires HasAsterisk(set_)
    ensures Member(set_, largest, largest)
  {
    var k: nat :| k < |set_| && Mentions(set_[k], Asterisk);
    assert Denotes(set_[k], largest, largest);
  }

  lemma TopPairReads(set_: seq<Sequence>, largest: NonZeroU32)
    requires HasTopPair(set_) && largest < MAX - 1
    ensures Member(set_, largest, MAX - 2)
  {
    var j: nat :| j < |set_| && IsTopPair(set_[j]);
    assert Denotes(set_[j], largest, MAX - 2);
  }

  // ----- All sets -----

  lemma {:induction false} FindTop(set_: seq<Sequence>, v: NonZeroU32) returns (s: NonZeroU32)
    requires Blurred(set_, MAX) && RunsToTop(set_, v)
    ensures TopAt(set_, s)
  {
    if Member(set_, MAX, v - 1) {
      s := FindTop(set_, v - 1);
    } else {
      s := v;
    }
  }

  /** A set that stays below MAX - 1 and without `*` is denoted alike under every reading. */
  lemma NoTopReads(out: seq<Sequence>, set_: seq<Sequence>, largest: NonZeroU32)
    requires NormalFormOf(out, set_) && !Blurred(set_, MAX)
    ensures SameMembers(out, set_, largest) && Readable(set_, largest)
  {
    var spans: seq<Span> :| SpansFor(spans, set_) && out == SequencesOf(spans);
    forall x: nat ensures Member(out, largest, x) <==> Member(set_, largest, x) {
      NoTopMember(out, spans, set_, largest, x);
    }
    forall v: NonZeroU32 | Written(set_, v) ensures !Swallowed(set_, v) {
      WrittenIsMember(set_, v, MAX);
    }
  }

  lemma NoTopMember(out: seq<Sequence>, spans: seq<Span>, set_: seq<Sequence>, largest: NonZeroU32, x: nat)
    requires SpansFor(spans, set_) && out == SequencesOf(spans) && !Blurred(set_, MAX)
    ensures Member(out, largest, x) <==> Member(set_, largest, x)
  {
    forall k | 0 <= k < |spans| ensures Denotes(out[k], largest, x) <==> Covers(spans[k], x) {
      assert !Covered(spans, MAX);
      assert !Covers(spans[k], MAX);
      LowSpanReads(spans[k], largest, x);
    }
    forall k | 0 <= k < |set_| ensures Denotes(set_[k], largest, x) <==> Denotes(set_[k], MAX, x) {
      assert !Denotes(set_[k], MAX, MAX);
    }
    assert Covered(spans, x) <==> Member(set_, MAX, x);
  }

  /** The normal form, with `*` read as `largest`, stands for what the set stands for, if and
      only if none of the set's own numbers above `largest` is swallowed by the interval up to
      `*`, and the last interval is not one that is written differently than it is read. */
  lemma NormalFormKeepsReading(out: seq<Sequence>, set_: seq<Sequence>, largest: NonZeroU32)
    requires NormalFormOf(out, set_)
    ensures SameMembers(out, set_, largest) <==> Readable(set_, largest)
  {
    if Blurred(set_, MAX) {
      var s := FindTop(set_, MAX);
      if s == MAX {
        AsteriskReads(out, set_, largest);
      } else if s == MAX - 1 {
        NumberReads(out, set_, largest);
      } else {
        RangeReads(out, set_, s, largest);
      }
    } else {
      NoTopReads(out, set_, largest);
    }
  }

  /** For sets that write no number above MAX - 2: no number above `largest` lies, with its
      predecessor, in the interval up to `*`. */
  lemma ModestReading(out: seq<Sequence>, set_: seq<Sequence>, largest: NonZeroU32)
    requires NormalFormOf(out, set_)
    requires AtMost(set_, MAX - 2)
    ensures SameMembers(out, set_, largest)
       <==> forall v: NonZeroU32 | Written(set_, v) && v > largest :: !RunsToTop(set_, v - 1)
  {
    NormalFormKeepsReading(out, set_, largest);
    if Member(set_, MAX, MAX - 1) {
      var k: nat :| k < |set_| && Denotes(set_[k], MAX, MAX - 1);
      assert Denotes(set_[k], MAX, MAX - 2) && Denotes(set_[k], MAX, MAX);
    }
    forall v: NonZeroU32 | Written(set_, v) ensures v <= MAX - 2 {
      var k: nat :| k < |set_| && Mentions(set_[k], Value(v));
      assert BoundedBy(set_[k], MAX - 2);
    }
  }

  /** In particular the reading is kept when no number written exceeds `largest`. */
  lemma SmallNumbersKeepReading(out: seq<Sequence>, set_: seq<Sequence>, largest: NonZeroU32)
    requires NormalFormOf(out, set_)
    requires AtMost(set_, largest) && AtMost(set_, MAX - 2)
    ensures SameMembers(out, set_, largest)
  {
    ModestReading(out, set_, largest);
    forall v: NonZeroU32 | Written(set_, v) ensures v <= largest {
      var k: nat :| k < |set_| && Mentions(set_[k], Value(v));
      assert BoundedBy(set_[k], largest);
    }
  }

  /** A number above `largest` breaks this: "7,5:*" with `largest` 3 stands for 3, 4, 5 and 7,
      its normal form "5:*" does not stand for 7. */
  lemma LargeNumbersBreakReading(out: seq<Sequence>)
    requires NormalFormOf(out, [Single(Value(7)), Range(Value(5), Asterisk)])
    ensures out == [Range(Value(5), Asterisk)]
    ensures Member([Single(Value(7)), Range(Value(5), Asterisk)], 3, 7)
    ensures !Member(out, 3, 7)
  {
    var set_ := [Single(Value(7)), Range(Value(5), Asterisk)];
    assert Denotes(set_[0], 3, 7);
    var spans: seq<Span> :| SpansFor(spans, set_) && out == SequencesOf(spans);
    var whole := [Span(5, MAX)];
    forall x: nat
      ensures Covered(spans, x) <==> Covered(whole, x)
    {
      assert Member(set_, MAX, x) <==> Denotes(set_[0], MAX, x) || Denotes(set_[1], MAX, x);
      assert Member(set_, MAX, MAX - 1) <==> Denotes(set_[0], MAX, MAX - 1) || Denotes(set_[1], MAX, MAX - 1);
      assert Covered(whole, x) <==> Covers(whole[0], x);
    }
    SeparatedUnique(spans, whole);
  }
}
