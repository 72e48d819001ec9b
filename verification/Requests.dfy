/** When readers ask for literal data: a cut is the beginning of a text that ends in the
    announcement of a literal where a string is expected. */
module Requests {
  import opened Octets
  import opened Nom
  import opened Strings
  import opened SequenceCodec
  import opened Dates

  /** What was announced. */
  datatype Ask = Ask(length: nat, mode: LiteralMode)

  function Asked<T>(a: Ask): Outcome<T> {
    Failure(LiteralFound(a.length, a.mode))
  }

  type Cut = (Ask, Wire) -> bool

  predicate IsAsking<T>(r: Outcome<T>) {
    r.Failure? && r.kind.LiteralFound?
  }

  /** `p` asks for literal data exactly at the cuts. */
  ghost predicate Asks<T(!new)>(p: Wire -> Outcome<T>, cut: Cut) {
    && (forall a, i {:trigger cut(a, i)} | cut(a, i) :: p(i) == Asked(a))
    && (forall i {:trigger p(i)} | IsAsking(p(i)) :: CutSomewhere(cut, p(i), i))
  }

  ghost predicate CutSomewhere<T>(cut: Cut, r: Outcome<T>, i: Wire) {
    exists a :: r == Asked(a) && cut(a, i)
  }

  ghost predicate NeverFails<T(!new)>(p: Wire -> Outcome<T>) {
    forall i {:trigger p(i)} :: !p(i).Failure?
  }

  // ----- Combinators -----

  /** A cut in the first of two things, or in the second, behind a text of the first. */
  ghost predicate PairCut<A(!new)>(g: Grammar<A>, first: Cut, second: Cut, a: Ask, i: Wire) {
    first(a, i) || exists x, j {:trigger g(x, i, Byte(SP, j))} :: g(x, i, Byte(SP, j)) && second(a, j)
  }

  lemma {:induction false} PairAsks<A(!new), B(!new)>(
      p: Wire -> Outcome<A>, q: Wire -> Outcome<B>, g: Grammar<A>, follow: Wire -> bool,
      first: Cut, second: Cut, a: Ask, i: Wire)
    requires Consuming(p) && Consuming(q)
    requires Reads(p, g, follow) && Accepts(p, g) && forall j :: follow(Byte(SP, j))
    requires Asks(p, first) && Asks(q, second)
    ensures Pair(p, q, i) == Asked(a) <==> PairCut(g, first, second, a, i)
  {
    if Pair(p, q, i) == Asked(a) && p(i).Ok? {
      var k := p(i).rest;
      assert k == Byte(SP, k.tail) && q(k.tail) == Asked(a);
      assert CutSomewhere(second, q(k.tail), k.tail);
      assert g(p(i).value, i, Byte(SP, k.tail));
    }
    if Pair(p, q, i) == Asked(a) && !p(i).Ok? {
      assert CutSomewhere(first, p(i), i);
    }
    if PairCut(g, first, second, a, i) && !first(a, i) {
      var x, j :| g(x, i, Byte(SP, j)) && second(a, j);
      assert p(i) == Ok(Byte(SP, j), x);
    }
  }

  /** A cut in one of the things in a list, behind texts of those before it. */
  ghost predicate ListCut<T(!new)>(sep: byte, g: Grammar<T>, cut: Cut, a: Ask, i: Wire) {
    exists xs: seq<T>, text: nat -> Wire :: CutBehind(sep, g, xs, text) && text(0) == i && cut(a, text(|xs|))
  }

  ghost predicate CutBehind<T>(sep: byte, g: Grammar<T>, xs: seq<T>, text: nat -> Wire) {
    forall m: nat {:trigger xs[m]} | m < |xs| :: g(xs[m], text(m), Byte(sep, text(m + 1)))
  }

  lemma {:induction false} ListStops<T(!new)>(
      sep: byte, p: Wire -> Outcome<T>, g: Grammar<T>, follow: Wire -> bool, cut: Cut, a: Ask, i: Wire)
    requires Consuming(p)
    requires Reads(p, g, follow) && forall j :: follow(Byte(sep, j))
    requires Asks(p, cut) && ListCut(sep, g, cut, a, i)
    ensures SeparatedList1(sep, p, i) == Asked(a)
  {
    var xs: seq<T>, text: nat -> Wire :| CutBehind(sep, g, xs, text) && text(0) == i && cut(a, text(|xs|));
    forall m: nat {:trigger p(text(m))} | m < |xs| ensures p(text(m)) == Ok(Byte(sep, text(m + 1)), xs[m]) {
      assert g(xs[m], text(m), Byte(sep, text(m + 1)));
    }
    assert p(text(|xs|)) == Asked(a);
    ElementFails(sep, p, text, xs, LiteralFound(a.length, a.mode));
  }

  lemma {:induction false} ElementFails<T>(
      sep: byte, p: Wire -> Outcome<T>, text: nat -> Wire, xs: seq<T>, kind: FailureKind)
    requires Consuming(p)
    requires forall m: nat {:trigger p(text(m))} | m < |xs| :: p(text(m)) == Ok(Byte(sep, text(m + 1)), xs[m])
    requires p(text(|xs|)) == Failure(kind)
    ensures SeparatedList1(sep, p, text(0)) == Failure(kind)
  {
    if xs != [] {
      assert p(text(0)) == Ok(Byte(sep, text(1)), xs[0]);
      assert xs[..1] == [xs[0]];
      MoreFail(sep, p, text, xs, 1, kind);
    }
  }

  lemma {:induction false} MoreFail<T>(
      sep: byte, p: Wire -> Outcome<T>, text: nat -> Wire, xs: seq<T>, m: nat, kind: FailureKind)
    requires Consuming(p) && 1 <= m <= |xs|
    requires forall k: nat {:trigger p(text(k))} | k < |xs| :: p(text(k)) == Ok(Byte(sep, text(k + 1)), xs[k])
    requires p(text(|xs|)) == Failure(kind)
    ensures SeparatedMore(sep, p, Byte(sep, text(m)), xs[..m]) == Failure(kind)
    decreases |xs| - m
  {
    if m < |xs| {
      assert xs[..m] + [xs[m]] == xs[..m + 1];
      MoreFail(sep, p, text, xs, m + 1, kind);
    }
  }

  /** Where a list that asks for literal data was cut. */
  lemma {:induction false} MoreCut<T(!new)>(
      sep: byte, p: Wire -> Outcome<T>, g: Grammar<T>, cut: Cut, a: Ask, i: Wire, acc: seq<T>)
      returns (xs: seq<T>, text: nat -> Wire)
    requires Consuming(p) && Accepts(p, g) && Asks(p, cut)
    requires SeparatedMore(sep, p, i, acc) == Asked(a)
    ensures CutBehind(sep, g, xs, text) && i == Byte(sep, text(0)) && cut(a, text(|xs|))
    decreases Size(i)
  {
    if p(i.tail).Ok? {
      var x, next := p(i.tail).value, p(i.tail).rest;
      var xs', text' := MoreCut(sep, p, g, cut, a, next, acc + [x]);
      xs, text := PutFirst(sep, g, x, i.tail, xs', text');
    } else {
      assert CutSomewhere(cut, p(i.tail), i.tail);
      xs, text := [], (m: nat) => i.tail;
    }
  }

  lemma {:induction false} PutFirst<T(!new)>(
      sep: byte, g: Grammar<T>, x: T, i: Wire, xs': seq<T>, text': nat -> Wire)
      returns (xs: seq<T>, text: nat -> Wire)
    requires CutBehind(sep, g, xs', text') && g(x, i, Byte(sep, text'(0)))
    ensures CutBehind(sep, g, xs, text) && text(0) == i && text(|xs|) == text'(|xs'|)
  {
    xs := [x] + xs';
    text := (m: nat) => if m == 0 then i else text'(m - 1);
    forall m: nat {:trigger xs[m]} | m < |xs| ensures g(xs[m], text(m), Byte(sep, text(m + 1))) {
      if m > 0 {
        assert xs[m] == xs'[m - 1];
      }
    }
  }

  lemma {:induction false} ListAsks<T(!new)>(
      sep: byte, p: Wire -> Outcome<T>, g: Grammar<T>, follow: Wire -> bool, cut: Cut, a: Ask, i: Wire)
    requires Consuming(p)
    requires Reads(p, g, follow) && Accepts(p, g) && forall j :: follow(Byte(sep, j))
    requires Asks(p, cut)
    ensures SeparatedList1(sep, p, i) == Asked(a) <==> ListCut(sep, g, cut, a, i)
  {
    if ListCut(sep, g, cut, a, i) {
      ListStops(sep, p, g, follow, cut, a, i);
    }
    if SeparatedList1(sep, p, i) == Asked(a) {
      if p(i).Ok? {
        var xs', text' := MoreCut(sep, p, g, cut, a, p(i).rest, [p(i).value]);
        var xs, text := PutFirst(sep, g, p(i).value, i, xs', text');
      } else {
        assert CutSomewhere(cut, p(i), i);
        var xs: seq<T>, text: nat -> Wire := [], (m: nat) => i;
        assert CutBehind(sep, g, xs, text) && cut(a, text(|xs|));
      }
    }
  }

  lemma {:induction false} MoreNeverFails<T(!new)>(sep: byte, p: Wire -> Outcome<T>, i: Wire, acc: seq<T>)
    requires Consuming(p) && NeverFails(p)
    ensures !SeparatedMore(sep, p, i, acc).Failure?
    decreases Size(i)
  {
    if i.Byte? && i.head == sep && p(i.tail).Ok? {
      MoreNeverFails(sep, p, p(i.tail).rest, acc + [p(i.tail).value]);
    }
  }

  // ----- Strings -----

  /** The announcement of a literal with nothing behind it. */
  ghost predicate StringCut(a: Ask, i: Wire) {
    a.length <= U32_MAX && PrefixText(a.length, a.mode, i, End)
  }

  ghost predicate NoCut(a: Ask, i: Wire) {
    false
  }

  lemma {:induction false} EscapedNeverFails(i: Wire)
    ensures !ReadEscaped(i).Failure?
    decreases Size(i)
  {
    if i.Byte? {
      if TakeWhile1(IsQuotedText, i).Ok? {
        EscapedNeverFails(TakeWhile1(IsQuotedText, i).rest);
      } else if i.head == BACKSLASH && i.tail.Byte? {
        assert Size(i) == 2 + Size(i.tail.tail);
        EscapedNeverFails(i.tail.tail);
      }
    }
  }

  lemma {:induction false} QuotedNeverFails(i: Wire)
    ensures !ReadQuoted(i).Failure?
  {
    if i.Byte? {
      EscapedNeverFails(i.tail);
    }
  }

  lemma {:induction false} TakeNeverFails(n: nat, i: Wire)
    ensures !Take(n, i).Failure?
  {
    if n > 0 && i.Byte? {
      TakeNeverFails(n - 1, i.tail);
    }
  }

  lemma {:induction false} PrefixNeverFails(i: Wire)
    ensures !ReadPrefix(i).Failure?
  {
  }

  /** A literal that is asked for is one whose announcement ends the input. */
  lemma {:induction false} AskedLiteral(i: Wire)
    ensures IsAsking(ReadLiteral(i)) ==>
      ReadPrefix(i).Ok? && ReadPrefix(i).rest == End
      && ReadLiteral(i).kind == LiteralFound(ReadPrefix(i).value.0, ReadPrefix(i).value.1)
  {
    PrefixNeverFails(i);
    if ReadPrefix(i).Ok? {
      TakeNeverFails(ReadPrefix(i).value.0, ReadPrefix(i).rest);
    }
  }

  lemma {:induction false} LiteralAsks(a: Ask, i: Wire)
    ensures ReadLiteral(i) == Asked(a) <==> StringCut(a, i)
  {
    if ReadLiteral(i) == Asked(a) {
      AskedLiteral(i);
      PrefixIsText(i);
    }
    if StringCut(a, i) {
      PrefixReads(a.length, a.mode, i, End);
    }
  }

  lemma {:induction false} StringAsks(a: Ask, i: Wire)
    ensures ReadAString(i) == Asked(a) <==> StringCut(a, i)
  {
    LiteralAsks(a, i);
    QuotedNeverFails(i);
    if StringCut(a, i) {
      assert Starts(i, LBRACE);
    }
  }

  lemma {:induction false} AStringsAsk()
    ensures Asks(ReadAString, StringCut)
  {
    forall a, i {:trigger StringCut(a, i)} | StringCut(a, i) ensures ReadAString(i) == Asked(a) {
      StringAsks(a, i);
    }
    forall i {:trigger ReadAString(i)} | IsAsking(ReadAString(i)) ensures CutSomewhere(StringCut, ReadAString(i), i) {
      var r := ReadAString(i);
      QuotedNeverFails(i);
      assert r == ReadLiteral(i).Map(l => StringString(LiteralString(l)));
      AskedLiteral(i);
      StringAsks(Ask(r.kind.length, r.kind.mode), i);
    }
  }

  // ----- Readers that never ask -----

  lemma {:induction false} NumberNeverFails(i: Wire)
    ensures !ReadNumber(i).Failure? && !ReadSequence(i).Failure?
  {
  }

  lemma {:induction false} SetNeverFails(i: Wire)
    ensures !ReadSequenceSet(i).Failure?
  {
    forall j {:trigger ReadSequence(j)} ensures !ReadSequence(j).Failure? {
      NumberNeverFails(j);
    }
    if ReadSequence(i).Ok? {
      MoreNeverFails(COMMA, ReadSequence, ReadSequence(i).rest, [ReadSequence(i).value]);
    }
  }

  lemma {:induction false} TagNeverFails(t: string, k: nat, i: Wire)
    requires k <= |t|
    ensures !TagFrom(t, k, i).Failure?
    decreases |t| - k
  {
    if k < |t| && i.Byte? {
      TagNeverFails(t, k + 1, i.tail);
    }
  }

  lemma {:induction false} MonthNeverFails(month: nat, i: Wire)
    requires 1 <= month <= 13
    ensures !ReadMonth(month, i).Failure?
    decreases 13 - month
  {
    if month < 13 {
      TagNeverFails(MonthName(month), 0, i);
      MonthNeverFails(month + 1, i);
    }
  }

  lemma {:induction false} DateTextNeverFails(i: Wire)
    ensures !ReadDateText(i).Failure?
  {
    if ReadDigits(1, 2, i).Ok? {
      var k := ReadDigits(1, 2, i).rest;
      if Starts(k, HYPHEN) {
        MonthNeverFails(1, k.tail);
      }
    }
  }

  lemma {:induction false} DateNeverFails(i: Wire)
    ensures !ReadDate(i).Failure?
  {
    DateTextNeverFails(i);
    if i.Byte? {
      DateTextNeverFails(i.tail);
    }
  }

  /** A string whose length, if it is announced, fits 32 bits. */
  ghost predicate GoodAStringText(s: AString, i: Wire, rest: Wire) {
    AStringText(s, i, rest) && FitsAString(s)
  }

  lemma {:induction false} GoodAStringsRead()
    ensures Reads(ReadAString, GoodAStringText, Closed) && Accepts(ReadAString, GoodAStringText)
  {
    forall s, i, rest {:trigger GoodAStringText(s, i, rest)} | GoodAStringText(s, i, rest) && Closed(rest)
      ensures ReadAString(i) == Ok(rest, s)
    {
      AStringReads(s, i, rest);
    }
    forall i {:trigger ReadAString(i)}
      ensures var r := ReadAString(i); r.Ok? ==> GoodAStringText(r.value, i, r.rest)
    {
      AStringIsText(i);
      AStringIsGood(i);
    }
  }

  predicate Closed(rest: Wire) {
    rest.Byte? && !IsAStringChar(rest.head)
  }
}
