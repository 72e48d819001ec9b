/** When the reader of search keys asks for literal data. */
module SearchRequests {
  import opened Octets
  import opened Nom
  import opened Strings
  import opened Keywords
  import opened Search
  import opened SearchLegality
  import opened Requests

  /** The text of a key of at most `d` levels whose literals fit. */
  ghost function KeyWithin(d: nat): Grammar<SearchKey> {
    (k: SearchKey, i: Wire, rest: Wire) => KeyText(k, i, rest) && Depth(k) <= d && FitsKey(k)
  }

  /** A cut behind a keyword and a space. */
  ghost predicate ArgumentCut(kw: Keyword, g: Grammar<SearchKey>, cut: Cut, a: Ask, j: Wire) {
    match ShapeOf(kw)
    case AStringArgument => StringCut(a, j)
    case HeaderArguments => PairCut(GoodAStringText, StringCut, StringCut, a, j)
    case KeyArgument => cut(a, j)
    case TwoKeys => PairCut(g, cut, cut, a, j)
    case _ => false
  }

  /** A cut in a key whose nested keys are those of `g`, with cuts of their own. */
  ghost predicate FormCut(g: Grammar<SearchKey>, cut: Cut, a: Ask, i: Wire) {
    || (exists kw, j :: ArgumentAt(kw, i, j) && ArgumentCut(kw, g, cut, a, j))
    || (Starts(i, LPAREN) && ListCut(SP, g, cut, a, i.tail))
  }

  /** A cut in a key of at most `d` levels. */
  ghost function KeyCut(d: nat): Cut {
    if d == 0 then NoCut
    else (a: Ask, i: Wire) => FormCut(KeyWithin(d - 1), KeyCut(d - 1), a, i)
  }

  // ----- Arguments -----

  lemma {:induction false} HeaderAsks(a: Ask, j: Wire)
    ensures ReadHeader(j) == Asked(a) <==> PairCut(GoodAStringText, StringCut, StringCut, a, j)
  {
    AStringsAsk();
    GoodAStringsRead();
    PairAsks(ReadAString, ReadAString, GoodAStringText, Closed, StringCut, StringCut, a, j);
    assert ReadHeader(j) == Asked(a) <==> Pair(ReadAString, ReadAString, j) == Asked(a);
  }

  /** A reader of nested keys with its texts and cuts. */
  ghost predicate Reader(nested: Wire -> Outcome<SearchKey>, g: Grammar<SearchKey>, cut: Cut) {
    Consuming(nested) && Reads(nested, g, Closed) && Accepts(nested, g) && Asks(nested, cut)
  }

  lemma {:induction false} OrAsks(
      nested: Wire -> Outcome<SearchKey>, g: Grammar<SearchKey>, cut: Cut, a: Ask, j: Wire)
    requires Reader(nested, g, cut)
    ensures ReadOr(nested, j) == Asked(a) <==> PairCut(g, cut, cut, a, j)
  {
    PairAsks(nested, nested, g, Closed, cut, cut, a, j);
    assert ReadOr(nested, j) == Asked(a) <==> Pair(nested, nested, j) == Asked(a);
  }

  lemma {:induction false} NotAsks(
      nested: Wire -> Outcome<SearchKey>, g: Grammar<SearchKey>, cut: Cut, a: Ask, j: Wire)
    requires Reader(nested, g, cut)
    ensures ReadNot(nested, j) == Asked(a) <==> cut(a, j)
  {
    if nested(j) == Asked(a) {
      assert CutSomewhere(cut, nested(j), j);
    }
  }

  lemma {:induction false} FieldAsks(kw: FieldWord, a: Ask, j: Wire)
    ensures ReadField(kw, j) == Asked(a) <==> StringCut(a, j)
  {
    StringAsks(a, j);
  }

  lemma {:induction false} OthersNeverAsk(kw: Keyword, nested: Wire -> Outcome<SearchKey>, a: Ask, j: Wire)
    requires Consuming(nested)
    requires ShapeOf(kw) in {DateArgument, AtomArgument, NumberArgument, SetArgument}
    ensures ReadArgument(kw, nested, j) != Asked(a)
  {
    DateNeverFails(j);
    SetNeverFails(j);
  }

  lemma {:induction false} ArgumentAsks(
      kw: Keyword, nested: Wire -> Outcome<SearchKey>, g: Grammar<SearchKey>, cut: Cut, a: Ask, j: Wire)
    requires Reader(nested, g, cut) && ShapeOf(kw) != NoArgument
    ensures ReadArgument(kw, nested, j) == Asked(a) <==> ArgumentCut(kw, g, cut, a, j)
  {
    match ShapeOf(kw)
    case AStringArgument => FieldAsks(kw, a, j);
    case HeaderArguments => HeaderAsks(a, j);
    case KeyArgument => NotAsks(nested, g, cut, a, j);
    case TwoKeys => OrAsks(nested, g, cut, a, j);
    case _ => OthersNeverAsk(kw, nested, a, j);
  }

  // ----- Forms -----

  lemma {:induction false} GroupAsks(
      nested: Wire -> Outcome<SearchKey>, g: Grammar<SearchKey>, cut: Cut, a: Ask, i: Wire)
    requires Reader(nested, g, cut)
    ensures ReadGroup(nested, i) == Asked(a) <==> Starts(i, LPAREN) && ListCut(SP, g, cut, a, i.tail)
  {
    if Starts(i, LPAREN) {
      ListAsks(SP, nested, g, Closed, cut, a, i.tail);
    }
  }

  lemma {:induction false} OtherAsks(
      nested: Wire -> Outcome<SearchKey>, g: Grammar<SearchKey>, cut: Cut, a: Ask, i: Wire)
    requires Reader(nested, g, cut)
    ensures ReadOther(nested, i) == Asked(a) ==> Starts(i, LPAREN) && ListCut(SP, g, cut, a, i.tail)
  {
    SetNeverFails(i);
    GroupAsks(nested, g, cut, a, i);
  }

  lemma {:induction false} KeywordAsked(
      kw: Keyword, nested: Wire -> Outcome<SearchKey>, g: Grammar<SearchKey>, cut: Cut, a: Ask, i: Wire)
    requires Reader(nested, g, cut) && ReadKeyword(kw, nested, i) == Asked(a)
    ensures exists j :: ArgumentAt(kw, i, j) && ArgumentCut(kw, g, cut, a, j)
  {
    TagNeverFails(Name(kw), 0, i);
    TagTakesWord(Name(kw), i);
    var w := TagNoCase(Name(kw), i).rest;
    assert w == Byte(SP, w.tail);
    ArgumentAsks(kw, nested, g, cut, a, w.tail);
  }

  /** What is asked for is asked for by a keyword's argument or by a conjunction. */
  lemma {:induction false} FromAsked(
      n: nat, nested: Wire -> Outcome<SearchKey>, g: Grammar<SearchKey>, cut: Cut, a: Ask, i: Wire)
    requires n <= KEYWORDS && Reader(nested, g, cut)
    requires ReadFrom(n, nested, i) == Asked(a)
    ensures FormCut(g, cut, a, i)
    decreases KEYWORDS - n
  {
    if n == KEYWORDS {
      OtherAsks(nested, g, cut, a, i);
    } else {
      var kw := KeywordAt(n);
      NextKeyword(n, kw, nested, i);
      if ReadKeyword(kw, nested, i).Error? {
        FromAsked(n + 1, nested, g, cut, a, i);
      } else {
        KeywordAsked(kw, nested, g, cut, a, i);
      }
    }
  }

  lemma {:induction false} FormStops(
      nested: Wire -> Outcome<SearchKey>, g: Grammar<SearchKey>, cut: Cut, a: Ask, i: Wire)
    requires Reader(nested, g, cut) && FormCut(g, cut, a, i)
    ensures ReadFrom(0, nested, i) == Asked(a)
  {
    if kw, j :| ArgumentAt(kw, i, j) && ArgumentCut(kw, g, cut, a, j) {
      AtArgument(kw, nested, i, j);
      ArgumentAsks(kw, nested, g, cut, a, j);
    } else {
      GroupDecides(nested, i.tail);
      GroupAsks(nested, g, cut, a, i);
    }
  }

  /** A reader of one more level. */
  lemma {:induction false} NextLevel(d: nat)
    requires Reader(KeyReader(d), KeyWithin(d), KeyCut(d))
    ensures Asks(KeyReader(d + 1), KeyCut(d + 1))
  {
    var p, nested, g, cut := KeyReader(d + 1), KeyReader(d), KeyWithin(d), KeyCut(d);
    forall a, i {:trigger KeyCut(d + 1)(a, i)} | KeyCut(d + 1)(a, i) ensures p(i) == Asked(a) {
      FormStops(nested, g, cut, a, i);
    }
    forall i {:trigger p(i)} | IsAsking(p(i)) ensures CutSomewhere(KeyCut(d + 1), p(i), i) {
      var a := Ask(p(i).kind.length, p(i).kind.mode);
      assert p(i) == ReadKey(d + 1, i) == ReadFrom(0, nested, i);
      FromAsked(0, nested, g, cut, a, i);
      assert KeyCut(d + 1)(a, i);
    }
  }

  lemma {:induction false} KeysAreRead(d: nat)
    ensures Reads(KeyReader(d), KeyWithin(d), Closed) && Accepts(KeyReader(d), KeyWithin(d))
  {
    var p, g := KeyReader(d), KeyWithin(d);
    forall k, i, rest {:trigger g(k, i, rest)} | g(k, i, rest) && Closed(rest) ensures p(i) == Ok(rest, k) {
      KeyGrammar(k, d, i, rest);
    }
    KeyIsText(d);
    KeyIsAccepted(d);
  }

  /** A reader of search keys asks for literal data exactly at the cuts of keys. */
  lemma {:induction false} KeysAsk(d: nat)
    ensures Reader(KeyReader(d), KeyWithin(d), KeyCut(d))
  {
    KeysAreRead(d);
    if d > 0 {
      KeysAsk(d - 1);
      NextLevel(d - 1);
    } else {
      NoLevel();
    }
  }

  lemma {:induction false} NoLevel()
    ensures Asks(KeyReader(0), KeyCut(0))
  {
  }

  /** Search keys ask for literal data exactly where a key, with at most `d` levels of nesting, is
      cut behind an announcement. */
  lemma {:induction false} KeyRequests(d: nat, a: Ask, i: Wire)
    ensures ReadKey(d, i) == Asked(a) <==> KeyCut(d)(a, i)
  {
    var p := KeyReader(d);
    KeysAsk(d);
    assert p(i) == ReadKey(d, i);
    if p(i) == Asked(a) {
      assert CutSomewhere(KeyCut(d), p(i), i);
    }
  }
}
