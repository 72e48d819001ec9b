/** What is read as a search key is legal, within the limit, and can be written and read again. */
module SearchLegality {
  import opened Octets
  import opened Nom
  import opened Strings
  import opened SequenceCodec
  import opened Dates
  import opened Keywords
  import opened Search

  /** A legal key of at most `d` levels whose literals can be announced. */
  predicate Accepted(k: SearchKey, d: nat) {
    ValidKey(k) && FitsKey(k) && Depth(k) <= d
  }

  lemma HeaderIsGood(i: Wire)
    ensures ReadHeader(i).Ok? ==> Accepted(ReadHeader(i).value, 1)
  {
    if ReadHeader(i).Ok? {
      AStringIsGood(i);
      AStringIsGood(Char(SP, ReadAString(i).rest).rest);
    }
  }

  lemma FieldIsGood(kw: FieldWord, i: Wire)
    ensures ReadField(kw, i).Ok? ==> Accepted(ReadField(kw, i).value, 1)
  {
    AStringIsGood(i);
  }

  lemma DayIsGood(kw: DayWord, i: Wire)
    ensures ReadDay(kw, i).Ok? ==> Accepted(ReadDay(kw, i).value, 1)
  {
  }

  lemma LabelIsGood(kw: LabelWord, i: Wire)
    ensures ReadLabel(kw, i).Ok? ==> Accepted(ReadLabel(kw, i).value, 1)
  {
    AtomIsText(i);
  }

  lemma SizedIsGood(kw: SizeWord, i: Wire)
    ensures ReadSized(kw, i).Ok? ==> Accepted(ReadSized(kw, i).value, 1)
  {
  }

  lemma UidIsGood(i: Wire)
    ensures ReadUid(i).Ok? ==> Accepted(ReadUid(i).value, 1)
  {
  }

  lemma NotIsGood(d: nat, nested: Wire -> Outcome<SearchKey>, i: Wire)
    requires Consuming(nested) && Sound(nested, (k: SearchKey) => Accepted(k, d))
    ensures ReadNot(nested, i).Ok? ==> Accepted(ReadNot(nested, i).value, d + 1)
  {
    assert nested(i).Ok? ==> Accepted(nested(i).value, d);
  }

  lemma OrIsGood(d: nat, nested: Wire -> Outcome<SearchKey>, i: Wire)
    requires Consuming(nested) && Sound(nested, (k: SearchKey) => Accepted(k, d))
    ensures ReadOr(nested, i).Ok? ==> Accepted(ReadOr(nested, i).value, d + 1)
  {
    if ReadOr(nested, i).Ok? {
      assert Accepted(nested(i).value, d);
      var j := Char(SP, nested(i).rest).rest;
      assert Accepted(nested(j).value, d);
    }
  }

  lemma {:induction false} ArgumentIsAccepted(kw: Keyword, d: nat, nested: Wire -> Outcome<SearchKey>, i: Wire)
    requires ShapeOf(kw) != NoArgument
    requires Consuming(nested) && Sound(nested, (k: SearchKey) => Accepted(k, d))
    ensures ReadArgument(kw, nested, i).Ok? ==> Accepted(ReadArgument(kw, nested, i).value, d + 1)
  {
    match ShapeOf(kw)
    case AStringArgument => FieldIsGood(kw, i);
    case DateArgument => DayIsGood(kw, i);
    case AtomArgument => LabelIsGood(kw, i);
    case NumberArgument => SizedIsGood(kw, i);
    case HeaderArguments => HeaderIsGood(i);
    case KeyArgument => NotIsGood(d, nested, i);
    case TwoKeys => OrIsGood(d, nested, i);
    case SetArgument => UidIsGood(i);
  }

  lemma {:induction false} KeywordIsAccepted(kw: Keyword, d: nat, nested: Wire -> Outcome<SearchKey>, i: Wire)
    requires Consuming(nested) && Sound(nested, (k: SearchKey) => Accepted(k, d))
    ensures ReadKeyword(kw, nested, i).Ok? ==> Accepted(ReadKeyword(kw, nested, i).value, d + 1)
  {
    if ReadKeyword(kw, nested, i).Ok? && ShapeOf(kw) != NoArgument {
      ArgumentIsAccepted(kw, d, nested, Char(SP, TagNoCase(Name(kw), i).rest).rest);
    }
  }

  lemma {:induction false} DeepestWithin(k: SearchKey, n: nat, d: nat)
    requires k.And? && n <= |k.keys|
    requires forall m | 0 <= m < n :: Depth(k.keys[m]) <= d
    ensures Deepest(k, n) <= d
    decreases n
  {
    if n > 0 {
      DeepestWithin(k, n - 1, d);
    }
  }

  lemma {:induction false} GroupIsAccepted(d: nat, nested: Wire -> Outcome<SearchKey>, i: Wire)
    requires Consuming(nested) && Sound(nested, (k: SearchKey) => Accepted(k, d))
    ensures ReadGroup(nested, i).Ok? ==> Accepted(ReadGroup(nested, i).value, d + 1)
  {
    if ReadGroup(nested, i).Ok? {
      SeparatedListSound(SP, nested, Char(LPAREN, i).rest, (k: SearchKey) => Accepted(k, d));
      var k := ReadGroup(nested, i).value;
      DeepestWithin(k, |k.keys|, d);
    }
  }

  lemma {:induction false} OtherIsAccepted(d: nat, nested: Wire -> Outcome<SearchKey>, i: Wire)
    requires Consuming(nested) && Sound(nested, (k: SearchKey) => Accepted(k, d))
    ensures ReadOther(nested, i).Ok? ==> Accepted(ReadOther(nested, i).value, d + 1)
  {
    GroupIsAccepted(d, nested, i);
  }

  lemma {:induction false} StepIsAccepted(
      kw: Keyword, n: nat, d: nat, nested: Wire -> Outcome<SearchKey>, i: Wire)
    requires n < KEYWORDS
    requires Consuming(nested) && Sound(nested, (k: SearchKey) => Accepted(k, d))
    ensures var o := Alt(ReadKeyword(kw, nested, i), ReadFrom(n + 1, nested, i));
            o.Ok? ==> Accepted(o.value, d + 1)
    decreases KEYWORDS - n, 0
  {
    KeywordIsAccepted(kw, d, nested, i);
    FromIsAccepted(n + 1, d, nested, i);
    EitherIsAccepted(ReadKeyword(kw, nested, i), ReadFrom(n + 1, nested, i), d + 1);
  }

  lemma EitherIsAccepted(first: Outcome<SearchKey>, second: Outcome<SearchKey>, d: nat)
    requires first.Ok? ==> Accepted(first.value, d)
    requires second.Ok? ==> Accepted(second.value, d)
    ensures Alt(first, second).Ok? ==> Accepted(Alt(first, second).value, d)
  {
  }

  lemma {:induction false} FromIsAccepted(n: nat, d: nat, nested: Wire -> Outcome<SearchKey>, i: Wire)
    requires n <= KEYWORDS
    requires Consuming(nested) && Sound(nested, (k: SearchKey) => Accepted(k, d))
    ensures ReadFrom(n, nested, i).Ok? ==> Accepted(ReadFrom(n, nested, i).value, d + 1)
    decreases KEYWORDS - n, 1
  {
    if n == KEYWORDS {
      OtherIsAccepted(d, nested, i);
    } else {
      StepIsAccepted(KeywordAt(n), n, d, nested, i);
    }
  }

  /** The limit is effective: no key of more than `d` levels is ever read, nor an illegal one. */
  lemma {:induction false} KeyIsAccepted(d: nat)
    ensures Sound(KeyReader(d), (k: SearchKey) => Accepted(k, d))
  {
    if d > 0 {
      KeyIsAccepted(d - 1);
    }
    forall i {:trigger KeyReader(d)(i)}
      ensures KeyReader(d)(i).Ok? ==> Accepted(KeyReader(d)(i).value, d)
    {
      if d > 0 {
        FromIsAccepted(0, d - 1, KeyReader(d - 1), i);
      }
    }
  }

  // ----- Only texts of keys are read -----

  lemma {:induction false} FieldIsText(kw: FieldWord, i: Wire, j: Wire)
    requires ArgumentAt(kw, i, j)
    ensures var r := ReadField(kw, j); r.Ok? ==> KeyText(r.value, i, r.rest)
  {
    AStringIsText(j);
  }

  lemma {:induction false} DayIsText(kw: DayWord, i: Wire, j: Wire)
    requires ArgumentAt(kw, i, j)
    ensures var r := ReadDay(kw, j); r.Ok? ==> KeyText(r.value, i, r.rest)
  {
    DateIsText(j);
  }

  lemma {:induction false} LabelIsText(kw: LabelWord, i: Wire, j: Wire)
    requires ArgumentAt(kw, i, j)
    ensures var r := ReadLabel(kw, j); r.Ok? ==> KeyText(r.value, i, r.rest)
  {
    AtomIsText(j);
  }

  lemma {:induction false} SizedIsText(kw: SizeWord, i: Wire, j: Wire)
    requires ArgumentAt(kw, i, j)
    ensures var r := ReadSized(kw, j); r.Ok? ==> KeyText(r.value, i, r.rest)
  {
    NumberIsText(j);
  }

  lemma {:induction false} HeaderIsText(kw: Keyword, i: Wire, j: Wire)
    requires ArgumentAt(kw, i, j) && kw == HEADER
    ensures var r := ReadHeader(j); r.Ok? ==> KeyText(r.value, i, r.rest)
  {
    if ReadHeader(j).Ok? {
      AStringIsText(j);
      var l := ReadAString(j).rest;
      assert l == Byte(SP, l.tail);
      AStringIsText(l.tail);
      var r := ReadHeader(j);
      assert PairText(AStringText, AStringText, r.value.name, r.value.value, j, r.rest);
    }
  }

  lemma {:induction false} UidIsText(kw: Keyword, i: Wire, j: Wire)
    requires ArgumentAt(kw, i, j) && kw == UID
    ensures var r := ReadUid(j); r.Ok? ==> KeyText(r.value, i, r.rest)
  {
    SetIsText(j);
  }

  lemma {:induction false} NotIsText(kw: Keyword, nested: Wire -> Outcome<SearchKey>, i: Wire, j: Wire)
    requires Consuming(nested) && Accepts(nested, KeyText)
    requires ArgumentAt(kw, i, j) && kw == NOT
    ensures var r := ReadNot(nested, j); r.Ok? ==> KeyText(r.value, i, r.rest)
  {
    assert nested(j).Ok? ==> KeyText(nested(j).value, j, nested(j).rest);
  }

  lemma {:induction false} OrIsText(kw: Keyword, nested: Wire -> Outcome<SearchKey>, i: Wire, j: Wire)
    requires Consuming(nested) && Accepts(nested, KeyText)
    requires ArgumentAt(kw, i, j) && kw == OR
    ensures var r := ReadOr(nested, j); r.Ok? ==> KeyText(r.value, i, r.rest)
  {
    if ReadOr(nested, j).Ok? {
      var l := nested(j).rest;
      assert l == Byte(SP, l.tail);
      assert KeyText(nested(j).value, j, l);
      assert KeyText(nested(l.tail).value, l.tail, nested(l.tail).rest);
    }
  }

  lemma {:induction false} ArgumentIsText(kw: Keyword, nested: Wire -> Outcome<SearchKey>, i: Wire, j: Wire)
    requires ShapeOf(kw) != NoArgument
    requires Consuming(nested) && Accepts(nested, KeyText)
    requires ArgumentAt(kw, i, j)
    ensures var r := ReadArgument(kw, nested, j); r.Ok? ==> KeyText(r.value, i, r.rest)
  {
    match ShapeOf(kw)
    case AStringArgument => FieldIsText(kw, i, j);
    case DateArgument => DayIsText(kw, i, j);
    case AtomArgument => LabelIsText(kw, i, j);
    case NumberArgument => SizedIsText(kw, i, j);
    case HeaderArguments => HeaderIsText(kw, i, j);
    case KeyArgument => NotIsText(kw, nested, i, j);
    case TwoKeys => OrIsText(kw, nested, i, j);
    case SetArgument => UidIsText(kw, i, j);
  }

  /** What was read, if anything, is a text that begins at `i`. */
  ghost predicate GivesText(o: Outcome<SearchKey>, i: Wire) {
    o.Ok? ==> KeyText(o.value, i, o.rest)
  }

  lemma {:induction false} KeywordIsText(kw: Keyword, nested: Wire -> Outcome<SearchKey>, i: Wire)
    requires Consuming(nested) && Accepts(nested, KeyText)
    ensures GivesText(ReadKeyword(kw, nested, i), i)
  {
    if ReadKeyword(kw, nested, i).Ok? {
      TagTakesWord(Name(kw), i);
      var w := TagNoCase(Name(kw), i).rest;
      if ShapeOf(kw) != NoArgument {
        assert w == Byte(SP, w.tail);
        ArgumentIsText(kw, nested, i, w.tail);
      }
    }
  }

  lemma {:induction false} KeysAreText(
      keys: seq<SearchKey>, nested: Wire -> Outcome<SearchKey>, text: nat -> Wire, tail: Wire)
    requires Consuming(nested) && Accepts(nested, KeyText)
    requires ListText(SP, nested, text, keys, tail)
    ensures KeysStand(And(keys), text, tail)
  {
    forall m: nat {:trigger keys[m]} | m < |keys|
      ensures KeyText(keys[m], text(m), if m + 1 < |keys| then Byte(SP, text(m + 1)) else tail)
    {
      assert nested(text(m)).Ok?;
    }
  }

  lemma {:induction false} GroupIsText(nested: Wire -> Outcome<SearchKey>, i: Wire)
    requires Consuming(nested) && Accepts(nested, KeyText)
    ensures GivesText(ReadGroup(nested, i), i)
  {
    var r := ReadGroup(nested, i);
    if r.Ok? {
      var text := SeparatedListTexts(SP, nested, i.tail);
      var list := SeparatedList1(SP, nested, i.tail);
      assert list.rest == Byte(RPAREN, r.rest);
      KeysAreText(list.value, nested, text, list.rest);
    }
  }

  lemma {:induction false} OtherIsText(nested: Wire -> Outcome<SearchKey>, i: Wire)
    requires Consuming(nested) && Accepts(nested, KeyText)
    ensures GivesText(ReadOther(nested, i), i)
  {
    SetIsText(i);
    GroupIsText(nested, i);
  }

  lemma {:induction false} EitherIsText(first: Outcome<SearchKey>, second: Outcome<SearchKey>, i: Wire)
    requires GivesText(first, i) && GivesText(second, i)
    ensures GivesText(Alt(first, second), i)
  {
  }

  lemma {:induction false} StepIsText(kw: Keyword, n: nat, nested: Wire -> Outcome<SearchKey>, i: Wire)
    requires n < KEYWORDS
    requires Consuming(nested) && Accepts(nested, KeyText)
    ensures GivesText(Alt(ReadKeyword(kw, nested, i), ReadFrom(n + 1, nested, i)), i)
    decreases KEYWORDS - n, 0
  {
    KeywordIsText(kw, nested, i);
    FromIsText(n + 1, nested, i);
    EitherIsText(ReadKeyword(kw, nested, i), ReadFrom(n + 1, nested, i), i);
  }

  lemma {:induction false} FromIsText(n: nat, nested: Wire -> Outcome<SearchKey>, i: Wire)
    requires n <= KEYWORDS
    requires Consuming(nested) && Accepts(nested, KeyText)
    ensures GivesText(ReadFrom(n, nested, i), i)
    decreases KEYWORDS - n, 1
  {
    if n == KEYWORDS {
      OtherIsText(nested, i);
    } else {
      StepIsText(KeywordAt(n), n, nested, i);
    }
  }

  /** Whatever is read as a search key is a text of that key. */
  lemma {:induction false} KeyIsText(d: nat)
    ensures Accepts(KeyReader(d), KeyText)
  {
    if d > 0 {
      KeyIsText(d - 1);
    }
    var p := KeyReader(d);
    forall i {:trigger p(i)} ensures p(i).Ok? ==> KeyText(p(i).value, i, p(i).rest) {
      if d > 0 {
        FromIsText(0, KeyReader(d - 1), i);
      }
    }
  }

  /** The language of search keys: in front of anything that cannot continue its last token, a key
      is read from exactly its texts, if it is within the limit and its literals fit. */
  lemma KeyGrammar(k: SearchKey, d: nat, i: Wire, rest: Wire)
    requires Delimited(rest)
    ensures ReadKey(d, i) == Ok(rest, k) <==> KeyText(k, i, rest) && Depth(k) <= d && FitsKey(k)
  {
    var p := KeyReader(d);
    assert p(i) == ReadKey(d, i);
    KeyIsText(d);
    KeyIsAccepted(d);
    if KeyText(k, i, rest) {
      KeyReads(k, d, i, rest);
      JudgeMeaning(k, d);
    }
  }

  /** Whatever was read as a search key can be written and read again. */
  lemma ReadKeysCanBeWritten(d: nat, i: Wire, rest: Wire)
    requires ReadKey(d, i).Ok?
    requires Delimited(rest)
    ensures ValidKey(ReadKey(d, i).value)
    ensures ReadKey(d, PutKey(ReadKey(d, i).value, rest)) == Ok(rest, ReadKey(d, i).value)
  {
    var p := KeyReader(d);
    KeyIsAccepted(d);
    assert p(i) == ReadKey(d, i);
    var k := ReadKey(d, i).value;
    SearchKeyRoundTrip(k, d, rest);
  }
}
