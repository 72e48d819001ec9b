/** The SEARCH command: every text of it is read, with up to nine levels of nesting. */
module SearchCommands {
  import opened Octets
  import opened Nom
  import opened Strings
  import opened Keywords
  import opened Search
  import opened SearchLegality
  import opened Commands

  // ----- A key is not taken for a charset argument -----

  lemma FirstLetter(kw: Keyword)
    ensures |Name(kw)| >= 2 && (Name(kw)[0] != 'C' || kw == CC)
  {
  }

  lemma {:induction false} NoKeywordIsCharset(kw: Keyword, i: Wire, w: Wire)
    requires WordText(Name(kw), i, w)
    ensures TagNoCase("CHARSET", i) == Error
  {
    var a, b := "CHARSET", Name(kw);
    FirstLetter(kw);
    NameIsUpperCase(kw);
    if kw == CC {
      assert LowerCase(Octet(a[1])) != LowerCase(Octet(b[1]));
    } else {
      assert LowerCase(Octet(a[0])) != LowerCase(Octet(b[0]));
    }
    WordRejects(a, b, i, w);
  }

  lemma CharsetIsUpperCase()
    ensures UpperCase("CHARSET")
  {
  }

  lemma {:induction false} NoSuchArgument(kw: Keyword, i: Wire, j: Wire)
    requires ArgumentAt(kw, i, j)
    ensures TagNoCase("CHARSET", i) == Error
  {
    NoKeywordIsCharset(kw, i, Byte(SP, j));
  }

  lemma {:induction false} NotALetter(i: Wire)
    requires i.Byte? && i.head < 0x41
    ensures TagNoCase("CHARSET", i) == Error
  {
    CharsetIsUpperCase();
    UpperCaseRejects("CHARSET", i);
  }

  /** A key begins with its keyword, or with no letter at all. */
  lemma {:induction false} KeyIsNoCharset(k: SearchKey, i: Wire, rest: Wire)
    requires KeyText(k, i, rest)
    ensures TagNoCase("CHARSET", i) == Error
  {
    if k.Not? || k.Or? || k.And? {
      NestedIsNoCharset(k, i, rest);
    } else {
      LeafIsNoCharset(k, i, rest);
    }
  }

  lemma {:induction false} NestedIsNoCharset(k: SearchKey, i: Wire, rest: Wire)
    requires KeyText(k, i, rest) && (k.Not? || k.Or? || k.And?)
    ensures TagNoCase("CHARSET", i) == Error
  {
    match k
    case Not(key) =>
      var j :| ArgumentAt(NOT, i, j) && KeyText(key, j, rest);
      NoSuchArgument(NOT, i, j);
    case Or(left, right) =>
      var j, l :| ArgumentAt(OR, i, j) && KeyText(left, j, Byte(SP, l)) && KeyText(right, l, rest);
      NoSuchArgument(OR, i, j);
    case And(_) => NotALetter(i);
  }

  lemma {:induction false} LeafIsNoCharset(k: SearchKey, i: Wire, rest: Wire)
    requires KeyText(k, i, rest) && IsLeaf(k)
    ensures TagNoCase("CHARSET", i) == Error
  {
    match k
    case Flag(flag) => NoKeywordIsCharset(flag, i, rest);
    case Field(field, value) =>
      var j :| ArgumentAt(field, i, j) && AStringText(value, j, rest);
      NoSuchArgument(field, i, j);
    case Day(when, date) =>
      var j :| ArgumentAt(when, i, j) && Dates.DateForm(date, j, rest);
      NoSuchArgument(when, i, j);
    case Label(what, atom) =>
      var j :| ArgumentAt(what, i, j) && AtomText(atom, j, rest);
      NoSuchArgument(what, i, j);
    case Sized(bound, octets) =>
      var j :| ArgumentAt(bound, i, j) && NumberText(octets, j, rest);
      NoSuchArgument(bound, i, j);
    case Header(_, _) =>
      var kw, j := HeaderAt(k, i, rest);
      NoSuchArgument(kw, i, j);
    case Uid(_) =>
      var kw, j := UidAt(k, i, rest);
      NoSuchArgument(kw, i, j);
    case SequenceSet(set_) =>
      SetHead(set_, i, rest);
      NotALetter(i);
  }

  // ----- The charset argument -----

  lemma CharsetReads(c: Charset, i: Wire, rest: Wire)
    requires CharsetText(c, i, rest)
    requires Delimited(rest)
    ensures ReadCharset(i) == Ok(rest, c)
  {
    match c
    case AtomCharset(text) => AtomReads(text, i, rest);
    case QuotedCharset(text) => QuotedReads(text, i, rest);
  }

  lemma CharsetIsText(i: Wire)
    ensures var r := ReadCharset(i); r.Ok? ==> CharsetText(r.value, i, r.rest)
  {
    AtomIsText(i);
    QuotedIsText(i);
  }

  lemma CharsetWord(i: Wire, j: Wire)
    ensures WordText(" CHARSET ", i, j)
       <==> Starts(i, SP) && WordText("CHARSET", i.tail, Byte(SP, j))
  {
    assert " " + "CHARSET" == " CHARSET" && " CHARSET" + " " == " CHARSET ";
    if WordText(" CHARSET ", i, j) {
      var w := WordSplits(" CHARSET", " ", i, j);
      SpaceIsWord(w, j);
      var v := WordSplits(" ", "CHARSET", i, w);
      SpaceIsWord(i, v);
    }
    if Starts(i, SP) && WordText("CHARSET", i.tail, Byte(SP, j)) {
      SpaceIsWord(i, i.tail);
      SpaceIsWord(Byte(SP, j), j);
      WordJoins(" ", "CHARSET", i, i.tail, Byte(SP, j));
      WordJoins(" CHARSET", " ", i, Byte(SP, j), j);
    }
  }

  lemma CharsetArgumentReads(c: Charset, i: Wire, rest: Wire)
    requires CharsetArgumentText(Some(c), i, rest)
    requires Delimited(rest)
    ensures ReadCharsetArgument(i) == Ok(rest, c)
  {
    var j :| WordText(" CHARSET ", i, j) && CharsetText(c, j, rest);
    CharsetWord(i, j);
    TagIsWord("CHARSET", i.tail, Byte(SP, j));
    CharsetReads(c, j, rest);
  }

  lemma CharsetArgumentIsText(i: Wire)
    ensures var r := Opt(ReadCharsetArgument(i), i); r.Ok? ==> CharsetArgumentText(r.value, i, r.rest)
  {
    if ReadCharsetArgument(i).Ok? {
      TagTakesWord("CHARSET", i.tail);
      var w := TagNoCase("CHARSET", i.tail).rest;
      assert w == Byte(SP, w.tail);
      CharsetWord(i, w.tail);
      CharsetIsText(w.tail);
    }
  }

  /** Behind a space, criteria are not taken for a charset argument. */
  lemma CriteriaAreNoCharset(criteria: seq<SearchKey>, j: Wire, rest: Wire)
    requires CriteriaText(criteria, j, rest)
    ensures ReadCharsetArgument(Byte(SP, j)) == Error
  {
    var text: nat -> Wire :| KeysStand(And(criteria), text, rest) && text(0) == j;
    assert And(criteria).keys[0] == criteria[0];
    KeyIsNoCharset(criteria[0], j, if 1 < |criteria| then Byte(SP, text(1)) else rest);
  }

  lemma CharsetOptionReads(charset: Option<Charset>, criteria: seq<SearchKey>, i: Wire, j: Wire, rest: Wire)
    requires CharsetArgumentText(charset, i, Byte(SP, j)) && CriteriaText(criteria, j, rest)
    ensures Opt(ReadCharsetArgument(i), i) == Ok(Byte(SP, j), charset)
  {
    match charset
    case None => CriteriaAreNoCharset(criteria, j, rest);
    case Some(c) => CharsetArgumentReads(c, i, Byte(SP, j));
  }

  // ----- The whole command -----

  /** Every criterion is within the limit of the command. */
  predicate Shallow(criteria: seq<SearchKey>) {
    forall m | 0 <= m < |criteria| :: Depth(criteria[m]) <= SEARCH_LEVELS
  }

  /** Criteria are read, or the limit is exceeded, or a literal in them is too long. */
  ghost predicate ReadsCriteria(criteria: seq<SearchKey>, r: Outcome<seq<SearchKey>>, rest: Wire) {
    if FitsKey(And(criteria)) then r == Limited(Shallow(criteria), rest, criteria)
    else r.Error? || r.Failure? || (r.Ok? && Starts(r.rest, SP))
  }

  lemma {:induction false} CriteriaRead(criteria: seq<SearchKey>, i: Wire, rest: Wire)
    requires CriteriaText(criteria, i, rest)
    requires Delimited(rest) && rest.head != SP
    ensures ReadsCriteria(criteria, ReadCriteria(i), rest)
  {
    var k := And(criteria);
    var text: nat -> Wire :| KeysStand(k, text, rest) && text(0) == i;
    EachKeyReads(k, SEARCH_LEVELS, text, rest);
    KeysRead(k, SEARCH_LEVELS, KeyReader(SEARCH_LEVELS), text, rest);
    JudgeCriteria(criteria);
  }

  lemma JudgeCriteria(criteria: seq<SearchKey>)
    ensures var v := JudgeFrom(And(criteria), 0, SEARCH_LEVELS);
            && (v == Fine <==> Shallow(criteria) && FitsKey(And(criteria)))
            && (!Shallow(criteria) && FitsKey(And(criteria)) ==> v == TooDeep)
  {
    JudgeFromMeaning(And(criteria), 0, SEARCH_LEVELS);
  }

  /** What a text of a SEARCH command comes to behind its word. */
  lemma {:induction false} SearchReads(charset: Option<Charset>, criteria: seq<SearchKey>, i: Wire, rest: Wire)
    requires SearchText(charset, criteria, i, rest)
    requires Delimited(rest) && rest.head != SP
    ensures var r, b := ReadSearch(i), SearchCommand(charset, criteria, false);
            if FitsKey(And(criteria)) then r == Limited(Shallow(criteria), rest, b)
            else r.Error? || r.Failure? || (r.Ok? && Starts(r.rest, SP))
  {
    var j :| CharsetArgumentText(charset, i, Byte(SP, j)) && CriteriaText(criteria, j, rest);
    CharsetOptionReads(charset, criteria, i, j, rest);
    CriteriaRead(criteria, j, rest);
  }

  lemma {:induction false} CriteriaAreText(i: Wire)
    ensures var r := ReadCriteria(i);
            r.Ok? ==> CriteriaText(r.value, i, r.rest) && ValidKey(And(r.value)) && FitsKey(And(r.value)) && Shallow(r.value)
  {
    var r := ReadCriteria(i);
    if r.Ok? {
      var p := KeyReader(SEARCH_LEVELS);
      KeyIsText(SEARCH_LEVELS);
      var text := SeparatedListTexts(SP, p, i);
      KeysAreText(r.value, p, text, r.rest);
      KeyIsAccepted(SEARCH_LEVELS);
      SeparatedListSound(SP, p, i, (k: SearchKey) => Accepted(k, SEARCH_LEVELS));
      forall m | 0 <= m < |r.value| ensures Accepted(r.value[m], SEARCH_LEVELS) {
      }
    }
  }

  lemma {:induction false} SearchIsText(i: Wire)
    ensures var r := ReadSearch(i);
            r.Ok? ==> && r.value.SearchCommand? && !r.value.uid && ValidBody(r.value)
                      && SearchText(r.value.charset, r.value.criteria, i, r.rest)
                      && FitsKey(And(r.value.criteria)) && Shallow(r.value.criteria)
  {
    var r := ReadSearch(i);
    if r.Ok? {
      CharsetArgumentIsText(i);
      var w := Opt(ReadCharsetArgument(i), i).rest;
      assert w == Byte(SP, w.tail);
      CriteriaAreText(w.tail);
      CharsetIsValid(r.value.charset, i, w);
    }
  }

  lemma CharsetIsValid(charset: Option<Charset>, i: Wire, rest: Wire)
    requires CharsetArgumentText(charset, i, rest)
    ensures charset.Some? ==> ValidCharset(charset.value)
  {
  }

  // ----- What is written is a text -----

  lemma PutCharsetIsText(charset: Option<Charset>, criteria: seq<SearchKey>, rest: Wire)
    requires ValidBody(SearchCommand(charset, criteria, false))
    ensures CharsetArgumentText(charset, PutSearch(charset, criteria, rest), Byte(SP, PutCriteria(And(criteria), rest)))
  {
    if charset.Some? {
      var w := Byte(SP, PutCriteria(And(criteria), rest));
      TextIsWord(" CHARSET ", PutCharset(charset.value, w));
      match charset.value
      case AtomCharset(text) => assert AtomText(text, Feed(text, w), w);
      case QuotedCharset(text) => PutQuotedIsText(text, w);
    }
  }

  lemma {:induction false} PutSearchIsText(charset: Option<Charset>, criteria: seq<SearchKey>, rest: Wire)
    requires ValidBody(SearchCommand(charset, criteria, false))
    ensures SearchText(charset, criteria, PutSearch(charset, criteria, rest), rest)
  {
    PutCharsetIsText(charset, criteria, rest);
    var text := PutKeysStand(And(criteria), rest);
    assert CriteriaText(criteria, PutCriteria(And(criteria), rest), rest);
  }

  /** What comes behind the word SEARCH is read back, with the charset and the criteria, exactly
      when no criterion is nested more than nine levels deep and every literal fits; a command that
      is only nested too deeply is refused with the recursion limit. */
  lemma {:induction false} SearchCommandRoundTrip(charset: Option<Charset>, criteria: seq<SearchKey>, rest: Wire)
    requires ValidBody(SearchCommand(charset, criteria, false))
    requires Delimited(rest) && rest.head != SP
    ensures var b := SearchCommand(charset, criteria, false);
            && (ReadSearch(PutSearch(charset, criteria, rest)) == Ok(rest, b) <==> Shallow(criteria) && FitsBody(b))
            && (FitsBody(b) && !Shallow(criteria) ==>
                  ReadSearch(PutSearch(charset, criteria, rest)) == Failure(RecursionLimitExceeded))
  {
    PutSearchIsText(charset, criteria, rest);
    SearchReads(charset, criteria, PutSearch(charset, criteria, rest), rest);
  }
}
