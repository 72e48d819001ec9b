/** When the command reader asks for literal data: exactly where a command is cut behind the
    announcement of a literal in place of a string. */
module CommandRequests {
  import opened Octets
  import opened Nom
  import opened Strings
  import opened SequenceCodec
  import opened Search
  import opened Commands
  import opened SearchCommands
  import opened CommandReading
  import opened Requests
  import opened SearchRequests

  /** A mailbox whose name, if it is announced, has a length of 32 bits. */
  ghost predicate GoodMailboxText(m: Mailbox, i: Wire, rest: Wire) {
    MailboxText(m, i, rest) && FitsMailbox(m)
  }

  /** A cut behind a verb. */
  ghost predicate VerbCut(v: Verb, a: Ask, i: Wire) {
    match v
    case MailboxVerb(_) => StringCut(a, i)
    case LoginVerb => Starts(i, SP) && PairCut(GoodAStringText, StringCut, StringCut, a, i.tail)
    case RenameVerb => PairCut(GoodMailboxText, StringCut, StringCut, a, i)
    case CopyVerb => Starts(i, SP) && PairCut(SetText, NoCut, StringCut, a, i.tail)
    case MoveVerb => Starts(i, SP) && PairCut(SetText, NoCut, StringCut, a, i.tail)
    case SearchVerb => CriteriaCut(a, i)
    case _ => false
  }

  /** A cut in the criteria of SEARCH. */
  ghost predicate CriteriaCut(a: Ask, i: Wire) {
    exists charset, j :: CharsetArgumentText(charset, i, Byte(SP, j))
      && ListCut(SP, KeyWithin(SEARCH_LEVELS), KeyCut(SEARCH_LEVELS), a, j)
  }

  ghost predicate PlainCut(v: Verb, a: Ask, i: Wire) {
    exists w :: WordText(Lead(v), i, w) && VerbCut(v, a, w)
  }

  predicate TakesUid(v: Verb) {
    v in {CopyVerb, SearchVerb, MoveVerb}
  }

  /** A cut in the body of a command, which may stand behind UID. */
  ghost predicate BodyCut(a: Ask, i: Wire) {
    || (exists v: Verb :: PlainCut(v, a, i))
    || (exists v: Verb, j :: TakesUid(v) && WordText("UID", i, Byte(SP, j)) && PlainCut(v, a, j))
  }

  ghost predicate CommandCut(tag: bytes, a: Ask, i: Wire) {
    ValidTag(tag) && exists j :: i == Feed(tag, Byte(SP, j)) && BodyCut(a, j)
  }

  // ----- Arguments -----

  lemma {:induction false} MailboxAsks(a: Ask, i: Wire)
    ensures ReadMailbox(i) == Asked(a) <==> StringCut(a, i)
  {
    StringAsks(a, i);
  }

  lemma {:induction false} MailboxesAsk()
    ensures Asks(ReadMailbox, StringCut)
  {
    forall a, i {:trigger StringCut(a, i)} | StringCut(a, i) ensures ReadMailbox(i) == Asked(a) {
      MailboxAsks(a, i);
    }
    forall i {:trigger ReadMailbox(i)} | IsAsking(ReadMailbox(i)) ensures CutSomewhere(StringCut, ReadMailbox(i), i) {
      var a := Ask(ReadMailbox(i).kind.length, ReadMailbox(i).kind.mode);
      MailboxAsks(a, i);
    }
  }

  lemma {:induction false} GoodMailboxesRead()
    ensures Reads(ReadMailbox, GoodMailboxText, Closed) && Accepts(ReadMailbox, GoodMailboxText)
  {
    forall m, i, rest {:trigger GoodMailboxText(m, i, rest)} | GoodMailboxText(m, i, rest) && Closed(rest)
      ensures ReadMailbox(i) == Ok(rest, m)
    {
      MailboxReads(m, i, rest);
    }
    forall i {:trigger ReadMailbox(i)}
      ensures var r := ReadMailbox(i); r.Ok? ==> GoodMailboxText(r.value, i, r.rest)
    {
      MailboxIsText(i);
    }
  }

  lemma {:induction false} SetsRead()
    ensures Reads(ReadSequenceSet, SetText, Spaced) && Accepts(ReadSequenceSet, SetText)
    ensures Asks(ReadSequenceSet, NoCut)
  {
    forall s, i, rest {:trigger SetText(s, i, rest)} | SetText(s, i, rest) && Spaced(rest)
      ensures ReadSequenceSet(i) == Ok(rest, s)
    {
      SetReads(s, i, rest);
    }
    forall i {:trigger ReadSequenceSet(i)}
      ensures var r := ReadSequenceSet(i); !r.Failure? && (r.Ok? ==> SetText(r.value, i, r.rest))
    {
      SetIsText(i);
      SetNeverFails(i);
    }
  }

  predicate Spaced(rest: Wire) {
    Starts(rest, SP)
  }

  lemma {:induction false} LoginAsks(a: Ask, i: Wire)
    ensures ReadLogin(i) == Asked(a) <==> VerbCut(LoginVerb, a, i)
  {
    if Starts(i, SP) {
      AStringsAsk();
      GoodAStringsRead();
      PairAsks(ReadAString, ReadAString, GoodAStringText, Closed, StringCut, StringCut, a, i.tail);
    }
  }

  lemma {:induction false} RenameAsks(a: Ask, i: Wire)
    ensures ReadRename(i) == Asked(a) <==> VerbCut(RenameVerb, a, i)
  {
    MailboxesAsk();
    GoodMailboxesRead();
    PairAsks(ReadMailbox, ReadMailbox, GoodMailboxText, Closed, StringCut, StringCut, a, i);
  }

  lemma {:induction false} SetAndMailboxAsks(a: Ask, i: Wire)
    ensures ReadSetAndMailbox(i) == Asked(a)
       <==> Starts(i, SP) && PairCut(SetText, NoCut, StringCut, a, i.tail)
  {
    if Starts(i, SP) {
      SetsRead();
      MailboxesAsk();
      PairAsks(ReadSequenceSet, ReadMailbox, SetText, Spaced, NoCut, StringCut, a, i.tail);
    }
  }

  lemma {:induction false} CopyAsks(a: Ask, i: Wire)
    ensures ReadCopy(i) == Asked(a) <==> VerbCut(CopyVerb, a, i)
  {
    SetAndMailboxAsks(a, i);
  }

  lemma {:induction false} MoveAsks(a: Ask, i: Wire)
    ensures ReadMove(i) == Asked(a) <==> VerbCut(MoveVerb, a, i)
  {
    SetAndMailboxAsks(a, i);
  }

  // ----- SEARCH -----

  lemma {:induction false} CriteriaAsk(a: Ask, i: Wire)
    ensures ReadCriteria(i) == Asked(a) <==> ListCut(SP, KeyWithin(SEARCH_LEVELS), KeyCut(SEARCH_LEVELS), a, i)
  {
    KeysAsk(SEARCH_LEVELS);
    ListAsks(SP, KeyReader(SEARCH_LEVELS), KeyWithin(SEARCH_LEVELS), Closed, KeyCut(SEARCH_LEVELS), a, i);
  }

  lemma {:induction false} CharsetNeverAsks(i: Wire)
    ensures !ReadCharsetArgument(i).Failure?
  {
    if Starts(i, SP) {
      TagNeverFails("CHARSET", 0, i.tail);
      if TagNoCase("CHARSET", i.tail).Ok? {
        var w := TagNoCase("CHARSET", i.tail).rest;
        if Starts(w, SP) {
          QuotedNeverFails(w.tail);
        }
      }
    }
  }

  /** A cut key is not taken for a charset argument either. */
  lemma {:induction false} KeyCutIsNoCharset(d: nat, a: Ask, i: Wire)
    requires KeyCut(d)(a, i)
    ensures TagNoCase("CHARSET", i) == Error
  {
    var g, cut := KeyWithin(d - 1), KeyCut(d - 1);
    assert FormCut(g, cut, a, i);
    if kw, j :| ArgumentAt(kw, i, j) && ArgumentCut(kw, g, cut, a, j) {
      NoSuchArgument(kw, i, j);
    } else {
      NotALetter(i);
    }
  }

  lemma {:induction false} CutIsNoCharset(d: nat, a: Ask, i: Wire)
    requires ListCut(SP, KeyWithin(d), KeyCut(d), a, i)
    ensures ReadCharsetArgument(Byte(SP, i)) == Error
  {
    var xs: seq<SearchKey>, text: nat -> Wire :|
      CutBehind(SP, KeyWithin(d), xs, text) && text(0) == i && KeyCut(d)(a, text(|xs|));
    if xs == [] {
      KeyCutIsNoCharset(d, a, i);
    } else {
      assert KeyWithin(d)(xs[0], text(0), Byte(SP, text(1)));
      KeyIsNoCharset(xs[0], i, Byte(SP, text(1)));
    }
  }

  lemma {:induction false} CharsetGoesFirst(charset: Option<Charset>, d: nat, a: Ask, i: Wire, j: Wire)
    requires CharsetArgumentText(charset, i, Byte(SP, j)) && ListCut(SP, KeyWithin(d), KeyCut(d), a, j)
    ensures Opt(ReadCharsetArgument(i), i) == Ok(Byte(SP, j), charset)
  {
    match charset
    case None => CutIsNoCharset(d, a, j);
    case Some(c) => CharsetArgumentReads(c, i, Byte(SP, j));
  }

  lemma {:induction false} CriteriaFollow(charset: Option<Charset>, a: Ask, i: Wire, j: Wire)
    requires Opt(ReadCharsetArgument(i), i) == Ok(Byte(SP, j), charset) && ReadCriteria(j) == Asked(a)
    ensures ReadSearch(i) == Asked(a)
  {
  }

  lemma {:induction false} SearchStops(charset: Option<Charset>, a: Ask, i: Wire, j: Wire)
    requires CharsetArgumentText(charset, i, Byte(SP, j))
    requires ListCut(SP, KeyWithin(SEARCH_LEVELS), KeyCut(SEARCH_LEVELS), a, j)
    ensures ReadSearch(i) == Asked(a)
  {
    CharsetGoesFirst(charset, SEARCH_LEVELS, a, i, j);
    CriteriaAsk(a, j);
    CriteriaFollow(charset, a, i, j);
  }

  lemma {:induction false} SearchAsked(a: Ask, i: Wire)
    requires ReadSearch(i) == Asked(a)
    ensures CriteriaCut(a, i)
  {
    CharsetNeverAsks(i);
    CharsetArgumentIsText(i);
    var first := Opt(ReadCharsetArgument(i), i);
    assert first.rest == Byte(SP, first.rest.tail);
    CriteriaAsk(a, first.rest.tail);
  }

  lemma {:induction false} CriteriaStop(a: Ask, i: Wire)
    requires CriteriaCut(a, i)
    ensures ReadSearch(i) == Asked(a)
  {
    var charset, j :| CharsetArgumentText(charset, i, Byte(SP, j))
      && ListCut(SP, KeyWithin(SEARCH_LEVELS), KeyCut(SEARCH_LEVELS), a, j);
    SearchStops(charset, a, i, j);
  }

  lemma {:induction false} SearchAsks(v: Verb, a: Ask, i: Wire)
    requires v.SearchVerb?
    ensures ReadSearch(i) == Asked(a) <==> VerbCut(v, a, i)
  {
    if ReadSearch(i) == Asked(a) {
      SearchAsked(a, i);
    }
    if CriteriaCut(a, i) {
      CriteriaStop(a, i);
    }
  }

  // ----- Verbs -----

  lemma {:induction false} ArgumentsAsk(v: Verb, a: Ask, i: Wire)
    requires !v.UidVerb?
    ensures ReadArgumentsOf(v, i) == Asked(a) <==> VerbCut(v, a, i)
  {
    match v
    case BareVerb(_) =>
    case MailboxVerb(_) => MailboxAsks(a, i);
    case LoginVerb => LoginAsks(a, i);
    case RenameVerb => RenameAsks(a, i);
    case ExpungeUidVerb => SetNeverFails(i);
    case CopyVerb => CopyAsks(a, i);
    case SearchVerb => SearchAsks(v, a, i);
    case MoveVerb => MoveAsks(a, i);
  }

  lemma {:induction false} PlainAsks(v: Verb, a: Ask, i: Wire)
    requires !v.UidVerb?
    ensures ReadPlain(v, i) == Asked(a) <==> PlainCut(v, a, i)
  {
    TagNeverFails(Lead(v), 0, i);
    if PlainCut(v, a, i) {
      var w :| WordText(Lead(v), i, w) && VerbCut(v, a, w);
      PlainDecides(v, i, w);
      ArgumentsAsk(v, a, w);
    }
    if ReadPlain(v, i) == Asked(a) {
      TagTakesWord(Lead(v), i);
      var w := TagNoCase(Lead(v), i).rest;
      PlainDecides(v, i, w);
      ArgumentsAsk(v, a, w);
    }
  }

  /** Some body of a verb. */
  function BodyOf(v: Verb): CommandBody
    requires !v.UidVerb?
  {
    match v
    case BareVerb(word) => Bare(word)
    case MailboxVerb(word) => OnMailbox(word, Inbox)
    case LoginVerb => Login(AtomString([]), AtomString([]))
    case RenameVerb => Rename(Inbox, Inbox)
    case ExpungeUidVerb => ExpungeUid([])
    case CopyVerb => Copy([], Inbox, false)
    case SearchVerb => SearchCommand(None, [], false)
    case MoveVerb => Move([], Inbox, false)
  }

  lemma {:induction false} WordOfVerb(v: Verb)
    requires !v.UidVerb?
    ensures VerbFor(BodyOf(v)) == v
    ensures WordOf(BodyOf(v)) == if v in {LoginVerb, CopyVerb, MoveVerb} then Lead(v) + " " else Lead(v)
  {
  }

  /** In front of a cut, a verb is complete with its space. */
  lemma {:induction false} CutHasWord(v: Verb, a: Ask, i: Wire) returns (w: Wire)
    requires !v.UidVerb? && PlainCut(v, a, i)
    ensures WordText(WordOf(BodyOf(v)), i, w)
  {
    w :| WordText(Lead(v), i, w) && VerbCut(v, a, w);
    WordOfVerb(v);
    if v in {LoginVerb, CopyVerb, MoveVerb} {
      SpaceIsWord(w, w.tail);
      WordJoins(Lead(v), " ", i, w, w.tail);
      w := w.tail;
    }
  }

  lemma {:induction false} PlainStops(v: Verb, a: Ask, i: Wire)
    requires !v.UidVerb? && PlainCut(v, a, i)
    ensures ReadCommandBody(i) == Asked(a)
  {
    var w := CutHasWord(v, a, i);
    WordOfVerb(v);
    BodyDecides(BodyOf(v), i, w);
    PlainAsks(v, a, i);
  }

  lemma {:induction false} FormStops(v: Verb, a: Ask, j: Wire)
    requires TakesUid(v) && PlainCut(v, a, j)
    ensures ReadUidForms(j) == Asked(a)
  {
    var w := CutHasWord(v, a, j);
    WordOfVerb(v);
    FormDecides(BodyOf(v), j, w);
    PlainAsks(v, a, j);
  }

  lemma {:induction false} UidHasWord(b: CommandBody, i: Wire, j: Wire, w: Wire)
    requires VerbFor(b).UidVerb? && WordText("UID", i, Byte(SP, j)) && WordText(WordOf(WithoutUid(b)), j, w)
    ensures WordText(WordOf(b), i, w)
  {
    var word := WordOf(WithoutUid(b));
    UidWord(b);
    SpaceIsWord(Byte(SP, j), j);
    WordJoins(" ", word, Byte(SP, j), j, w);
    WordJoins("UID", " " + word, i, Byte(SP, j), w);
  }

  lemma {:induction false} UidStops(v: Verb, a: Ask, i: Wire, j: Wire)
    requires TakesUid(v) && WordText("UID", i, Byte(SP, j)) && PlainCut(v, a, j)
    ensures ReadCommandBody(i) == Asked(a)
  {
    var w := CutHasWord(v, a, j);
    var b := WithUid(BodyOf(v));
    assert WithoutUid(b) == BodyOf(v);
    UidHasWord(b, i, j, w);
    BodyDecides(b, i, w);
    UidDecides(VerbFor(b), i, j);
    FormStops(v, a, j);
  }

  lemma {:induction false} FormsAsked(a: Ask, j: Wire) returns (v: Verb)
    requires ReadUidForms(j) == Asked(a)
    ensures TakesUid(v) && PlainCut(v, a, j)
  {
    v := if ReadPlain(CopyVerb, j) == Asked(a) then CopyVerb
         else if ReadPlain(SearchVerb, j) == Asked(a) then SearchVerb else MoveVerb;
    PlainAsks(v, a, j);
  }

  lemma {:induction false} VerbAsked(v: Verb, a: Ask, i: Wire)
    requires ReadVerb(v, i) == Asked(a)
    ensures BodyCut(a, i)
  {
    if v.UidVerb? {
      TagNeverFails("UID", 0, i);
      TagTakesWord("UID", i);
      var k := TagNoCase("UID", i).rest;
      assert k == Byte(SP, k.tail);
      UidDecides(v, i, k.tail);
      var form := FormsAsked(a, k.tail);
    } else {
      PlainAsks(v, a, i);
    }
  }

  lemma {:induction false} BodyStops(a: Ask, i: Wire)
    requires BodyCut(a, i)
    ensures ReadCommandBody(i) == Asked(a)
  {
    if v: Verb :| PlainCut(v, a, i) {
      PlainStops(v, a, i);
    } else {
      var v: Verb, j :| TakesUid(v) && WordText("UID", i, Byte(SP, j)) && PlainCut(v, a, j);
      UidStops(v, a, i, j);
    }
  }

  lemma {:induction false} BodyAsks(a: Ask, i: Wire)
    ensures ReadCommandBody(i) == Asked(a) <==> BodyCut(a, i)
  {
    if ReadCommandBody(i) == Asked(a) {
      var v := FirstTaken(ReadVerb, Alternatives(), 0, i);
      VerbAsked(v, a, i);
    }
    if BodyCut(a, i) {
      BodyStops(a, i);
    }
  }

  lemma {:induction false} CutStops(tag: bytes, a: Ask, i: Wire)
    requires CommandCut(tag, a, i)
    ensures ReadTag(i).Ok? && ReadTag(i).value == tag && ReadCommand(i) == Asked(a)
  {
    var j :| i == Feed(tag, Byte(SP, j)) && BodyCut(a, j);
    TagReadsBack(tag, j);
    BodyAsks(a, j);
  }

  lemma {:induction false} CommandAsked(tag: bytes, a: Ask, i: Wire)
    requires ReadCommand(i) == Asked(a) && ReadTag(i).Ok? && ReadTag(i).value == tag
    ensures CommandCut(tag, a, i)
  {
    TagIsTaken(i);
    var k := ReadTag(i).rest;
    assert k == Byte(SP, k.tail);
    BodyAsks(a, k.tail);
  }

  /** The command reader asks for literal data, with the tag of the command, exactly where a
      command is cut behind an announcement. */
  lemma {:induction false} CommandRequested(tag: bytes, a: Ask, i: Wire)
    ensures ReadCommand(i) == Asked(a) && ReadTag(i).Ok? && ReadTag(i).value == tag <==> CommandCut(tag, a, i)
  {
    if CommandCut(tag, a, i) {
      CutStops(tag, a, i);
    }
    if ReadCommand(i) == Asked(a) && ReadTag(i).Ok? && ReadTag(i).value == tag {
      CommandAsked(tag, a, i);
    }
  }
}
