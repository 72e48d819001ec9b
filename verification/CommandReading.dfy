/** The language of commands: the reader takes exactly their texts, and every text is read as the
    command it is a text of. */
module CommandReading {
  import opened Octets
  import opened Nom
  import opened Strings
  import opened SequenceSets
  import opened SequenceCodec
  import opened Search
  import opened Commands
  import opened SearchCommands

  // ----- Which alternative a word belongs to -----

  /** The alternative that reads a body; the forms with unique identifiers share one. */
  function VerbFor(b: CommandBody): Verb {
    match b
    case Bare(word) => BareVerb(word)
    case Login(_, _) => LoginVerb
    case OnMailbox(word, _) => MailboxVerb(word)
    case Rename(_, _) => RenameVerb
    case ExpungeUid(_) => ExpungeUidVerb
    case SearchCommand(_, _, uid) => if uid then UidVerb else SearchVerb
    case Copy(_, _, uid) => if uid then UidVerb else CopyVerb
    case Move(_, _, uid) => if uid then UidVerb else MoveVerb
  }

  /** The two alternatives that begin with UID count as one. */
  function Group(v: Verb): Verb {
    if v.ExpungeUidVerb? then UidVerb else v
  }

  /** The alternative of a word, from its first four letters. */
  function Told(a: char, b: char, c: char, d: char): Option<Verb> {
    match a
    case 'C' =>
      if b == 'A' then Some(BareVerb(CAPABILITY))
      else if b == 'R' then Some(MailboxVerb(CREATE))
      else if b == 'H' then Some(BareVerb(CHECK))
      else if b == 'L' then Some(BareVerb(CLOSE))
      else if c == 'P' then Some(CopyVerb)
      else None
    case 'D' => Some(MailboxVerb(DELETE))
    case 'E' =>
      if b != 'X' then None
      else if c == 'A' then Some(MailboxVerb(EXAMINE))
      else Some(BareVerb(EXPUNGE))
    case 'G' => Some(MailboxVerb(GETQUOTAROOT))
    case 'I' => Some(BareVerb(IDLE))
    case 'L' =>
      if b != 'O' then None
      else if d == 'O' then Some(BareVerb(LOGOUT))
      else Some(LoginVerb)
    case 'M' => Some(MoveVerb)
    case 'N' => Some(BareVerb(NOOP))
    case 'R' => Some(RenameVerb)
    case 'S' =>
      if b == 'U' then Some(MailboxVerb(SUBSCRIBE))
      else if b != 'E' then None
      else if c == 'L' then Some(MailboxVerb(SELECT))
      else if c == 'A' then Some(SearchVerb)
      else None
    case 'U' =>
      if b == 'I' then Some(UidVerb)
      else if d == 'U' then Some(MailboxVerb(UNSUBSCRIBE))
      else Some(BareVerb(UNSELECT))
    case _ => None
  }

  function ToldBy(t: string): Option<Verb>
    requires |t| >= 3
  {
    Told(t[0], t[1], t[2], if |t| > 3 then t[3] else ' ')
  }

  /** Capital letters and spaces only. */
  ghost predicate Capital(t: string) {
    forall k | 0 <= k < |t| :: 'A' <= t[k] <= 'Z' || t[k] == ' '
  }

  lemma CapitalsDiffer(a: char, b: char)
    requires ('A' <= a <= 'Z' || a == ' ') && ('A' <= b <= 'Z' || b == ' ')
    ensures LowerCase(Octet(a)) == LowerCase(Octet(b)) <==> a == b
  {
  }

  /** Words of different alternatives differ in their first four letters. */
  lemma {:induction false} WordsClash(x: string, y: string)
    requires |x| >= 3 && |y| > 3 && Capital(x) && Capital(y)
    requires |x| > 3 || x[1] == 'I'
    requires ToldBy(x) != ToldBy(y)
    ensures Clash(x, y)
  {
    CapitalsDiffer(x[0], y[0]);
    CapitalsDiffer(x[1], y[1]);
    CapitalsDiffer(x[2], y[2]);
    if |x| > 3 {
      CapitalsDiffer(x[3], y[3]);
    }
  }

  /** A word that tells its alternative. */
  ghost predicate Telling(t: string, v: Option<Verb>) {
    |t| >= 3 && (|t| > 3 || t[1] == 'I') && Capital(t) && ToldBy(t) == v
  }

  lemma {:induction false} BareIsTelling(word: BareWord)
    ensures Telling(BareName(word), Some(BareVerb(word))) && |BareName(word)| > 3
  {
  }

  lemma {:induction false} MailboxIsTelling(word: MailboxWord)
    ensures Telling(MailboxName(word), Some(MailboxVerb(word))) && |MailboxName(word)| > 3
  {
  }

  lemma {:induction false} LeadIsTelling(v: Verb)
    ensures Telling(Lead(v), Some(Group(v)))
  {
    match v
    case BareVerb(word) => BareIsTelling(word);
    case MailboxVerb(word) => MailboxIsTelling(word);
    case _ =>
  }

  lemma {:induction false} WordIsTelling(b: CommandBody)
    ensures Telling(WordOf(b), Some(Group(VerbFor(b)))) && |WordOf(b)| > 3
  {
    match b
    case Bare(word) => BareIsTelling(word);
    case OnMailbox(word, _) => MailboxIsTelling(word);
    case _ =>
  }

  lemma {:induction false} TellingRejects(t: string, told: Option<Verb>, b: CommandBody, i: Wire, w: Wire)
    requires WordText(WordOf(b), i, w)
    requires Telling(t, told) && told != Some(Group(VerbFor(b)))
    ensures TagNoCase(t, i) == Error
  {
    WordIsTelling(b);
    WordsClash(t, WordOf(b));
    WordRejects(t, WordOf(b), i, w);
  }

  // ----- Behind UID -----

  /** The form of a body that stands behind UID and a space. */
  function WithoutUid(b: CommandBody): CommandBody {
    match b
    case Copy(set_, mailbox, _) => Copy(set_, mailbox, false)
    case SearchCommand(charset, criteria, _) => SearchCommand(charset, criteria, false)
    case Move(set_, mailbox, _) => Move(set_, mailbox, false)
    case _ => b
  }

  lemma {:induction false} BehindUid(t: string, i: Wire, w: Wire) returns (j: Wire)
    requires WordText("UID" + (" " + t), i, w)
    ensures WordText("UID", i, Byte(SP, j)) && WordText(t, j, w)
  {
    var k := WordSplits("UID", " " + t, i, w);
    j := WordSplits(" ", t, k, w);
    SpaceIsWord(k, j);
  }

  lemma {:induction false} UidWord(b: CommandBody)
    requires VerbFor(b).UidVerb?
    ensures WordOf(b) == "UID" + (" " + WordOf(WithoutUid(b)))
  {
  }

  /** The forms behind UID are not taken for each other, nor is EXPUNGE taken for one of them. */
  lemma {:induction false} NotBehindUid(v: Verb, b: CommandBody, j: Wire, w: Wire)
    requires v in {CopyVerb, SearchVerb, MoveVerb}
    requires Group(VerbFor(b)) != v && WordText(WordOf(b), j, w)
    ensures ReadPlain(v, j) == Error
  {
    LeadIsTelling(v);
    TellingRejects(Lead(v), Some(v), b, j, w);
  }

  lemma {:induction false} ExpungeIsNoForm(j: Wire, k: Wire)
    requires WordText(WordOf(Bare(EXPUNGE)), j, k)
    ensures ReadUidForms(j) == Error
  {
    NotBehindUid(CopyVerb, Bare(EXPUNGE), j, k);
    NotBehindUid(SearchVerb, Bare(EXPUNGE), j, k);
    NotBehindUid(MoveVerb, Bare(EXPUNGE), j, k);
  }

  lemma {:induction false} UidDecides(v: Verb, i: Wire, j: Wire)
    requires v.UidVerb? && WordText("UID", i, Byte(SP, j))
    ensures ReadVerb(v, i) == ReadUidForms(j)
  {
    TagIsWord("UID", i, Byte(SP, j));
  }

  lemma {:induction false} ExpungeSplits(t: string, i: Wire, w: Wire) returns (j: Wire, k: Wire)
    requires WordText("UID" + (" " + (t + " ")), i, w)
    ensures WordText("UID", i, Byte(SP, j)) && WordText(t, j, k)
  {
    j := BehindUid(t + " ", i, w);
    k := WordSplits(t, " ", j, w);
  }

  lemma {:induction false} ExpungeWord(set_: seq<Sequence>)
    ensures WordOf(ExpungeUid(set_)) == "UID" + (" " + (WordOf(Bare(EXPUNGE)) + " "))
  {
  }

  lemma {:induction false} ExpungeIsNoUid(v: Verb, set_: seq<Sequence>, i: Wire, w: Wire)
    requires v.UidVerb? && WordText(WordOf(ExpungeUid(set_)), i, w)
    ensures ReadVerb(v, i) == Error
  {
    ExpungeWord(set_);
    var j, k := ExpungeSplits(WordOf(Bare(EXPUNGE)), i, w);
    UidDecides(v, i, j);
    ExpungeIsNoForm(j, k);
  }

  lemma {:induction false} UidIsNoExpunge(b: CommandBody, i: Wire, w: Wire)
    requires VerbFor(b).UidVerb? && WordText(WordOf(b), i, w)
    ensures TagNoCase("UID EXPUNGE ", i) == Error
  {
    var x, y := "UID EXPUNGE ", WordOf(b);
    assert x[4] == 'E' && y[4] in {'C', 'S', 'M'};
    assert LowerCase(Octet(x[4])) != LowerCase(Octet(y[4]));
    WordRejects(x, y, i, w);
  }

  // ----- The alternatives -----

  /** A command's word is rejected by every alternative but the command's own. */
  lemma {:induction false} OtherVerbRejects(v: Verb, b: CommandBody, i: Wire, w: Wire)
    requires v != VerbFor(b) && WordText(WordOf(b), i, w)
    ensures ReadVerb(v, i) == Error
  {
    if Group(v) != Group(VerbFor(b)) {
      LeadIsTelling(v);
      TellingRejects(Lead(v), Some(Group(v)), b, i, w);
    } else if b.ExpungeUid? {
      ExpungeIsNoUid(v, b.set_, i, w);
    } else {
      UidIsNoExpunge(b, i, w);
    }
  }

  function PositionOf(v: Verb): nat {
    match v
    case BareVerb(word) =>
      (match word
       case CAPABILITY => 0
       case LOGOUT => 1
       case NOOP => 2
       case IDLE => 10
       case CHECK => 13
       case CLOSE => 14
       case EXPUNGE => 15
       case UNSELECT => 20)
    case MailboxVerb(word) =>
      (match word
       case CREATE => 3
       case DELETE => 4
       case EXAMINE => 5
       case SELECT => 7
       case SUBSCRIBE => 8
       case UNSUBSCRIBE => 9
       case GETQUOTAROOT => 11)
    case RenameVerb => 6
    case LoginVerb => 12
    case ExpungeUidVerb => 16
    case CopyVerb => 17
    case UidVerb => 18
    case SearchVerb => 19
    case MoveVerb => 21
  }

  lemma {:induction false} VerbStands(v: Verb, n: nat)
    requires n < VERBS
    ensures PositionOf(v) < VERBS
    ensures VerbAt(n) == v <==> n == PositionOf(v)
  {
  }

  lemma {:induction false} BodyDecides(b: CommandBody, i: Wire, w: Wire)
    requires WordText(WordOf(b), i, w)
    ensures ReadCommandBody(i) == ReadVerb(VerbFor(b), i)
  {
    var v, verbs := VerbFor(b), Alternatives();
    VerbStands(v, 0);
    forall m | 0 <= m < |verbs|
      ensures verbs[m] == v <==> m == PositionOf(v)
      ensures m != PositionOf(v) ==> ReadVerb(verbs[m], i) == Error
    {
      VerbStands(v, m);
      if m != PositionOf(v) {
        OtherVerbRejects(verbs[m], b, i, w);
      }
    }
    OneOfReads(ReadVerb, verbs, 0, PositionOf(v), i);
  }

  /** The words of the commands that are not part of the model. */
  function OtherWord(n: nat): string
    requires n < 13
  {
    match n
    case 0 => "APPEND "
    case 1 => "LIST "
    case 2 => "LSUB "
    case 3 => "STATUS "
    case 4 => "ENABLE"
    case 5 => "COMPRESS "
    case 6 => "GETQUOTA "
    case 7 => "SETQUOTA "
    case 8 => "AUTHENTICATE "
    case 9 => "FETCH"
    case 10 => "STORE"
    case 11 => "SORT "
    case _ => "THREAD "
  }

  lemma {:induction false} OtherIsTelling(n: nat)
    requires n < 13 && n != 6
    ensures Telling(OtherWord(n), None)
  {
  }

  lemma {:induction false} QuotaRootIsNoQuota(b: CommandBody, i: Wire, w: Wire)
    requires VerbFor(b) == MailboxVerb(GETQUOTAROOT) && WordText(WordOf(b), i, w)
    ensures TagNoCase(OtherWord(6), i) == Error
  {
    var x, y := OtherWord(6), WordOf(b);
    assert x[8] == ' ' && y[8] == 'R';
    assert LowerCase(Octet(x[8])) != LowerCase(Octet(y[8]));
    WordRejects(x, y, i, w);
  }

  /** The alternatives that are not part of the model leave the text of every command of the
      model to the others. */
  lemma {:induction false} OthersReject(n: nat, b: CommandBody, i: Wire, w: Wire)
    requires n < 13 && WordText(WordOf(b), i, w)
    ensures TagNoCase(OtherWord(n), i) == Error
  {
    if n != 6 {
      OtherIsTelling(n);
      TellingRejects(OtherWord(n), None, b, i, w);
    } else if VerbFor(b) == MailboxVerb(GETQUOTAROOT) {
      QuotaRootIsNoQuota(b, i, w);
    } else {
      QuotaIsTelling();
      TellingRejects(OtherWord(n), Some(MailboxVerb(GETQUOTAROOT)), b, i, w);
    }
  }

  lemma {:induction false} QuotaIsTelling()
    ensures Telling(OtherWord(6), Some(MailboxVerb(GETQUOTAROOT)))
  {
  }

  // ----- Arguments -----

  lemma {:induction false} InboxIsSpelled(text: bytes)
    ensures IsInbox(text) <==> Spells(text, "INBOX")
  {
    forall k | 0 <= k < 5 && k < |text|
      ensures SameLetter(text[k], Octet("INBOX"[k])) <==> LowerCase(text[k]) == LowerCase(Octet("INBOX"[k]))
    {
      SameLetterIgnoresCase(text[k], Octet("INBOX"[k]));
    }
  }

  /** A text of a mailbox is the text of a string that stands for the mailbox. */
  lemma {:induction false} MailboxIsString(m: Mailbox, i: Wire, rest: Wire) returns (s: AString)
    requires MailboxText(m, i, rest)
    ensures AStringText(s, i, rest) && MailboxFrom(s) == m && FitsAString(s) == FitsMailbox(m)
  {
    if m.Inbox? {
      s :| AStringText(s, i, rest) && Spells(TextOf(s), "INBOX");
    } else {
      s := m.name;
    }
    InboxIsSpelled(TextOf(s));
  }

  lemma {:induction false} MailboxReads(m: Mailbox, i: Wire, rest: Wire)
    requires MailboxText(m, i, rest) && Delimited(rest)
    ensures ReadMailbox(i) == if FitsMailbox(m) then Ok(rest, m) else Error
  {
    var s := MailboxIsString(m, i, rest);
    AStringReads(s, i, rest);
  }

  lemma {:induction false} MailboxIsText(i: Wire)
    ensures var r := ReadMailbox(i);
            r.Ok? ==> MailboxText(r.value, i, r.rest) && ValidMailbox(r.value) && FitsMailbox(r.value)
  {
    if ReadAString(i).Ok? {
      AStringIsText(i);
      AStringIsGood(i);
      InboxIsSpelled(TextOf(ReadAString(i).value));
    }
  }

  /** The nesting of the criteria is within the limit, if there are any. */
  predicate ShallowBody(b: CommandBody) {
    b.SearchCommand? ==> Shallow(b.criteria)
  }

  /** The outcome on a text of a body: the body, or what is wrong with it. */
  ghost predicate ReadsBody(b: CommandBody, r: Outcome<CommandBody>, rest: Wire) {
    if FitsBody(b) then r == Limited(ShallowBody(b), rest, b)
    else r.Error? || r.Failure? || (r.Ok? && Starts(r.rest, SP))
  }

  /** Nothing that could continue a body. */
  ghost predicate EndsBody(rest: Wire) {
    Delimited(rest) && rest.head != SP
  }

  lemma {:induction false} LoginReads(username: AString, password: AString, i: Wire, rest: Wire)
    requires PairText(AStringText, AStringText, username, password, i, rest) && Delimited(rest)
    ensures ReadsBody(Login(username, password), ReadLogin(Byte(SP, i)), rest)
  {
    var j := PairPlaces(AStringText, AStringText, username, password, i, rest);
    AStringReads(username, i, Byte(SP, j));
    AStringReads(password, j, rest);
  }

  lemma {:induction false} RenameReads(from: Mailbox, upto: Mailbox, i: Wire, rest: Wire)
    requires PairText(MailboxText, MailboxText, from, upto, i, rest) && Delimited(rest)
    ensures ReadsBody(Rename(from, upto), ReadRename(i), rest)
  {
    var j := PairPlaces(MailboxText, MailboxText, from, upto, i, rest);
    MailboxReads(from, i, Byte(SP, j));
    MailboxReads(upto, j, rest);
    RenameFollows(from, upto, i, j, rest);
  }

  lemma {:induction false} RenameFollows(from: Mailbox, upto: Mailbox, i: Wire, j: Wire, rest: Wire)
    requires ReadMailbox(i) == if FitsMailbox(from) then Ok(Byte(SP, j), from) else Error
    requires ReadMailbox(j) == if FitsMailbox(upto) then Ok(rest, upto) else Error
    ensures ReadsBody(Rename(from, upto), ReadRename(i), rest)
  {
  }

  lemma {:induction false} SetAndMailboxReads(set_: seq<Sequence>, m: Mailbox, i: Wire, rest: Wire)
    requires PairText(SetText, MailboxText, set_, m, i, rest) && Delimited(rest)
    ensures PairIsRead(set_, m, Byte(SP, i), rest)
  {
    var j := PairPlaces(SetText, MailboxText, set_, m, i, rest);
    SetReads(set_, i, Byte(SP, j));
    MailboxReads(m, j, rest);
  }

  // ----- Every text is read -----

  lemma {:induction false} PlainDecides(v: Verb, i: Wire, j: Wire)
    requires !v.UidVerb? && WordText(Lead(v), i, j)
    ensures ReadPlain(v, i) == ReadArgumentsOf(v, j)
  {
    TagIsWord(Lead(v), i, j);
  }

  /** A verb and the space that separates it from its arguments. */
  lemma {:induction false} SpacedVerb(v: Verb, i: Wire, w: Wire)
    requires !v.UidVerb? && WordText(Lead(v) + " ", i, w)
    ensures ReadPlain(v, i) == ReadArgumentsOf(v, Byte(SP, w))
  {
    var j := WordSplits(Lead(v), " ", i, w);
    SpaceIsWord(j, w);
    PlainDecides(v, i, j);
  }

  /** What a body's own alternative, or the word by itself, leaves to read. */
  function BehindWord(b: CommandBody, w: Wire): Wire {
    if b.Login? || b.Copy? || b.Move? then Byte(SP, w) else w
  }

  lemma {:induction false} WordDecides(b: CommandBody, i: Wire, w: Wire)
    requires !VerbFor(b).UidVerb? && WordText(WordOf(b), i, w)
    ensures ReadPlain(VerbFor(b), i) == ReadArgumentsOf(VerbFor(b), BehindWord(b, w))
  {
    if b.Login? || b.Copy? || b.Move? {
      SpacedVerb(VerbFor(b), i, w);
    } else {
      PlainDecides(VerbFor(b), i, w);
    }
  }

  /** The arguments are read behind the body's word. */
  ghost predicate ArgumentsAreRead(b: CommandBody, w: Wire, rest: Wire)
    requires !VerbFor(b).UidVerb?
  {
    ReadsBody(b, ReadArgumentsOf(VerbFor(b), BehindWord(b, w)), rest)
  }

  lemma {:induction false} OnMailboxReads(b: CommandBody, w: Wire, rest: Wire)
    requires b.OnMailbox? && ArgumentsText(b, w, rest) && EndsBody(rest)
    ensures ArgumentsAreRead(b, w, rest)
  {
    MailboxReads(b.mailbox, w, rest);
  }

  /** A set and a mailbox were read, or the name of the mailbox is too long. */
  ghost predicate PairIsRead(set_: seq<Sequence>, m: Mailbox, i: Wire, rest: Wire) {
    ReadSetAndMailbox(i) == if FitsMailbox(m) then Ok(rest, (set_, m)) else Error
  }

  lemma {:induction false} CopyFollows(b: CommandBody, i: Wire, rest: Wire)
    requires b.Copy? && !b.uid && PairIsRead(b.set_, b.mailbox, i, rest)
    ensures ReadsBody(b, ReadCopy(i), rest)
  {
  }

  lemma {:induction false} MoveFollows(b: CommandBody, i: Wire, rest: Wire)
    requires b.Move? && !b.uid && PairIsRead(b.set_, b.mailbox, i, rest)
    ensures ReadsBody(b, ReadMove(i), rest)
  {
  }

  lemma {:induction false} SetArguments(b: CommandBody, w: Wire, rest: Wire)
    requires (b.Copy? || b.Move?) && ArgumentsText(b, w, rest) && Delimited(rest)
    ensures PairIsRead(b.set_, b.mailbox, Byte(SP, w), rest)
  {
    SetAndMailboxReads(b.set_, b.mailbox, w, rest);
  }

  lemma {:induction false} CopyReads(b: CommandBody, w: Wire, rest: Wire)
    requires b.Copy? && !b.uid && ArgumentsText(b, w, rest) && EndsBody(rest)
    ensures ArgumentsAreRead(b, w, rest)
  {
    SetArguments(b, w, rest);
    CopyFollows(b, Byte(SP, w), rest);
  }

  lemma {:induction false} MoveIsNext(v: Verb, i: Wire)
    requires v.MoveVerb?
    ensures ReadArgumentsOf(v, i) == ReadMove(i)
  {
  }

  lemma {:induction false} MoveReads(b: CommandBody, w: Wire, rest: Wire)
    requires b.Move? && !b.uid && ArgumentsText(b, w, rest) && EndsBody(rest)
    ensures ArgumentsAreRead(b, w, rest)
  {
    SetArguments(b, w, rest);
    MoveFollows(b, Byte(SP, w), rest);
    MoveIsNext(VerbFor(b), Byte(SP, w));
  }

  lemma {:induction false} ExpungeReads(b: CommandBody, w: Wire, rest: Wire)
    requires b.ExpungeUid? && ArgumentsText(b, w, rest) && EndsBody(rest)
    ensures ArgumentsAreRead(b, w, rest)
  {
    SetReads(b.set_, w, rest);
  }

  lemma {:induction false} CriteriaReads(b: CommandBody, w: Wire, rest: Wire)
    requires b.SearchCommand? && !b.uid && ArgumentsText(b, w, rest) && EndsBody(rest)
    ensures ArgumentsAreRead(b, w, rest)
  {
    SearchReads(b.charset, b.criteria, w, rest);
    SearchIsNext(b, w);
  }

  lemma {:induction false} SearchIsNext(b: CommandBody, w: Wire)
    requires b.SearchCommand? && !b.uid
    ensures ReadArgumentsOf(VerbFor(b), BehindWord(b, w)) == ReadSearch(w)
  {
  }

  lemma {:induction false} LoginBodyReads(b: CommandBody, w: Wire, rest: Wire)
    requires b.Login? && ArgumentsText(b, w, rest) && EndsBody(rest)
    ensures ArgumentsAreRead(b, w, rest)
  {
    LoginReads(b.username, b.password, w, rest);
  }

  lemma {:induction false} RenameBodyReads(b: CommandBody, w: Wire, rest: Wire)
    requires b.Rename? && ArgumentsText(b, w, rest) && EndsBody(rest)
    ensures ArgumentsAreRead(b, w, rest)
  {
    RenameReads(b.from, b.upto, w, rest);
  }

  lemma {:induction false} BareReads(b: CommandBody, w: Wire, rest: Wire)
    requires b.Bare? && ArgumentsText(b, w, rest)
    ensures ArgumentsAreRead(b, w, rest)
  {
  }

  lemma {:induction false} ArgumentsRead(b: CommandBody, w: Wire, rest: Wire)
    requires !VerbFor(b).UidVerb?
    requires ArgumentsText(b, w, rest) && EndsBody(rest)
    ensures ArgumentsAreRead(b, w, rest)
  {
    match b
    case Bare(_) => BareReads(b, w, rest);
    case Login(_, _) => LoginBodyReads(b, w, rest);
    case OnMailbox(_, _) => OnMailboxReads(b, w, rest);
    case Rename(_, _) => RenameBodyReads(b, w, rest);
    case ExpungeUid(_) => ExpungeReads(b, w, rest);
    case SearchCommand(_, _, _) => CriteriaReads(b, w, rest);
    case Copy(_, _, _) => CopyReads(b, w, rest);
    case Move(_, _, _) => MoveReads(b, w, rest);
  }

  /** A body without unique identifiers, by the alternative of its word. */
  lemma {:induction false} PlainReads(b: CommandBody, i: Wire, w: Wire, rest: Wire)
    requires !VerbFor(b).UidVerb? && WordText(WordOf(b), i, w)
    requires ArgumentsText(b, w, rest) && EndsBody(rest)
    ensures ReadsBody(b, ReadPlain(VerbFor(b), i), rest)
  {
    WordDecides(b, i, w);
    ArgumentsRead(b, w, rest);
  }

  /** Behind UID, the form that the word belongs to decides. */
  lemma {:induction false} FormDecides(b: CommandBody, j: Wire, w: Wire)
    requires VerbFor(b) in {CopyVerb, SearchVerb, MoveVerb} && WordText(WordOf(b), j, w)
    ensures ReadUidForms(j) == ReadPlain(VerbFor(b), j).Map(WithUid)
  {
    if !b.Copy? {
      NotBehindUid(CopyVerb, b, j, w);
    }
    if !b.SearchCommand? {
      NotBehindUid(SearchVerb, b, j, w);
    }
    if !b.Move? {
      NotBehindUid(MoveVerb, b, j, w);
    }
  }

  lemma {:induction false} WithUidReads(b: CommandBody, r: Outcome<CommandBody>, rest: Wire)
    requires VerbFor(b).UidVerb? && ReadsBody(WithoutUid(b), r, rest)
    ensures ReadsBody(b, r.Map(WithUid), rest)
  {
    assert WithUid(WithoutUid(b)) == b;
  }

  lemma {:induction false} SameArguments(b: CommandBody, w: Wire, rest: Wire)
    requires VerbFor(b).UidVerb?
    ensures ArgumentsText(WithoutUid(b), w, rest) == ArgumentsText(b, w, rest)
    ensures VerbFor(WithoutUid(b)) in {CopyVerb, SearchVerb, MoveVerb}
  {
  }

  lemma {:induction false} UidReads(b: CommandBody, i: Wire, w: Wire, rest: Wire)
    requires VerbFor(b).UidVerb? && WordText(WordOf(b), i, w)
    requires ArgumentsText(b, w, rest) && EndsBody(rest)
    ensures ReadsBody(b, ReadVerb(VerbFor(b), i), rest)
  {
    var plain := WithoutUid(b);
    SameArguments(b, w, rest);
    UidWord(b);
    var j := BehindUid(WordOf(plain), i, w);
    UidDecides(VerbFor(b), i, j);
    PlainReads(plain, j, w, rest);
    FormDecides(plain, j, w);
    WithUidReads(b, ReadPlain(VerbFor(plain), j), rest);
  }

  /** Every text of a body is read as that body, unless its criteria are nested too deeply or a
      literal in it is too long. */
  lemma {:induction false} BodyReads(b: CommandBody, i: Wire, rest: Wire)
    requires CommandBodyText(b, i, rest) && EndsBody(rest)
    ensures ReadsBody(b, ReadCommandBody(i), rest)
  {
    var w :| WordText(WordOf(b), i, w) && ArgumentsText(b, w, rest);
    BodyDecides(b, i, w);
    if VerbFor(b).UidVerb? {
      UidReads(b, i, w, rest);
    } else {
      PlainReads(b, i, w, rest);
    }
  }

  lemma {:induction false} TagReadsBack(tag: bytes, rest: Wire)
    requires ValidTag(tag)
    ensures ReadTag(Feed(tag, Byte(SP, rest))) == Ok(Byte(SP, rest), tag)
  {
    TakeWhile1Reads(IsTagChar, tag, Byte(SP, rest));
  }

  /** Every text of a command is read as that command; one whose criteria are only nested too
      deeply is refused with the recursion limit, and one with a literal too long is not read. */
  lemma {:induction false} CommandReads(c: Command, i: Wire, rest: Wire)
    requires CommandText(c, i, rest)
    ensures FitsBody(c.body) ==> ReadCommand(i) == Limited(ShallowBody(c.body), rest, c)
    ensures !FitsBody(c.body) ==> !ReadCommand(i).Ok?
  {
    var end := Byte(CR, Byte(LF, rest));
    var j :| i == Feed(c.tag, Byte(SP, j)) && CommandBodyText(c.body, j, end);
    TagReadsBack(c.tag, j);
    BodyReads(c.body, j, end);
  }

  // ----- Only texts are read -----

  /** A body that the types of the library admit and that is within the limits of the grammar. */
  predicate Legal(b: CommandBody) {
    ValidBody(b) && FitsBody(b) && ShallowBody(b)
  }

  lemma {:induction false} CredentialsAreText(i: Wire)
    ensures var r := Pair(ReadAString, ReadAString, i);
            r.Ok? ==> && GoodAString(r.value.0) && GoodAString(r.value.1)
                      && PairText(AStringText, AStringText, r.value.0, r.value.1, i, r.rest)
  {
    if Pair(ReadAString, ReadAString, i).Ok? {
      var k := ReadAString(i).rest;
      assert k == Byte(SP, k.tail);
      AStringIsText(i);
      AStringIsGood(i);
      AStringIsText(k.tail);
      AStringIsGood(k.tail);
    }
  }

  lemma {:induction false} RenameIsText(i: Wire)
    ensures var r := ReadRename(i); r.Ok? ==> r.value.Rename? && Legal(r.value) && ArgumentsText(r.value, i, r.rest)
  {
    if ReadRename(i).Ok? {
      var k := ReadMailbox(i).rest;
      assert k == Byte(SP, k.tail);
      MailboxIsText(i);
      MailboxIsText(k.tail);
    }
  }

  lemma {:induction false} SetAndMailboxIsText(i: Wire) returns (w: Wire)
    ensures var r := ReadSetAndMailbox(i);
            r.Ok? ==> && r.value.0 != [] && ValidMailbox(r.value.1) && FitsMailbox(r.value.1)
                      && i == Byte(SP, w) && PairText(SetText, MailboxText, r.value.0, r.value.1, w, r.rest)
  {
    w := i;
    if ReadSetAndMailbox(i).Ok? {
      w := i.tail;
      var k := ReadSequenceSet(w).rest;
      assert k == Byte(SP, k.tail);
      SetIsText(w);
      MailboxIsText(k.tail);
    }
  }

  /** What a verb's arguments are read as is a body of that verb, at the place behind its word. */
  ghost predicate Taken(v: Verb, r: Outcome<CommandBody>, i: Wire, w: Wire) {
    r.Ok? ==> VerbFor(r.value) == v && Legal(r.value) && i == BehindWord(r.value, w) && ArgumentsText(r.value, w, r.rest)
  }

  lemma {:induction false} LoginTaken(username: AString, password: AString, w: Wire, rest: Wire)
    requires GoodAString(username) && GoodAString(password)
    requires PairText(AStringText, AStringText, username, password, w, rest)
    ensures Taken(LoginVerb, Ok(rest, Login(username, password)), Byte(SP, w), w)
  {
  }

  lemma {:induction false} LoginIsTaken(i: Wire) returns (w: Wire)
    ensures Taken(LoginVerb, ReadLogin(i), i, w)
  {
    w := i;
    if ReadLogin(i).Ok? {
      w := i.tail;
      CredentialsAreText(w);
      var r := Pair(ReadAString, ReadAString, w);
      LoginTaken(r.value.0, r.value.1, w, r.rest);
    }
  }

  lemma {:induction false} CopyTaken(set_: seq<Sequence>, m: Mailbox, w: Wire, rest: Wire)
    requires set_ != [] && ValidMailbox(m) && FitsMailbox(m) && PairText(SetText, MailboxText, set_, m, w, rest)
    ensures Taken(CopyVerb, Ok(rest, Copy(set_, m, false)), Byte(SP, w), w)
  {
  }

  lemma {:induction false} CopyIsTaken(i: Wire) returns (w: Wire)
    ensures Taken(CopyVerb, ReadCopy(i), i, w)
  {
    w := SetAndMailboxIsText(i);
    if ReadCopy(i).Ok? {
      var r := ReadSetAndMailbox(i);
      CopyTaken(r.value.0, r.value.1, w, r.rest);
    }
  }

  lemma {:induction false} MoveTaken(set_: seq<Sequence>, m: Mailbox, w: Wire, rest: Wire)
    requires set_ != [] && ValidMailbox(m) && FitsMailbox(m) && PairText(SetText, MailboxText, set_, m, w, rest)
    ensures Taken(MoveVerb, Ok(rest, Move(set_, m, false)), Byte(SP, w), w)
  {
  }

  lemma {:induction false} MoveIsTaken(i: Wire) returns (w: Wire)
    ensures Taken(MoveVerb, ReadMove(i), i, w)
  {
    w := SetAndMailboxIsText(i);
    if ReadMove(i).Ok? {
      var r := ReadSetAndMailbox(i);
      MoveTaken(r.value.0, r.value.1, w, r.rest);
    }
  }

  lemma {:induction false} SearchIsTaken(i: Wire)
    ensures Taken(SearchVerb, ReadSearch(i), i, i)
  {
    SearchIsText(i);
  }

  lemma {:induction false} RenameIsTaken(i: Wire)
    ensures Taken(RenameVerb, ReadRename(i), i, i)
  {
    RenameIsText(i);
  }

  lemma {:induction false} MailboxIsTaken(word: MailboxWord, i: Wire)
    ensures Taken(MailboxVerb(word), ReadArgumentsOf(MailboxVerb(word), i), i, i)
  {
    MailboxIsText(i);
  }

  lemma {:induction false} SetIsTaken(i: Wire)
    ensures Taken(ExpungeUidVerb, ReadArgumentsOf(ExpungeUidVerb, i), i, i)
  {
    SetIsText(i);
  }

  lemma {:induction false} ArgumentsAreTaken(v: Verb, i: Wire) returns (w: Wire)
    requires !v.UidVerb?
    ensures Taken(v, ReadArgumentsOf(v, i), i, w)
  {
    w := i;
    match v
    case BareVerb(_) =>
    case MailboxVerb(word) => MailboxIsTaken(word, i);
    case LoginVerb => w := LoginIsTaken(i);
    case RenameVerb => RenameIsTaken(i);
    case ExpungeUidVerb => SetIsTaken(i);
    case CopyVerb => w := CopyIsTaken(i);
    case SearchVerb => SearchIsTaken(i);
    case MoveVerb => w := MoveIsTaken(i);
  }

  /** What was read, if anything, is a legal body of which a text begins at `i`. */
  ghost predicate GivesCommand(r: Outcome<CommandBody>, i: Wire) {
    r.Ok? ==> Legal(r.value) && CommandBodyText(r.value, i, r.rest)
  }

  /** Behind the verb and the space that belongs to a word, the word is complete. */
  lemma {:induction false} WordCompleted(b: CommandBody, i: Wire, w: Wire)
    requires !VerbFor(b).UidVerb? && WordText(Lead(VerbFor(b)), i, BehindWord(b, w))
    ensures WordText(WordOf(b), i, w)
  {
    if b.Login? || b.Copy? || b.Move? {
      SpaceIsWord(Byte(SP, w), w);
      WordJoins(Lead(VerbFor(b)), " ", i, Byte(SP, w), w);
      assert WordOf(b) == Lead(VerbFor(b)) + " ";
    }
  }

  lemma {:induction false} PlainIsText(v: Verb, i: Wire) returns (w: Wire)
    requires !v.UidVerb?
    ensures var r := ReadPlain(v, i);
            r.Ok? ==> && VerbFor(r.value) == v && Legal(r.value)
                      && WordText(WordOf(r.value), i, w) && ArgumentsText(r.value, w, r.rest)
  {
    w := i;
    if TagNoCase(Lead(v), i).Ok? {
      TagTakesWord(Lead(v), i);
      var j := TagNoCase(Lead(v), i).rest;
      PlainDecides(v, i, j);
      w := ArgumentsAreTaken(v, j);
      var r := ReadPlain(v, i);
      if r.Ok? {
        WordCompleted(r.value, i, w);
      }
    }
  }

  lemma {:induction false} FormStands(b: CommandBody, i: Wire, j: Wire, w: Wire, rest: Wire)
    requires VerbFor(b) in {CopyVerb, SearchVerb, MoveVerb} && Legal(b)
    requires WordText("UID", i, Byte(SP, j)) && WordText(WordOf(b), j, w) && ArgumentsText(b, w, rest)
    ensures Legal(WithUid(b)) && CommandBodyText(WithUid(b), i, rest)
  {
    SpaceIsWord(Byte(SP, j), j);
    WordJoins(" ", WordOf(b), Byte(SP, j), j, w);
    WordJoins("UID", " " + WordOf(b), i, Byte(SP, j), w);
    assert WithoutUid(WithUid(b)) == b;
    UidWord(WithUid(b));
    SameArguments(WithUid(b), w, rest);
  }

  /** The form of a command with unique identifiers that was read. */
  lemma {:induction false} FormTaken(j: Wire) returns (b: CommandBody, w: Wire)
    requires ReadUidForms(j).Ok?
    ensures ReadUidForms(j).value == WithUid(b)
    ensures VerbFor(b) in {CopyVerb, SearchVerb, MoveVerb} && Legal(b)
    ensures WordText(WordOf(b), j, w) && ArgumentsText(b, w, ReadUidForms(j).rest)
  {
    var v := if !ReadPlain(CopyVerb, j).Error? then CopyVerb
             else if !ReadPlain(SearchVerb, j).Error? then SearchVerb else MoveVerb;
    assert ReadUidForms(j) == ReadPlain(v, j).Map(WithUid);
    b := ReadPlain(v, j).value;
    w := PlainIsText(v, j);
  }

  lemma {:induction false} VerbIsText(v: Verb, i: Wire)
    ensures GivesCommand(ReadVerb(v, i), i)
  {
    if v.UidVerb? {
      if ReadVerb(v, i).Ok? {
        TagTakesWord("UID", i);
        var k := TagNoCase("UID", i).rest;
        assert k == Byte(SP, k.tail);
        UidDecides(v, i, k.tail);
        var b, w := FormTaken(k.tail);
        FormStands(b, i, k.tail, w, ReadVerb(v, i).rest);
      }
    } else {
      var w := PlainIsText(v, i);
    }
  }

  lemma {:induction false} BodyIsText(i: Wire)
    ensures GivesCommand(ReadCommandBody(i), i)
  {
    if ReadCommandBody(i).Ok? {
      var verbs := Alternatives();
      var v := FirstTaken(ReadVerb, verbs, 0, i);
      VerbIsText(v, i);
    }
  }

  lemma {:induction false} TagIsTaken(i: Wire)
    ensures var r := ReadTag(i); r.Ok? ==> ValidTag(r.value) && i == Feed(r.value, r.rest)
  {
    TakeWhileTakes(IsTagChar, i);
  }

  /** Whatever is read as a command is a text of that command, legal and within the limits. */
  lemma {:induction false} CommandIsText(i: Wire)
    ensures var r := ReadCommand(i); r.Ok? ==> Legal(r.value.body) && CommandText(r.value, i, r.rest)
  {
    var r := ReadCommand(i);
    if r.Ok? {
      TagIsTaken(i);
      var k := ReadTag(i).rest;
      assert k == Byte(SP, k.tail);
      BodyIsText(k.tail);
      var end := ReadCommandBody(k.tail).rest;
      assert end == Byte(CR, Byte(LF, r.rest));
    }
  }

  /** The language of commands: one is read from exactly its texts, whatever follows, if its
      criteria are within the limit and its literals fit. */
  lemma {:induction false} CommandGrammar(c: Command, i: Wire, rest: Wire)
    ensures ReadCommand(i) == Ok(rest, c) <==> CommandText(c, i, rest) && FitsBody(c.body) && ShallowBody(c.body)
  {
    CommandIsText(i);
    if CommandText(c, i, rest) {
      CommandReads(c, i, rest);
    }
  }

  // ----- What is written is a text -----

  /** A mailbox that goes by the name INBOX is not taken for another one. */
  predicate Named(m: Mailbox) {
    m.OtherMailbox? ==> !Spells(TextOf(m.name), "INBOX")
  }

  predicate NamedIn(b: CommandBody) {
    match b
    case OnMailbox(_, mailbox) => Named(mailbox)
    case Rename(from, upto) => Named(from) && Named(upto)
    case Copy(_, mailbox, _) => Named(mailbox)
    case Move(_, mailbox, _) => Named(mailbox)
    case _ => true
  }

  lemma {:induction false} PutMailboxIsText(m: Mailbox, rest: Wire)
    requires ValidMailbox(m) && Named(m)
    ensures MailboxText(m, PutMailbox(m, rest), rest)
  {
    match m
    case Inbox => InboxStands(rest);
    case OtherMailbox(name) => PutAStringIsText(name, rest);
  }

  lemma {:induction false} InboxStands(rest: Wire)
    ensures MailboxText(Inbox, Text("INBOX", rest), rest)
  {
    TextIsWord("INBOX", rest);
    var s :| Spells(s, "INBOX") && Text("INBOX", rest) == Feed(s, rest);
    forall k | 0 <= k < |s| ensures IsAStringChar(s[k]) {
      assert SameLetter(s[k], Octet("INBOX"[k]));
    }
    assert TextOf(AtomString(s)) == s && AStringText(AtomString(s), Text("INBOX", rest), rest);
  }

  /** Where the arguments of a body are written. */
  function PutArguments(b: CommandBody, rest: Wire): Wire
    requires ValidBody(b)
  {
    match b
    case Bare(_) => rest
    case Login(username, password) => PutAString(username, Byte(SP, PutAString(password, rest)))
    case OnMailbox(_, mailbox) => PutMailbox(mailbox, rest)
    case Rename(from, upto) => PutMailbox(from, Byte(SP, PutMailbox(upto, rest)))
    case ExpungeUid(set_) => PutSequenceSet(set_, rest)
    case SearchCommand(charset, criteria, _) => PutSearch(charset, criteria, rest)
    case Copy(set_, mailbox, _) => PutSequenceSet(set_, Byte(SP, PutMailbox(mailbox, rest)))
    case Move(set_, mailbox, _) => PutSequenceSet(set_, Byte(SP, PutMailbox(mailbox, rest)))
  }

  lemma {:induction false} PutSetAndMailbox(set_: seq<Sequence>, m: Mailbox, rest: Wire)
    requires set_ != [] && ValidMailbox(m) && Named(m)
    ensures PairText(SetText, MailboxText, set_, m, PutSequenceSet(set_, Byte(SP, PutMailbox(m, rest))), rest)
  {
    PutMailboxIsText(m, rest);
    PutSetIsText(set_, Byte(SP, PutMailbox(m, rest)));
  }

  lemma {:induction false} PutCredentials(username: AString, password: AString, rest: Wire)
    requires ValidAString(username) && ValidAString(password)
    ensures PairText(AStringText, AStringText, username, password,
                     PutAString(username, Byte(SP, PutAString(password, rest))), rest)
  {
    PutAStringIsText(password, rest);
    PutAStringIsText(username, Byte(SP, PutAString(password, rest)));
  }

  lemma {:induction false} PutNames(from: Mailbox, upto: Mailbox, rest: Wire)
    requires ValidMailbox(from) && ValidMailbox(upto) && Named(from) && Named(upto)
    ensures PairText(MailboxText, MailboxText, from, upto,
                     PutMailbox(from, Byte(SP, PutMailbox(upto, rest))), rest)
  {
    PutMailboxIsText(upto, rest);
    PutMailboxIsText(from, Byte(SP, PutMailbox(upto, rest)));
  }

  lemma {:induction false} PutArgumentsAreText(b: CommandBody, rest: Wire)
    requires ValidBody(b) && NamedIn(b)
    ensures ArgumentsText(b, PutArguments(b, rest), rest)
  {
    match b
    case Bare(_) =>
    case Login(username, password) => PutCredentials(username, password, rest);
    case OnMailbox(_, mailbox) => PutMailboxIsText(mailbox, rest);
    case Rename(from, upto) => PutNames(from, upto, rest);
    case ExpungeUid(set_) => PutSetIsText(set_, rest);
    case SearchCommand(charset, criteria, _) => PutSearchIsText(charset, criteria, rest);
    case Copy(set_, mailbox, _) => PutSetAndMailbox(set_, mailbox, rest);
    case Move(set_, mailbox, _) => PutSetAndMailbox(set_, mailbox, rest);
  }

  lemma {:induction false} PutWordFirst(b: CommandBody, rest: Wire)
    requires ValidBody(b)
    ensures PutCommandBody(b, rest) == Text(WordOf(b), PutArguments(b, rest))
  {
  }

  /** What is written for a body is a text of it. */
  lemma {:induction false} PutBodyIsText(b: CommandBody, rest: Wire)
    requires ValidBody(b) && NamedIn(b)
    ensures CommandBodyText(b, PutCommandBody(b, rest), rest)
  {
    PutWordFirst(b, rest);
    TextIsWord(WordOf(b), PutArguments(b, rest));
    PutArgumentsAreText(b, rest);
  }

  lemma {:induction false} PutCommandIsText(c: Command, rest: Wire)
    requires ValidCommand(c) && NamedIn(c.body)
    ensures CommandText(c, PutCommand(c, rest), rest)
  {
    PutBodyIsText(c.body, Byte(CR, Byte(LF, rest)));
  }

  lemma {:induction false} TextsAreNamed(b: CommandBody, i: Wire, rest: Wire)
    requires CommandBodyText(b, i, rest)
    ensures NamedIn(b)
  {
    var w :| WordText(WordOf(b), i, w) && ArgumentsText(b, w, rest);
    match b
    case Rename(from, upto) => var j := PairPlaces(MailboxText, MailboxText, from, upto, w, rest);
    case Copy(set_, mailbox, _) => var j := PairPlaces(SetText, MailboxText, set_, mailbox, w, rest);
    case Move(set_, mailbox, _) => var j := PairPlaces(SetText, MailboxText, set_, mailbox, w, rest);
    case _ =>
  }

  /** Encoding a command and reading it back gives the command exactly when every literal fits,
      no search criterion is nested more than nine levels deep, and no mailbox other than INBOX
      goes by that name. */
  lemma {:induction false} CommandRoundTrip(c: Command, rest: Wire)
    requires ValidCommand(c)
    ensures ReadCommand(PutCommand(c, rest)) == Ok(rest, c)
       <==> FitsBody(c.body) && ShallowBody(c.body) && NamedIn(c.body)
  {
    var i := PutCommand(c, rest);
    CommandGrammar(c, i, rest);
    if NamedIn(c.body) {
      PutCommandIsText(c, rest);
    } else if CommandText(c, i, rest) {
      var j :| i == Feed(c.tag, Byte(SP, j)) && CommandBodyText(c.body, j, Byte(CR, Byte(LF, rest)));
      TextsAreNamed(c.body, j, Byte(CR, Byte(LF, rest)));
    }
  }

  /** Whatever was read as a command can be written and read again. */
  lemma {:induction false} ReadCommandsCanBeWritten(i: Wire, rest: Wire)
    requires ReadCommand(i).Ok?
    ensures var c := ReadCommand(i).value; ValidCommand(c) && ReadCommand(PutCommand(c, rest)) == Ok(rest, c)
  {
    var c, end := ReadCommand(i).value, Byte(CR, Byte(LF, ReadCommand(i).rest));
    CommandIsText(i);
    var j :| i == Feed(c.tag, Byte(SP, j)) && CommandBodyText(c.body, j, end);
    TextsAreNamed(c.body, j, end);
    CommandRoundTrip(c, rest);
  }
}
