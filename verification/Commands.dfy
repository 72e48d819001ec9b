/** Commands: how a client writes them and how a server reads them. */
module Commands {
  import opened Octets
  import opened Nom
  import opened Strings
  import opened SequenceSets
  import opened SequenceCodec
  import opened Search

  datatype Mailbox = Inbox | OtherMailbox(name: AString)

  datatype Charset = AtomCharset(text: bytes) | QuotedCharset(text: bytes)

  datatype BareWord = CAPABILITY | NOOP | LOGOUT | UNSELECT | CHECK | CLOSE | EXPUNGE | IDLE

  datatype MailboxWord = SELECT | EXAMINE | CREATE | DELETE | SUBSCRIBE | UNSUBSCRIBE | GETQUOTAROOT

  /** The commands without arguments and those with a mailbox are grouped by their word. */
  datatype CommandBody =
    | Bare(bare: BareWord)
    | Login(username: AString, password: AString)
    | OnMailbox(word: MailboxWord, mailbox: Mailbox)
    | Rename(from: Mailbox, upto: Mailbox)
    | ExpungeUid(set_: seq<Sequence>)
    | SearchCommand(charset: Option<Charset>, criteria: seq<SearchKey>, uid: bool)
    | Copy(set_: seq<Sequence>, mailbox: Mailbox, uid: bool)
    | Move(set_: seq<Sequence>, mailbox: Mailbox, uid: bool)

  datatype Command = Command(tag: bytes, body: CommandBody)

  function BareName(word: BareWord): string {
    match word
    case CAPABILITY => "CAPABILITY"
    case NOOP => "NOOP"
    case LOGOUT => "LOGOUT"
    case UNSELECT => "UNSELECT"
    case CHECK => "CHECK"
    case CLOSE => "CLOSE"
    case EXPUNGE => "EXPUNGE"
    case IDLE => "IDLE"
  }

  function MailboxName(word: MailboxWord): string {
    match word
    case SELECT => "SELECT "
    case EXAMINE => "EXAMINE "
    case CREATE => "CREATE "
    case DELETE => "DELETE "
    case SUBSCRIBE => "SUBSCRIBE "
    case UNSUBSCRIBE => "UNSUBSCRIBE "
    case GETQUOTAROOT => "GETQUOTAROOT "
  }

  // ----- What the types of the library guarantee -----

  predicate ValidMailbox(m: Mailbox) {
    m.OtherMailbox? ==> ValidAString(m.name)
  }

  predicate ValidCharset(c: Charset) {
    match c
    case AtomCharset(text) => ValidAtom(text)
    case QuotedCharset(text) => ValidQuoted(text)
  }

  predicate ValidBody(b: CommandBody) {
    match b
    case Bare(_) => true
    case Login(username, password) => ValidAString(username) && ValidAString(password)
    case OnMailbox(_, mailbox) => ValidMailbox(mailbox)
    case Rename(from, upto) => ValidMailbox(from) && ValidMailbox(upto)
    case ExpungeUid(set_) => set_ != []
    case SearchCommand(charset, criteria, _) =>
      (charset.Some? ==> ValidCharset(charset.value)) && ValidKey(And(criteria))
    case Copy(set_, mailbox, _) => set_ != [] && ValidMailbox(mailbox)
    case Move(set_, mailbox, _) => set_ != [] && ValidMailbox(mailbox)
  }

  predicate ValidCommand(c: Command) {
    ValidTag(c.tag) && ValidBody(c.body)
  }

  // ----- Every literal has a length of 32 bits -----

  predicate FitsMailbox(m: Mailbox) {
    m.OtherMailbox? ==> FitsAString(m.name)
  }

  predicate FitsBody(b: CommandBody) {
    match b
    case Login(username, password) => FitsAString(username) && FitsAString(password)
    case OnMailbox(_, mailbox) => FitsMailbox(mailbox)
    case Rename(from, upto) => FitsMailbox(from) && FitsMailbox(upto)
    case SearchCommand(_, criteria, _) => FitsKey(And(criteria))
    case Copy(_, mailbox, _) => FitsMailbox(mailbox)
    case Move(_, mailbox, _) => FitsMailbox(mailbox)
    case _ => true
  }

  // ----- The grammar -----

  /** The bytes that a string stands for. */
  function TextOf(s: AString): bytes {
    match s
    case AtomString(text) => text
    case StringString(LiteralString(l)) => l.data
    case StringString(QuotedString(text)) => text
  }

  /** INBOX in any case of letters, and in any form of string, is the one mailbox of that name. */
  ghost predicate MailboxText(m: Mailbox, i: Wire, rest: Wire) {
    match m
    case Inbox => exists s {:trigger TextOf(s)} :: AStringText(s, i, rest) && Spells(TextOf(s), "INBOX")
    case OtherMailbox(name) => AStringText(name, i, rest) && !Spells(TextOf(name), "INBOX")
  }

  ghost predicate CharsetText(c: Charset, i: Wire, rest: Wire) {
    match c
    case AtomCharset(text) => AtomText(text, i, rest)
    case QuotedCharset(text) => QuotedText(text, i, rest)
  }

  ghost predicate CharsetArgumentText(charset: Option<Charset>, i: Wire, rest: Wire) {
    match charset
    case None => i == rest
    case Some(c) => exists j :: WordText(" CHARSET ", i, j) && CharsetText(c, j, rest)
  }

  /** One or more search keys with spaces between them. */
  ghost predicate CriteriaText(criteria: seq<SearchKey>, i: Wire, rest: Wire) {
    criteria != [] && exists text: nat -> Wire :: KeysStand(And(criteria), text, rest) && text(0) == i
  }

  /** What comes behind the word SEARCH. */
  ghost predicate SearchText(charset: Option<Charset>, criteria: seq<SearchKey>, i: Wire, rest: Wire) {
    exists j :: CharsetArgumentText(charset, i, Byte(SP, j)) && CriteriaText(criteria, j, rest)
  }

  /** The word of a command as far as it distinguishes the command from the others. */
  function WordOf(b: CommandBody): string {
    match b
    case Bare(word) => BareName(word)
    case Login(_, _) => "LOGIN "
    case OnMailbox(word, _) => MailboxName(word)
    case Rename(_, _) => "RENAME "
    case ExpungeUid(_) => "UID EXPUNGE "
    case SearchCommand(_, _, uid) => if uid then "UID SEARCH" else "SEARCH"
    case Copy(_, _, uid) => if uid then "UID COPY " else "COPY "
    case Move(_, _, uid) => if uid then "UID MOVE " else "MOVE "
  }

  /** What comes behind the word. */
  ghost predicate ArgumentsText(b: CommandBody, i: Wire, rest: Wire) {
    match b
    case Bare(_) => i == rest
    case Login(username, password) => PairText(AStringText, AStringText, username, password, i, rest)
    case OnMailbox(_, mailbox) => MailboxText(mailbox, i, rest)
    case Rename(from, upto) => PairText(MailboxText, MailboxText, from, upto, i, rest)
    case ExpungeUid(set_) => SetText(set_, i, rest)
    case SearchCommand(charset, criteria, _) => SearchText(charset, criteria, i, rest)
    case Copy(set_, mailbox, _) => PairText(SetText, MailboxText, set_, mailbox, i, rest)
    case Move(set_, mailbox, _) => PairText(SetText, MailboxText, set_, mailbox, i, rest)
  }

  ghost predicate CommandBodyText(b: CommandBody, i: Wire, rest: Wire) {
    exists j :: WordText(WordOf(b), i, j) && ArgumentsText(b, j, rest)
  }

  /** Tag, body and line end. */
  ghost predicate CommandText(c: Command, i: Wire, rest: Wire) {
    ValidTag(c.tag) &&
    exists j :: i == Feed(c.tag, Byte(SP, j)) && CommandBodyText(c.body, j, Byte(CR, Byte(LF, rest)))
  }

  // ----- Writing -----

  function PutMailbox(m: Mailbox, rest: Wire): Wire {
    match m
    case Inbox => Text("INBOX", rest)
    case OtherMailbox(name) => PutAString(name, rest)
  }

  function PutCharset(c: Charset, rest: Wire): Wire {
    match c
    case AtomCharset(text) => Feed(text, rest)
    case QuotedCharset(text) => PutQuoted(text, rest)
  }

  /** The keys of a conjunction without its parentheses. */
  function PutCriteria(k: SearchKey, rest: Wire): Wire
    requires k.And? && ValidKey(k)
  {
    PutKey(k.keys[0], PutKeys(k, 1, rest))
  }

  /** What comes behind the word SEARCH. */
  function PutSearch(charset: Option<Charset>, criteria: seq<SearchKey>, rest: Wire): Wire
    requires ValidKey(And(criteria))
  {
    var keys := Byte(SP, PutCriteria(And(criteria), rest));
    match charset
    case None => keys
    case Some(c) => Text(" CHARSET ", PutCharset(c, keys))
  }

  function PutWithSet(
      plain: string, uidForm: string, uid: bool, set_: seq<Sequence>, mailbox: Mailbox, rest: Wire): Wire
  {
    Text(if uid then uidForm else plain, PutSequenceSet(set_, Byte(SP, PutMailbox(mailbox, rest))))
  }

  function PutCommandBody(b: CommandBody, rest: Wire): Wire
    requires ValidBody(b)
  {
    match b
    case Bare(word) => Text(BareName(word), rest)
    case Login(username, password) =>
      Text("LOGIN ", PutAString(username, Byte(SP, PutAString(password, rest))))
    case OnMailbox(word, mailbox) => Text(MailboxName(word), PutMailbox(mailbox, rest))
    case Rename(from, upto) => Text("RENAME ", PutMailbox(from, Byte(SP, PutMailbox(upto, rest))))
    case ExpungeUid(set_) => Text("UID EXPUNGE ", PutSequenceSet(set_, rest))
    case SearchCommand(charset, criteria, uid) =>
      Text(if uid then "UID SEARCH" else "SEARCH", PutSearch(charset, criteria, rest))
    case Copy(set_, mailbox, uid) => PutWithSet("COPY ", "UID COPY ", uid, set_, mailbox, rest)
    case Move(set_, mailbox, uid) => PutWithSet("MOVE ", "UID MOVE ", uid, set_, mailbox, rest)
  }

  function PutCommand(c: Command, rest: Wire): Wire
    requires ValidCommand(c)
  {
    Feed(c.tag, Byte(SP, PutCommandBody(c.body, Byte(CR, Byte(LF, rest)))))
  }

  // ----- Reading -----

  /** How deeply the keys of a SEARCH command may be nested. */
  const SEARCH_LEVELS: nat := 9

  /** A text that is INBOX when the case of letters is disregarded. */
  predicate IsInbox(text: bytes) {
    |text| == 5 && forall k | 0 <= k < 5 :: LowerCase(text[k]) == LowerCase(Octet("INBOX"[k]))
  }

  function MailboxFrom(name: AString): Mailbox {
    if IsInbox(TextOf(name)) then Inbox else OtherMailbox(name)
  }

  function ReadMailbox(i: Wire): (r: Outcome<Mailbox>)
    ensures r.Consumes(i)
  {
    ReadAString(i).Map(MailboxFrom)
  }

  function ReadCharset(i: Wire): (r: Outcome<Charset>)
    ensures r.Consumes(i)
  {
    Alt(ReadAtom(i).Map(text => AtomCharset(text)), ReadQuoted(i).Map(text => QuotedCharset(text)))
  }

  function ReadCharsetArgument(i: Wire): (r: Outcome<Charset>)
    ensures r.Consumes(i)
  {
    var (i1, _) :- Char(SP, i);
    var (i2, _) :- TagNoCase("CHARSET", i1);
    Behind(ReadCharset, i2)
  }

  function ReadCriteria(i: Wire): (r: Outcome<seq<SearchKey>>)
    ensures r.Consumes(i)
  {
    SeparatedList1(SP, KeyReader(SEARCH_LEVELS), i)
  }

  function ReadSearch(i: Wire): (r: Outcome<CommandBody>)
    ensures r.Consumes(i)
  {
    var (i1, charset) :- Opt(ReadCharsetArgument(i), i);
    var (i2, criteria) :- Behind(ReadCriteria, i1);
    Ok(i2, SearchCommand(charset, criteria, false))
  }

  function ReadLogin(i: Wire): (r: Outcome<CommandBody>)
    ensures r.Consumes(i)
  {
    var (i1, _) :- Char(SP, i);
    var (rest, (username, password)) :- Pair(ReadAString, ReadAString, i1);
    Ok(rest, Login(username, password))
  }

  function ReadRename(i: Wire): (r: Outcome<CommandBody>)
    ensures r.Consumes(i)
  {
    var (rest, (from, upto)) :- Pair(ReadMailbox, ReadMailbox, i);
    Ok(rest, Rename(from, upto))
  }

  /** A set and a mailbox, each behind a space. */
  function ReadSetAndMailbox(i: Wire): (r: Outcome<(seq<Sequence>, Mailbox)>)
    ensures r.Consumes(i)
  {
    var (i1, _) :- Char(SP, i);
    Pair(ReadSequenceSet, ReadMailbox, i1)
  }

  function ReadCopy(i: Wire): (r: Outcome<CommandBody>)
    ensures r.Consumes(i)
  {
    var (rest, (set_, mailbox)) :- ReadSetAndMailbox(i);
    Ok(rest, Copy(set_, mailbox, false))
  }

  function ReadMove(i: Wire): (r: Outcome<CommandBody>)
    ensures r.Consumes(i)
  {
    var (rest, (set_, mailbox)) :- ReadSetAndMailbox(i);
    Ok(rest, Move(set_, mailbox, false))
  }

  /** The words by which the alternatives of the command grammar are recognized. */
  datatype Verb =
    | BareVerb(bare: BareWord)
    | MailboxVerb(word: MailboxWord)
    | LoginVerb | RenameVerb | ExpungeUidVerb | CopyVerb | UidVerb | SearchVerb | MoveVerb

  function Lead(v: Verb): (word: string)
    ensures word != ""
  {
    match v
    case BareVerb(word) => BareName(word)
    case MailboxVerb(word) => MailboxName(word)
    case LoginVerb => "LOGIN"
    case RenameVerb => "RENAME "
    case ExpungeUidVerb => "UID EXPUNGE "
    case CopyVerb => "COPY"
    case UidVerb => "UID"
    case SearchVerb => "SEARCH"
    case MoveVerb => "MOVE"
  }

  /** What comes behind a verb other than UID. */
  function ReadArgumentsOf(v: Verb, i: Wire): (r: Outcome<CommandBody>)
    requires !v.UidVerb?
    ensures r.Ok? ==> Size(r.rest) <= Size(i)
  {
    match v
    case BareVerb(word) => Ok(i, Bare(word))
    case MailboxVerb(word) => ReadMailbox(i).Map(mailbox => OnMailbox(word, mailbox))
    case LoginVerb => ReadLogin(i)
    case RenameVerb => ReadRename(i)
    case ExpungeUidVerb => ReadSequenceSet(i).Map(set_ => ExpungeUid(set_))
    case CopyVerb => ReadCopy(i)
    case SearchVerb => ReadSearch(i)
    case MoveVerb => ReadMove(i)
  }

  function ReadPlain(v: Verb, i: Wire): (r: Outcome<CommandBody>)
    requires !v.UidVerb?
    ensures r.Consumes(i)
  {
    var (i1, _) :- TagNoCase(Lead(v), i);
    ReadArgumentsOf(v, i1)
  }

  function WithUid(b: CommandBody): CommandBody {
    match b
    case Copy(set_, mailbox, _) => Copy(set_, mailbox, true)
    case SearchCommand(charset, criteria, _) => SearchCommand(charset, criteria, true)
    case Move(set_, mailbox, _) => Move(set_, mailbox, true)
    case _ => b
  }

  /** The commands that may take unique identifiers. */
  function ReadUidForms(i: Wire): (r: Outcome<CommandBody>)
    ensures r.Consumes(i)
  {
    Alt(ReadPlain(CopyVerb, i), Alt(ReadPlain(SearchVerb, i), ReadPlain(MoveVerb, i))).Map(WithUid)
  }

  function ReadVerb(v: Verb, i: Wire): (r: Outcome<CommandBody>)
    ensures r.Consumes(i)
  {
    if v.UidVerb? then
      var (i1, _) :- TagNoCase(Lead(v), i);
      var (i2, _) :- Char(SP, i1);
      ReadUidForms(i2)
    else ReadPlain(v, i)
  }

  const VERBS: nat := 22

  /** The alternatives in the order in which they are tried: those valid in any state, in the
      authenticated state, before authentication, and in the selected state. */
  function VerbAt(n: nat): Verb
    requires n < VERBS
  {
    match n
    case 0 => BareVerb(CAPABILITY)
    case 1 => BareVerb(LOGOUT)
    case 2 => BareVerb(NOOP)
    case 3 => MailboxVerb(CREATE)
    case 4 => MailboxVerb(DELETE)
    case 5 => MailboxVerb(EXAMINE)
    case 6 => RenameVerb
    case 7 => MailboxVerb(SELECT)
    case 8 => MailboxVerb(SUBSCRIBE)
    case 9 => MailboxVerb(UNSUBSCRIBE)
    case 10 => BareVerb(IDLE)
    case 11 => MailboxVerb(GETQUOTAROOT)
    case 12 => LoginVerb
    case 13 => BareVerb(CHECK)
    case 14 => BareVerb(CLOSE)
    case 15 => BareVerb(EXPUNGE)
    case 16 => ExpungeUidVerb
    case 17 => CopyVerb
    case 18 => UidVerb
    case 19 => SearchVerb
    case 20 => BareVerb(UNSELECT)
    case _ => MoveVerb
  }

  function Alternatives(): (verbs: seq<Verb>)
    ensures |verbs| == VERBS && forall n | 0 <= n < VERBS :: verbs[n] == VerbAt(n)
  {
    seq(VERBS, n requires 0 <= n < VERBS => VerbAt(n))
  }

  function ReadCommandBody(i: Wire): (r: Outcome<CommandBody>)
    ensures r.Consumes(i)
  {
    FirstOf(ReadVerb, Alternatives(), 0, i)
  }

  function ReadCommand(i: Wire): (r: Outcome<Command>)
    ensures r.Consumes(i)
  {
    var (i1, tag) :- ReadTag(i);
    var (i2, _) :- Char(SP, i1);
    var (i3, body) :- ReadCommandBody(i2);
    var (i4, _) :- Crlf(i3);
    Ok(i4, Command(tag, body))
  }
}
