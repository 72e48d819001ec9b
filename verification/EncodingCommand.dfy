/** Encoding of commands, and how the Fragmentizer takes the result. */
module EncodingCommand {
  import opened Octets
  import opened Nom
  import opened Strings
  import opened SequenceSets
  import opened SequenceCodec
  import opened Search
  import opened Contexts
  import opened Encoding
  import opened EncodingSearch
  import opened Commands
  import opened CommandReading
  import opened Agreement
  import Deliveries
  import Fragments

  lemma InboxIsPlain()
    ensures PlainText("INBOX")
  {
  }

  lemma CharsetIsPlain()
    ensures PlainText(" CHARSET ")
  {
  }

  lemma ExpungeIsPlain()
    ensures PlainText("UID EXPUNGE ")
  {
  }

  lemma LoginIsPlain()
    ensures PlainText("LOGIN ")
  {
  }

  lemma RenameIsPlain()
    ensures PlainText("RENAME ")
  {
  }

  lemma SearchWordIsPlain()
    ensures PlainText("SEARCH") && PlainText("UID SEARCH")
  {
  }

  lemma CopyIsPlain()
    ensures PlainText("COPY ") && PlainText("UID COPY ")
  {
  }

  lemma MoveIsPlain()
    ensures PlainText("MOVE ") && PlainText("UID MOVE ")
  {
  }

  method EncodeMailbox(m: Mailbox, ctx: EncodeContext, ghost rest: Wire)
    modifies ctx
    ensures old(ctx.Valid()) && ValidMailbox(m) ==> ctx.Valid()
    ensures Feed(ctx.Dump(), rest) == Feed(old(ctx.Dump()), PutMailbox(m, rest))
    ensures ctx.Fits() == (old(ctx.Fits()) && FitsMailbox(m))
  {
    match m {
      case Inbox =>
        InboxIsPlain();
        WriteText("INBOX", ctx, rest);
      case OtherMailbox(name) => EncodeAString(name, ctx, rest);
    }
  }

  method EncodeCharset(c: Charset, ctx: EncodeContext, ghost rest: Wire)
    modifies ctx
    ensures old(ctx.Valid()) && ValidCharset(c) ==> ctx.Valid()
    ensures Feed(ctx.Dump(), rest) == Feed(old(ctx.Dump()), PutCharset(c, rest))
    ensures ctx.Fits() == old(ctx.Fits())
  {
    match c {
      case AtomCharset(text) => EncodeAtom(text, ctx, rest);
      case QuotedCharset(text) => EncodeQuoted(text, ctx, rest);
    }
  }

  method EncodeCriteria(k: SearchKey, ctx: EncodeContext, ghost rest: Wire)
    requires ctx.Valid()
    requires k.And? && ValidKey(k)
    modifies ctx
    ensures ctx.Valid()
    ensures Feed(ctx.Dump(), rest) == Feed(old(ctx.Dump()), PutCriteria(k, rest))
    ensures ctx.Fits() == (old(ctx.Fits()) && FitsKey(k))
  {
    ghost var row := Rows(k, rest);
    EncodeKeys(k, ctx, row, rest);
  }

  method EncodeCharsetArgument(c: Charset, ctx: EncodeContext, ghost rest: Wire)
    modifies ctx
    ensures old(ctx.Valid()) && ValidCharset(c) ==> ctx.Valid()
    ensures Feed(ctx.Dump(), rest) == Feed(old(ctx.Dump()), Text(" CHARSET ", PutCharset(c, rest)))
    ensures ctx.Fits() == old(ctx.Fits())
  {
    CharsetIsPlain();
    WriteText(" CHARSET ", ctx, PutCharset(c, rest));
    EncodeCharset(c, ctx, rest);
  }

  method EncodeSearch(charset: Option<Charset>, criteria: seq<SearchKey>, ctx: EncodeContext, ghost rest: Wire)
    requires ctx.Valid()
    requires ValidKey(And(criteria)) && (charset.Some? ==> ValidCharset(charset.value))
    modifies ctx
    ensures ctx.Valid()
    ensures Feed(ctx.Dump(), rest) == Feed(old(ctx.Dump()), PutSearch(charset, criteria, rest))
    ensures ctx.Fits() == (old(ctx.Fits()) && FitsKey(And(criteria)))
  {
    ghost var keys := PutCriteria(And(criteria), rest);
    match charset {
      case None =>
      case Some(c) => EncodeCharsetArgument(c, ctx, Byte(SP, keys));
    }
    WriteByte(SP, ctx, keys);
    EncodeCriteria(And(criteria), ctx, rest);
  }

  method EncodeWithSet(
      plain: string, uidForm: string, uid: bool, set_: seq<Sequence>, mailbox: Mailbox, ctx: EncodeContext,
      ghost rest: Wire)
    requires ctx.Valid()
    requires set_ != [] && ValidMailbox(mailbox) && PlainText(plain) && PlainText(uidForm)
    modifies ctx
    ensures ctx.Valid()
    ensures Feed(ctx.Dump(), rest) == Feed(old(ctx.Dump()), PutWithSet(plain, uidForm, uid, set_, mailbox, rest))
    ensures ctx.Fits() == (old(ctx.Fits()) && FitsMailbox(mailbox))
  {
    ghost var j := PutMailbox(mailbox, rest);
    WriteText(if uid then uidForm else plain, ctx, PutSequenceSet(set_, Byte(SP, j)));
    EncodeSequenceSet(set_, ctx, Byte(SP, j));
    WriteByte(SP, ctx, j);
    EncodeMailbox(mailbox, ctx, rest);
  }

  lemma BareNameIsPlain(word: BareWord)
    ensures PlainText(BareName(word))
  {
  }

  lemma MailboxNameIsPlain(word: MailboxWord)
    ensures PlainText(MailboxName(word))
  {
  }

  method EncodeLogin(username: AString, password: AString, ctx: EncodeContext, ghost rest: Wire)
    requires ctx.Valid()
    requires ValidAString(username) && ValidAString(password)
    modifies ctx
    ensures ctx.Valid()
    ensures Feed(ctx.Dump(), rest) == Feed(old(ctx.Dump()), PutCommandBody(Login(username, password), rest))
    ensures ctx.Fits() == (old(ctx.Fits()) && FitsBody(Login(username, password)))
  {
    ghost var j := PutAString(password, rest);
    LoginIsPlain();
    WriteText("LOGIN ", ctx, PutAString(username, Byte(SP, j)));
    EncodeAString(username, ctx, Byte(SP, j));
    WriteByte(SP, ctx, j);
    EncodeAString(password, ctx, rest);
  }

  method EncodeOnMailbox(word: MailboxWord, mailbox: Mailbox, ctx: EncodeContext, ghost rest: Wire)
    requires ctx.Valid()
    requires ValidMailbox(mailbox)
    modifies ctx
    ensures ctx.Valid()
    ensures Feed(ctx.Dump(), rest) == Feed(old(ctx.Dump()), PutCommandBody(OnMailbox(word, mailbox), rest))
    ensures ctx.Fits() == (old(ctx.Fits()) && FitsMailbox(mailbox))
  {
    MailboxNameIsPlain(word);
    WriteText(MailboxName(word), ctx, PutMailbox(mailbox, rest));
    EncodeMailbox(mailbox, ctx, rest);
  }

  method EncodeRename(from: Mailbox, upto: Mailbox, ctx: EncodeContext, ghost rest: Wire)
    requires ctx.Valid()
    requires ValidMailbox(from) && ValidMailbox(upto)
    modifies ctx
    ensures ctx.Valid()
    ensures Feed(ctx.Dump(), rest) == Feed(old(ctx.Dump()), PutCommandBody(Rename(from, upto), rest))
    ensures ctx.Fits() == (old(ctx.Fits()) && FitsBody(Rename(from, upto)))
  {
    ghost var j := PutMailbox(upto, rest);
    RenameIsPlain();
    WriteText("RENAME ", ctx, PutMailbox(from, Byte(SP, j)));
    EncodeMailbox(from, ctx, Byte(SP, j));
    WriteByte(SP, ctx, j);
    EncodeMailbox(upto, ctx, rest);
  }

  method EncodeExpunge(set_: seq<Sequence>, ctx: EncodeContext, ghost rest: Wire)
    requires ctx.Valid()
    requires set_ != []
    modifies ctx
    ensures ctx.Valid()
    ensures Feed(ctx.Dump(), rest) == Feed(old(ctx.Dump()), PutCommandBody(ExpungeUid(set_), rest))
    ensures ctx.Fits() == old(ctx.Fits())
  {
    ExpungeIsPlain();
    WriteText("UID EXPUNGE ", ctx, PutSequenceSet(set_, rest));
    EncodeSequenceSet(set_, ctx, rest);
  }

  method EncodeCommandBody(b: CommandBody, ctx: EncodeContext, ghost rest: Wire)
    requires ctx.Valid()
    requires ValidBody(b)
    modifies ctx
    ensures ctx.Valid()
    ensures Feed(ctx.Dump(), rest) == Feed(old(ctx.Dump()), PutCommandBody(b, rest))
    ensures ctx.Fits() == (old(ctx.Fits()) && FitsBody(b))
  {
    match b {
      case Bare(word) =>
        BareNameIsPlain(word);
        WriteText(BareName(word), ctx, rest);
      case Login(username, password) => EncodeLogin(username, password, ctx, rest);
      case OnMailbox(word, mailbox) => EncodeOnMailbox(word, mailbox, ctx, rest);
      case Rename(from, upto) => EncodeRename(from, upto, ctx, rest);
      case ExpungeUid(set_) => EncodeExpunge(set_, ctx, rest);
      case SearchCommand(charset, criteria, uid) =>
        SearchWordIsPlain();
        WriteText(if uid then "UID SEARCH" else "SEARCH", ctx, PutSearch(charset, criteria, rest));
        EncodeSearch(charset, criteria, ctx, rest);
      case Copy(set_, mailbox, uid) =>
        CopyIsPlain();
        EncodeWithSet("COPY ", "UID COPY ", uid, set_, mailbox, ctx, rest);
      case Move(set_, mailbox, uid) =>
        MoveIsPlain();
        EncodeWithSet("MOVE ", "UID MOVE ", uid, set_, mailbox, ctx, rest);
    }
  }

  lemma TagIsAtomExt(tag: bytes)
    requires ValidTag(tag)
    ensures ValidAtomExt(tag)
  {
    forall k | 0 <= k < |tag| ensures IsAStringChar(tag[k]) {
      assert IsTagChar(tag[k]);
    }
  }

  /** Everything but the line end. */
  method EncodeTagAndBody(c: Command, ctx: EncodeContext, ghost rest: Wire)
    requires ctx.Valid()
    requires ValidCommand(c)
    modifies ctx
    ensures ctx.Valid()
    ensures Feed(ctx.Dump(), rest) == Feed(old(ctx.Dump()), Feed(c.tag, Byte(SP, PutCommandBody(c.body, rest))))
    ensures ctx.Fits() == (old(ctx.Fits()) && FitsBody(c.body))
  {
    ghost var body := PutCommandBody(c.body, rest);
    TagIsAtomExt(c.tag);
    EncodeAtom(c.tag, ctx, Byte(SP, body));
    WriteByte(SP, ctx, body);
    EncodeCommandBody(c.body, ctx, rest);
  }

  /** The bytes are a text of the command, and they are read as the command exactly when its
      literals fit, its criteria are within the limit and no other mailbox goes by the name INBOX. */
  ghost predicate IsUnderstood(c: Command, s: bytes) {
    && (NamedIn(c.body) ==> CommandText(c, Feed(s, End), End))
    && (ReadCommand(Feed(s, End)) == Ok(End, c) <==> FitsBody(c.body) && ShallowBody(c.body) && NamedIn(c.body))
  }

  /** The fragments are a message that is understood as the command. */
  ghost predicate Encodes(m: seq<Fragment>, c: Command) {
    Deliveries.IsMessage(m) && (Announceable(m) <==> FitsBody(c.body)) && IsUnderstood(c, DataOf(m))
  }

  lemma {:induction false} CommandIsUnderstood(c: Command, s: bytes)
    requires ValidCommand(c) && Feed(s, End) == PutCommand(c, End)
    ensures IsUnderstood(c, s)
  {
    CommandRoundTrip(c, End);
    if NamedIn(c.body) {
      PutCommandIsText(c, End);
    }
  }

  lemma {:induction false} Completed(c: Command, items: seq<Fragment>, text: bytes, all: seq<Fragment>)
    requires ValidCommand(c)
    requires Paired(items) && Neutral(text)
    requires Announceable(items) == FitsBody(c.body)
    requires all == Finished(items, text)
    requires Feed(DataOf(items) + text, Byte(CR, Byte(LF, End))) == PutCommand(c, End)
    ensures DataOf(all) == Bytes(PutCommand(c, End))
    ensures Encodes(all, c)
    ensures Fragments.FragmentsOf(DataOf(all)) == Infos(all) <==> FitsBody(c.body)
    ensures all != [] && Fragments.After(Infos(all)[|all| - 1]) == None
    ensures forall k | 0 <= k < |all| - 1 :: Fragments.After(Infos(all)[k]).Some?
  {
    DataOfFinished(items, text);
    assert DataOf(items) + (text + [CR, LF]) == (DataOf(items) + text) + [CR, LF];
    FeedConcat(DataOf(items) + text, [CR, LF], End);
    FeedTwo(CR, LF, End);
    CommandIsUnderstood(c, DataOf(all));
    FeedIsBytes(DataOf(all), PutCommand(c, End));
    EncoderAndFragmentizerAgree(items, text);
    OneMessage(items, text);
  }

  /** A command's fragments: the dumped bytes are what the grammar writes, and a Fragmentizer
      that is fed with them reports exactly these fragments, as one message that completes with
      the last one, if and only if every literal has a length of 32 bits. Decoding these bytes
      gives the command back if and only if, in addition, the command is within the limit on
      nesting and names INBOX as INBOX. */
  method Encode(c: Command) returns (all: seq<Fragment>)
    requires ValidCommand(c)
    ensures DataOf(all) == Bytes(PutCommand(c, End))
    ensures Encodes(all, c)
    ensures Fragments.FragmentsOf(DataOf(all)) == Infos(all) <==> FitsBody(c.body)
    ensures all != [] && Fragments.After(Infos(all)[|all| - 1]) == None
    ensures forall k | 0 <= k < |all| - 1 :: Fragments.After(Infos(all)[k]).Some?
  {
    var ctx := new EncodeContext();
    ghost var crlf := Byte(CR, Byte(LF, End));
    EncodeTagAndBody(c, ctx, crlf);
    ghost var items, text := ctx.items, ctx.accumulator;
    ctx.WriteAll([CR, LF]);
    all := ctx.IntoItems();
    Completed(c, items, text, all);
  }

  lemma FeedIsBytes(s: bytes, w: Wire)
    requires Feed(s, End) == w
    ensures s == Bytes(w)
  {
    BytesFrom(s, 0, End);
    assert s[0..] + [] == s;
  }
}
