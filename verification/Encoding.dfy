/** The encoder: every method appends to a context what the grammar writes for a value. The
    ghost parameter of each method stands for what will be written behind the value. */
module Encoding {
  import opened Octets
  import opened Nom
  import opened Quoting
  import opened Announcements
  import opened Strings
  import opened SequenceSets
  import opened SequenceCodec
  import opened Dates
  import opened Contexts

  // ----- Primitives -----

  lemma {:induction false} AsciiFeeds(t: string, k: nat, rest: Wire)
    requires k <= |t|
    ensures FeedFrom(Ascii(t), k, rest) == TextFrom(t, k, rest)
    decreases |t| - k
  {
    if k < |t| {
      AsciiFeeds(t, k + 1, rest);
    }
  }

  predicate PlainText(t: string) {
    forall k | 0 <= k < |t| :: IsPlain(Octet(t[k]))
  }

  method WriteBytes(buf: bytes, ctx: EncodeContext, ghost rest: Wire)
    modifies ctx
    ensures old(ctx.Valid()) && Neutral(buf) ==> ctx.Valid()
    ensures Feed(ctx.Dump(), rest) == Feed(old(ctx.Dump()), Feed(buf, rest))
    ensures ctx.Fits() == old(ctx.Fits())
  {
    if ctx.Valid() && Neutral(buf) {
      NeutralConcat(ctx.accumulator, buf);
    }
    ghost var before := ctx.Dump();
    ctx.WriteAll(buf);
    assert ctx.Dump() == before + buf;
    FeedConcat(before, buf, rest);
  }

  method WriteText(t: string, ctx: EncodeContext, ghost rest: Wire)
    modifies ctx
    ensures old(ctx.Valid()) && PlainText(t) ==> ctx.Valid()
    ensures Feed(ctx.Dump(), rest) == Feed(old(ctx.Dump()), Text(t, rest))
    ensures ctx.Fits() == old(ctx.Fits())
  {
    if PlainText(t) {
      PlainIsNeutral(Ascii(t));
    }
    WriteBytes(Ascii(t), ctx, rest);
    AsciiFeeds(t, 0, rest);
  }

  method WriteByte(b: byte, ctx: EncodeContext, ghost rest: Wire)
    modifies ctx
    ensures old(ctx.Valid()) && IsPlain(b) ==> ctx.Valid()
    ensures Feed(ctx.Dump(), rest) == Feed(old(ctx.Dump()), Byte(b, rest))
    ensures ctx.Fits() == old(ctx.Fits())
  {
    if IsPlain(b) {
      PlainIsNeutral([b]);
    }
    WriteBytes([b], ctx, rest);
    FeedOne(b, rest);
  }

  // ----- Strings -----

  method EncodeNumber(n: nat, ctx: EncodeContext, ghost rest: Wire)
    modifies ctx
    ensures old(ctx.Valid()) ==> ctx.Valid()
    ensures Feed(ctx.Dump(), rest) == Feed(old(ctx.Dump()), PutNat(n, rest))
    ensures ctx.Fits() == old(ctx.Fits())
  {
    ShowNatReads(n);
    DigitsArePlain(ShowNat(n));
    WriteBytes(ShowNat(n), ctx, rest);
  }

  lemma DigitsArePlain(s: bytes)
    requires All(IsDigit, s)
    ensures Neutral(s)
  {
    forall k | 0 <= k < |s| ensures IsPlain(s[k]) {
      assert IsDigit(s[k]);
    }
    PlainIsNeutral(s);
  }

  /** A line with the announcement, and the data as a fragment of its own. */
  method EncodeLiteral(l: Literal, ctx: EncodeContext, ghost rest: Wire)
    modifies ctx
    ensures old(ctx.Valid()) ==> ctx.Valid()
    ensures Feed(ctx.Dump(), rest) == Feed(old(ctx.Dump()), PutLiteral(l, rest))
    ensures ctx.Fits() == (old(ctx.Fits()) && |l.data| <= U32_MAX)
  {
    ghost var items, text, before := ctx.items, ctx.accumulator, ctx.Dump();
    match l.mode {
      case Sync => ctx.WriteAll([LBRACE] + ShowNat(|l.data|) + [RBRACE] + [CR, LF]);
      case NonSync => ctx.WriteAll([LBRACE] + ShowNat(|l.data|) + [PLUS, RBRACE] + [CR, LF]);
    }
    ctx.PushLine();
    ctx.WriteAll(l.data);
    ctx.PushLiteral(l.mode);
    LiteralAppended(items, text, l, ctx.items, rest);
    assert ctx.Dump() == DataOf(ctx.items);
  }

  lemma LiteralAppended(items: seq<Fragment>, text: bytes, l: Literal, after: seq<Fragment>, rest: Wire)
    requires after == items + [LineFragment(text + AnnouncementBytes(ShowNat(|l.data|), l.mode))]
                            + [LiteralFragment([] + l.data, l.mode)]
    ensures Paired(items) && Neutral(text) ==> Paired(after)
    ensures Announceable(after) <==> Announceable(items) && |l.data| <= U32_MAX
    ensures Feed(DataOf(after), rest) == Feed(DataOf(items) + text, PutLiteral(l, rest))
  {
    var announcement := AnnouncementBytes(ShowNat(|l.data|), l.mode);
    var line, literal := LineFragment(text + announcement), LiteralFragment(l.data, l.mode);
    assert [] + l.data == l.data;
    assert after == items + [line] + [literal];
    AnnounceableAppend(items, line);
    AnnounceableAppend(items + [line], literal);
    DataOfAppend(items, line);
    DataOfAppend(items + [line], literal);
    if Paired(items) && Neutral(text) {
      TwoMore(items, line, literal);
      assert Announcer(literal) == announcement;
      PairedAppend(items, line, literal);
    }
    LiteralFeeds(DataOf(items), text, announcement, l.data, rest);
    AnnouncementFeeds(|l.data|, l.mode, Feed(l.data, rest));
  }

  lemma TwoMore<T>(items: seq<T>, a: T, b: T)
    ensures items + [a] + [b] == items + [a, b]
  {
  }

  lemma LiteralFeeds(before: bytes, text: bytes, announcement: bytes, data: bytes, rest: Wire)
    ensures Feed(before + (text + announcement) + data, rest)
         == Feed(before + text, Feed(announcement, Feed(data, rest)))
  {
    FeedConcat(before + (text + announcement), data, rest);
    assert before + (text + announcement) == (before + text) + announcement;
    FeedConcat(before + text, announcement, Feed(data, rest));
  }

  lemma AnnouncementFeeds(n: nat, mode: LiteralMode, rest: Wire)
    ensures Feed(AnnouncementBytes(ShowNat(n), mode), rest) == PutPrefix(n, mode, rest)
  {
    var crlf := Byte(CR, Byte(LF, rest));
    FeedConcat([LBRACE] + ShowNat(n) + AnnouncementTail(mode), [CR, LF], rest);
    FeedTwo(CR, LF, rest);
    FeedConcat([LBRACE] + ShowNat(n), AnnouncementTail(mode), crlf);
    FeedTail(mode, crlf);
    FeedConcat([LBRACE], ShowNat(n), PutTail(mode, crlf));
    FeedOne(LBRACE, Feed(ShowNat(n), PutTail(mode, crlf)));
  }

  lemma FeedTwo(a: byte, b: byte, rest: Wire)
    ensures Feed([a, b], rest) == Byte(a, Byte(b, rest))
  {
    assert [a, b] == [a] + [b];
    FeedConcat([a], [b], rest);
    FeedOne(a, Feed([b], rest));
    FeedOne(b, rest);
  }

  lemma FeedTail(mode: LiteralMode, rest: Wire)
    ensures Feed(AnnouncementTail(mode), rest) == PutTail(mode, rest)
  {
    if mode == NonSync {
      FeedTwo(PLUS, RBRACE, rest);
    } else {
      FeedOne(RBRACE, rest);
    }
  }

  method EncodeQuoted(text: bytes, ctx: EncodeContext, ghost rest: Wire)
    modifies ctx
    ensures old(ctx.Valid()) && ValidQuoted(text) ==> ctx.Valid()
    ensures Feed(ctx.Dump(), rest) == Feed(old(ctx.Dump()), PutQuoted(text, rest))
    ensures ctx.Fits() == old(ctx.Fits())
  {
    var escaped := EscapeQuotedInPasses(text);
    EscapeIsBytewise(text);
    if ValidQuoted(text) {
      EscapeHasNoLf(text);
      LfFreeMeaning(escaped);
      QuotedIsNeutral(escaped);
    }
    WriteBytes([DQUOTE] + escaped + [DQUOTE], ctx, rest);
    FeedConcat([DQUOTE] + escaped, [DQUOTE], rest);
    FeedOne(DQUOTE, rest);
    FeedConcat([DQUOTE], escaped, Byte(DQUOTE, rest));
    FeedOne(DQUOTE, Feed(escaped, Byte(DQUOTE, rest)));
  }

  lemma {:induction false} EscapeHasNoLf(text: bytes)
    requires ValidQuoted(text)
    ensures forall k | 0 <= k < |Escape(text)| :: Escape(text)[k] != LF
  {
    if text != [] {
      var t := text[1..];
      forall k | 0 <= k < |t| ensures IsTextChar(t[k]) {
        assert t[k] == text[k + 1];
      }
      EscapeHasNoLf(t);
      assert IsTextChar(text[0]);
    }
  }

  method EncodeIString(s: IString, ctx: EncodeContext, ghost rest: Wire)
    modifies ctx
    ensures old(ctx.Valid()) && ValidIString(s) ==> ctx.Valid()
    ensures Feed(ctx.Dump(), rest) == Feed(old(ctx.Dump()), PutIString(s, rest))
    ensures ctx.Fits() == (old(ctx.Fits()) && FitsIString(s))
  {
    match s {
      case LiteralString(l) => EncodeLiteral(l, ctx, rest);
      case QuotedString(text) => EncodeQuoted(text, ctx, rest);
    }
  }

  method EncodeNString(s: NString, ctx: EncodeContext, ghost rest: Wire)
    modifies ctx
    ensures old(ctx.Valid()) && ValidNString(s) ==> ctx.Valid()
    ensures Feed(ctx.Dump(), rest) == Feed(old(ctx.Dump()), PutNString(s, rest))
    ensures ctx.Fits() == (old(ctx.Fits()) && FitsNString(s))
  {
    match s.inner {
      case Some(inner) => EncodeIString(inner, ctx, rest);
      case None => WriteText("NIL", ctx, rest);
    }
  }

  lemma AtomIsNeutral(text: bytes)
    requires ValidAtomExt(text)
    ensures Neutral(text)
  {
    forall k | 0 <= k < |text| ensures IsPlain(text[k]) {
      assert IsAStringChar(text[k]);
    }
    PlainIsNeutral(text);
  }

  /** Atoms, atoms with brackets, and tags: the class of their bytes excludes line ends and
      braces. */
  method EncodeAtom(text: bytes, ctx: EncodeContext, ghost rest: Wire)
    modifies ctx
    ensures old(ctx.Valid()) && ValidAtomExt(text) ==> ctx.Valid()
    ensures Feed(ctx.Dump(), rest) == Feed(old(ctx.Dump()), Feed(text, rest))
    ensures ctx.Fits() == old(ctx.Fits())
  {
    if ValidAtomExt(text) {
      AtomIsNeutral(text);
    }
    WriteBytes(text, ctx, rest);
  }

  method EncodeAString(s: AString, ctx: EncodeContext, ghost rest: Wire)
    modifies ctx
    ensures old(ctx.Valid()) && ValidAString(s) ==> ctx.Valid()
    ensures Feed(ctx.Dump(), rest) == Feed(old(ctx.Dump()), PutAString(s, rest))
    ensures ctx.Fits() == (old(ctx.Fits()) && FitsAString(s))
  {
    match s {
      case AtomString(text) => EncodeAtom(text, ctx, rest);
      case StringString(inner) => EncodeIString(inner, ctx, rest);
    }
  }

  // ----- Sequence sets -----

  method EncodeSeqOrUid(a: SeqOrUid, ctx: EncodeContext, ghost rest: Wire)
    modifies ctx
    ensures old(ctx.Valid()) ==> ctx.Valid()
    ensures Feed(ctx.Dump(), rest) == Feed(old(ctx.Dump()), PutSeqOrUid(a, rest))
    ensures ctx.Fits() == old(ctx.Fits())
  {
    match a {
      case Value(n) => EncodeNumber(n, ctx, rest);
      case Asterisk => WriteByte(ASTERISK, ctx, rest);
    }
  }

  method EncodeSequence(s: Sequence, ctx: EncodeContext, ghost rest: Wire)
    modifies ctx
    ensures old(ctx.Valid()) ==> ctx.Valid()
    ensures Feed(ctx.Dump(), rest) == Feed(old(ctx.Dump()), PutSequence(s, rest))
    ensures ctx.Fits() == old(ctx.Fits())
  {
    match s {
      case Single(a) => EncodeSeqOrUid(a, ctx, rest);
      case Range(a, b) =>
        EncodeSeqOrUid(a, ctx, Byte(COLON, PutSeqOrUid(b, rest)));
        WriteByte(COLON, ctx, PutSeqOrUid(b, rest));
        EncodeSeqOrUid(b, ctx, rest);
    }
  }

  /** The sequences of a set, with commas between them. */
  method EncodeSequenceSet(set_: seq<Sequence>, ctx: EncodeContext, ghost rest: Wire)
    requires set_ != []
    modifies ctx
    ensures old(ctx.Valid()) ==> ctx.Valid()
    ensures Feed(ctx.Dump(), rest) == Feed(old(ctx.Dump()), PutSequenceSet(set_, rest))
    ensures ctx.Fits() == old(ctx.Fits())
  {
    var last := |set_| - 1;
    for k := 0 to last
      invariant old(ctx.Valid()) ==> ctx.Valid()
      invariant Feed(ctx.Dump(), PutSequence(set_[k], PutMoreSequences(set_, k + 1, rest)))
             == Feed(old(ctx.Dump()), PutSequenceSet(set_, rest))
      invariant ctx.Fits() == old(ctx.Fits())
    {
      EncodeSequence(set_[k], ctx, PutMoreSequences(set_, k + 1, rest));
      WriteByte(COMMA, ctx, PutSequence(set_[k + 1], PutMoreSequences(set_, k + 2, rest)));
    }
    EncodeSequence(set_[last], ctx, rest);
  }

  // ----- Dates -----

  method EncodeDate(d: Date, ctx: EncodeContext, ghost rest: Wire)
    requires ValidDate(d)
    modifies ctx
    ensures old(ctx.Valid()) ==> ctx.Valid()
    ensures Feed(ctx.Dump(), rest) == Feed(old(ctx.Dump()), PutDate(d, rest))
    ensures ctx.Fits() == old(ctx.Fits())
  {
    ghost var i4 := Feed(Padded(d.year, 4), Byte(DQUOTE, rest));
    ghost var i2 := Text(MonthName(d.month), Byte(HYPHEN, i4));
    WriteByte(DQUOTE, ctx, Feed(Padded(d.day, 2), Byte(HYPHEN, i2)));
    WritePadded(d.day, 2, ctx, Byte(HYPHEN, i2));
    WriteByte(HYPHEN, ctx, i2);
    MonthIsPlain(d.month);
    WriteText(MonthName(d.month), ctx, Byte(HYPHEN, i4));
    WriteByte(HYPHEN, ctx, i4);
    WritePadded(d.year, 4, ctx, Byte(DQUOTE, rest));
    WriteByte(DQUOTE, ctx, rest);
  }

  lemma MonthIsPlain(month: nat)
    ensures PlainText(MonthName(month))
  {
  }

  lemma {:induction false} PaddedIsDigits(n: nat, width: nat)
    ensures All(IsDigit, Padded(n, width))
    decreases width
  {
    if width > 0 {
      PaddedIsDigits(n / 10, width - 1);
    }
  }

  method WritePadded(n: nat, width: nat, ctx: EncodeContext, ghost rest: Wire)
    modifies ctx
    ensures old(ctx.Valid()) ==> ctx.Valid()
    ensures Feed(ctx.Dump(), rest) == Feed(old(ctx.Dump()), Feed(Padded(n, width), rest))
    ensures ctx.Fits() == old(ctx.Fits())
  {
    PaddedIsDigits(n, width);
    DigitsArePlain(Padded(n, width));
    WriteBytes(Padded(n, width), ctx, rest);
  }
}
