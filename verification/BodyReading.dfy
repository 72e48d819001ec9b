/** Reading inverts writing for body structures. */
module BodyReading {
  import opened Octets
  import opened Nom
  import opened Strings
  import opened Quoting
  import opened Envelopes
  import opened BodyFields
  import opened BodyTails
  import opened Bodies

  // ----- A basic part is never taken for a text or message part -----

  predicate IsAlphanumeric(c: char) {
    'A' <= c <= 'Z' || '0' <= c <= '9'
  }

  lemma WordByte(b: byte, c: char)
    requires IsAlphanumeric(c) && LowerCase(b) == LowerCase(Octet(c))
    ensures IsQuotedText(b)
  {
  }

  lemma QuoteStops(i: Wire)
    requires i.Byte? && i.head == DQUOTE
    ensures ReadEscaped(i) == Ok(i, [])
  {
  }

  /** A word that a text prescribes, up to the quote behind it, is the body of a quoted string. */
  lemma {:induction false} WordRuns(t: string, k: nat, n: nat, i: Wire) returns (body: bytes, rest: Wire)
    requires k <= n < |t| && t[n] == '"'
    requires forall j | k <= j < n :: IsAlphanumeric(t[j])
    requires TagFrom(t, k, i).Ok?
    ensures ReadEscaped(i) == Ok(Byte(DQUOTE, rest), body)
    ensures TagFrom(t, n + 1, rest) == TagFrom(t, k, i)
    decreases n - k
  {
    assert i.Byte? && LowerCase(i.head) == LowerCase(Octet(t[k]));
    if k < n {
      body, rest := WordRuns(t, k + 1, n, i.tail);
      WordByte(i.head, t[k]);
      PlainByte(i.head, i.tail);
      body := [i.head] + body;
    } else {
      QuoteStops(i);
      body, rest := [], i.tail;
    }
  }

  lemma {:induction false} QuotedWord(t: string, k: nat, n: nat, i: Wire) returns (value: IString, rest: Wire)
    requires k < n < |t| && t[k] == '"' && t[n] == '"'
    requires forall j | k < j < n :: IsAlphanumeric(t[j])
    requires TagFrom(t, k, i).Ok?
    ensures ReadString(i) == Ok(rest, value) && TagFrom(t, n + 1, rest) == TagFrom(t, k, i)
  {
    assert i.Byte? && LowerCase(i.head) == LowerCase(Octet(t[k]));
    var body;
    body, rest := WordRuns(t, k + 1, n, i.tail);
    value := QuotedBody(i.tail, body, rest);
    assert i == Byte(DQUOTE, i.tail);
  }

  lemma QuotedBody(i: Wire, body: bytes, rest: Wire) returns (value: IString)
    requires ReadEscaped(i) == Ok(Byte(DQUOTE, rest), body)
    ensures ReadString(Byte(DQUOTE, i)) == Ok(rest, value)
  {
    value := QuotedString(UnescapeQuoted(body));
  }

  /** A text that goes on with a space. */
  lemma SpaceInTag(t: string, k: nat, i: Wire)
    requires k < |t| && t[k] == ' '
    requires TagFrom(t, k, i).Ok?
    ensures i.Byte? && i == Byte(SP, i.tail) && TagFrom(t, k + 1, i.tail) == TagFrom(t, k, i)
  {
    assert i.Byte? && LowerCase(i.head) == LowerCase(Octet(t[k]));
  }

  lemma TextTag(i: Wire) returns (kind: IString)
    requires TagNoCase("\"TEXT\" ", i).Ok?
    ensures ReadString(i) == Ok(Byte(SP, TagNoCase("\"TEXT\" ", i).rest), kind)
  {
    var t := "\"TEXT\" ";
    var rest;
    kind, rest := QuotedWord(t, 0, 5, i);
    SpaceInTag(t, 6, rest);
  }

  lemma {:induction false} MessageTag(i: Wire) returns (kind: IString, subtype: IString, j: Wire)
    requires TagNoCase("\"MESSAGE\" \"RFC822\"", i).Ok?
    ensures ReadString(i) == Ok(Byte(SP, j), kind)
    ensures ReadString(j) == Ok(TagNoCase("\"MESSAGE\" \"RFC822\"", i).rest, subtype)
  {
    var t := "\"MESSAGE\" \"RFC822\"";
    var rest;
    kind, rest := MessageWord(t, i);
    SpaceInTag(t, 9, rest);
    j := rest.tail;
    subtype := Rfc822Word(t, j);
  }

  lemma MessageWord(t: string, i: Wire) returns (kind: IString, rest: Wire)
    requires t == "\"MESSAGE\" \"RFC822\"" && TagFrom(t, 0, i).Ok?
    ensures ReadString(i) == Ok(rest, kind) && TagFrom(t, 9, rest) == TagFrom(t, 0, i)
  {
    kind, rest := QuotedWord(t, 0, 8, i);
  }

  lemma Rfc822Word(t: string, i: Wire) returns (subtype: IString)
    requires t == "\"MESSAGE\" \"RFC822\"" && TagFrom(t, 10, i).Ok?
    ensures ReadString(i) == Ok(TagFrom(t, 10, i).rest, subtype)
  {
    var rest;
    subtype, rest := QuotedWord(t, 10, 17, i);
  }

  /** A text is only left undecided by an input that is shorter. */
  lemma {:induction false} TagUndecided(t: string, k: nat, i: Wire)
    requires k <= |t|
    ensures TagFrom(t, k, i).Incomplete? ==> Size(i) < |t| - k
    ensures !TagFrom(t, k, i).Failure?
    decreases |t| - k
  {
    if k < |t| && i.Byte? {
      TagUndecided(t, k + 1, i.tail);
    }
  }

  lemma {:induction false} FeedSize(s: bytes, k: nat, rest: Wire)
    requires k <= |s|
    ensures Size(FeedFrom(s, k, rest)) == |s| - k + Size(rest)
    decreases |s| - k
  {
    if k < |s| {
      FeedSize(s, k + 1, rest);
    }
  }

  lemma {:induction false} TextSize(t: string, k: nat, rest: Wire)
    requires k <= |t|
    ensures Size(TextFrom(t, k, rest)) == |t| - k + Size(rest)
    decreases |t| - k
  {
    if k < |t| {
      TextSize(t, k + 1, rest);
    }
  }

  // ----- How long texts are at least -----

  lemma NumberSize(n: nat, i: Wire, rest: Wire)
    requires NumberText(n, i, rest)
    ensures Size(i) >= 1 + Size(rest)
  {
    var digits :| IsNumeral(digits) && DecimalValue(digits) == n && i == Feed(digits, rest);
    FeedSize(digits, 0, rest);
  }

  lemma EndSize(mode: LiteralMode, rest: Wire)
    ensures Size(AnnouncementEnd(mode, rest)) >= 3 + Size(rest)
  {
    var lf := Byte(LF, rest);
    var crlf := Byte(CR, lf);
    assert Size(crlf) == 1 + Size(lf);
    assert Size(Byte(RBRACE, crlf)) == 1 + Size(crlf);
  }

  lemma StringSize(s: IString, i: Wire, rest: Wire)
    requires StringText(s, i, rest)
    ensures Size(i) >= 2 + Size(rest)
  {
    match s
    case LiteralString(l) =>
      NumberSize(|l.data|, i.tail, AnnouncementEnd(l.mode, Feed(l.data, rest)));
      EndSize(l.mode, Feed(l.data, rest));
      FeedSize(l.data, 0, rest);
    case QuotedString(text) => FeedSize(Quoting.Escape(text), 0, Byte(DQUOTE, rest));
  }

  lemma WordSize(t: string, i: Wire, rest: Wire)
    requires WordText(t, i, rest)
    ensures Size(i) == |t| + Size(rest)
  {
    var s :| Spells(s, t) && i == Feed(s, rest);
    FeedSize(s, 0, rest);
  }

  lemma NStringSize(s: NString, i: Wire, rest: Wire)
    requires NStringText(s, i, rest)
    ensures Size(i) >= 2 + Size(rest)
  {
    match s.inner
    case None => WordSize("NIL", i, rest);
    case Some(inner) => StringSize(inner, i, rest);
  }

  lemma NStringsSize(s: (NString, NString), i: Wire, rest: Wire)
    requires NStringsText(s, i, rest)
    ensures Size(i) >= 5 + Size(rest)
  {
    var j :| GoodNStringText(s.0, i, Byte(SP, j)) && GoodNStringText(s.1, j, rest);
    NStringSize(s.0, i, Byte(SP, j));
    NStringSize(s.1, j, rest);
  }

  lemma ParameterSize(p: (IString, IString), i: Wire, rest: Wire)
    requires ParameterText(p, i, rest)
    ensures Size(i) >= 5 + Size(rest)
  {
    var j :| GoodStringText(p.0, i, Byte(SP, j)) && GoodStringText(p.1, j, rest);
    StringSize(p.0, i, Byte(SP, j));
    StringSize(p.1, j, rest);
  }

  lemma {:induction false} StandingSize(list: Parameters, text: nat -> Wire, m: nat, rest: Wire)
    requires StandsSeparated(SP, ParameterText, list, text, rest) && m < |list|
    ensures Size(text(m)) >= Size(rest)
    decreases |list| - m
  {
    var next := if m + 1 < |list| then Byte(SP, text(m + 1)) else rest;
    assert ParameterText(list[m], text(m), next);
    ParameterSize(list[m], text(m), next);
    if m + 1 < |list| {
      StandingSize(list, text, m + 1, rest);
    }
  }

  lemma ParametersSize(list: Parameters, i: Wire, rest: Wire)
    requires ParametersText(list, i, rest)
    ensures Size(i) >= 2 + Size(rest)
  {
    if EnclosedText(ParameterListText, list, i, rest) {
      if list != [] {
        var text: nat -> Wire :| StandsSeparated(SP, ParameterText, list, text, Byte(RPAREN, rest)) && text(0) == i.tail;
        StandingSize(list, text, 0, Byte(RPAREN, rest));
      }
    } else {
      WordSize("NIL", i, rest);
    }
  }

  lemma FieldsSize(f: BasicFields, i: Wire, rest: Wire)
    requires FieldsText(f, i, rest)
    ensures Size(i) >= 13 + Size(rest)
  {
    var j :|
      && PairText(ParametersText, NStringsText, f.parameters, (f.id, f.description), i, Byte(SP, j))
      && SizeText((f.encoding, f.size), j, rest);
    var l :| ParametersText(f.parameters, i, Byte(SP, l)) && NStringsText((f.id, f.description), l, Byte(SP, j));
    ParametersSize(f.parameters, i, Byte(SP, l));
    NStringsSize((f.id, f.description), l, Byte(SP, j));
    var n :| GoodStringText(f.encoding, j, Byte(SP, n)) && U32Text(f.size, n, rest);
    StringSize(f.encoding, j, Byte(SP, n));
    NumberSize(f.size, n, rest);
  }

  // ----- A basic part -----

  /** What may follow a part: its extension data or the closing parenthesis. */
  predicate EndsPart(tail: Wire) {
    tail.Byte? && (tail.head == RPAREN ||
      (tail.head == SP && tail.tail.Byte? && !IsDigit(tail.tail.head) && tail.tail.head != LPAREN))
  }

  lemma NStringHead(s: NString, i: Wire, rest: Wire)
    requires NStringText(s, i, rest)
    ensures i.Byte? && !IsDigit(i.head) && i.head != LPAREN
  {
    if s.inner.None? {
      WordIsNoString(i, rest);
    }
  }

  lemma TailEndsPart(ext: Option<SinglePartExtension>, i: Wire, rest: Wire)
    requires SingleTailText(ext, i, rest) && Closes(rest)
    ensures EndsPart(i)
  {
    if ext.Some? {
      var x := ext.value;
      if x.tail.Some? {
        var j :| GoodNStringText(x.md5, i.tail, Byte(SP, j)) && DispositionText(x.tail.value, j, rest);
        NStringHead(x.md5, i.tail, Byte(SP, j));
      } else {
        NStringHead(x.md5, i.tail, rest);
      }
    }
  }

  /** Where the subtype and the fields of a basic part stand. */
  lemma BasicAt(basic: BasicFields, kind: IString, subtype: IString, i: Wire, rest: Wire) returns (w: Wire, v: Wire)
    requires BasicText(basic, kind, subtype, i, rest)
    ensures GoodStringText(kind, i, Byte(SP, w)) && GoodStringText(subtype, w, Byte(SP, v)) && FieldsText(basic, v, rest)
  {
    v :| ParameterText((kind, subtype), i, Byte(SP, v)) && FieldsText(basic, v, rest);
    w :| GoodStringText(kind, i, Byte(SP, w)) && GoodStringText(subtype, w, Byte(SP, v));
  }

  lemma BasicSize(basic: BasicFields, kind: IString, subtype: IString, i: Wire, rest: Wire)
    requires BasicText(basic, kind, subtype, i, rest)
    ensures Size(i) >= 19
  {
    var w, v := BasicAt(basic, kind, subtype, i, rest);
    FieldsSize(basic, v, rest);
    StringSize(subtype, w, Byte(SP, v));
    StringSize(kind, i, Byte(SP, w));
  }

  lemma NumberNeedsDigit(i: Wire)
    requires i.Byte? && !IsDigit(i.head)
    ensures ReadLines(i) == Error
  {
  }

  lemma FieldsReadOne(f: BasicFields, i: Wire, rest: Wire)
    requires FieldsText(f, i, rest) && EndsNumber(rest)
    ensures ReadFields(i) == Ok(rest, f)
  {
    FieldsRead();
  }

  lemma {:induction false} NoLines(subtype: IString, basic: BasicFields, w: Wire, v: Wire, tail: Wire)
    requires GoodStringText(subtype, w, Byte(SP, v)) && FieldsText(basic, v, tail)
    requires EndsPart(tail)
    ensures Triple(ReadString, ReadFields, ReadLines, w) == Error
  {
    StringReads(subtype, w, Byte(SP, v));
    FieldsReadOne(basic, v, tail);
    if tail.head == SP {
      NumberNeedsDigit(tail.tail);
    }
    assert Pair(ReadFields, ReadLines, v) == Error;
  }

  lemma {:induction false} BasicIsNoText(basic: BasicFields, kind: IString, subtype: IString, i: Wire, tail: Wire)
    requires BasicText(basic, kind, subtype, i, tail)
    requires EndsPart(tail)
    ensures ReadTextPart(i) == Error
  {
    var w, v := BasicAt(basic, kind, subtype, i, tail);
    TagUndecided("\"TEXT\" ", 0, i);
    BasicSize(basic, kind, subtype, i, tail);
    if TagNoCase("\"TEXT\" ", i).Ok? {
      var word := TextTag(i);
      StringReads(kind, i, Byte(SP, w));
      NoLines(subtype, basic, w, v, tail);
    }
  }

  lemma {:induction false} NoEnvelope(basic: BasicFields, v: Wire, tail: Wire)
    requires FieldsText(basic, v, tail)
    requires EndsPart(tail)
    ensures Pair(ReadFields, ReadEnvelope, v) == Error
  {
    FieldsReadOne(basic, v, tail);
    if tail.head == SP {
      assert ReadEnvelope(tail.tail) == Error;
    }
  }

  lemma {:induction false} BasicIsNoMessage(basic: BasicFields, kind: IString, subtype: IString, i: Wire, tail: Wire)
    requires BasicText(basic, kind, subtype, i, tail)
    requires EndsPart(tail)
    ensures ReadMessageHead(i) == Error
  {
    var w, v := BasicAt(basic, kind, subtype, i, tail);
    TagUndecided("\"MESSAGE\" \"RFC822\"", 0, i);
    BasicSize(basic, kind, subtype, i, tail);
    if TagNoCase("\"MESSAGE\" \"RFC822\"", i).Ok? {
      var word, second, j := MessageTag(i);
      StringReads(kind, i, Byte(SP, w));
      StringReads(subtype, w, Byte(SP, v));
      NoEnvelope(basic, v, tail);
    }
  }

  lemma {:induction false} BasicReads(basic: BasicFields, kind: IString, subtype: IString, i: Wire, tail: Wire)
    requires BasicText(basic, kind, subtype, i, tail)
    requires EndsPart(tail)
    ensures ReadBasicPart(i) == Ok(tail, (basic, Basic(kind, subtype)))
  {
    ParameterReads();
    FieldsRead();
    PairTextReads(ReadStringPair, ReadFields, ParameterText, FieldsText, More, EndsNumber, (kind, subtype), basic, i, tail);
  }

  /** A part is read by the first form that fits it, and that is its own: a basic part is read
      as such even when its type is literally TEXT or MESSAGE. */
  lemma {:induction false} BasicPartReads(basic: BasicFields, kind: IString, subtype: IString, i: Wire, tail: Wire)
    requires BasicText(basic, kind, subtype, i, tail)
    requires EndsPart(tail)
    ensures ReadPart(i) == Ok(tail, (basic, Basic(kind, subtype)))
  {
    BasicIsNoMessage(basic, kind, subtype, i, tail);
    BasicIsNoText(basic, kind, subtype, i, tail);
    BasicReads(basic, kind, subtype, i, tail);
    FirstFails(i);
  }

  // ----- Text and message parts -----

  lemma {:induction false} LinedReads(basic: BasicFields, lines: U32, i: Wire, tail: Wire)
    requires LinedText(basic, lines, i, tail) && EndsNumber(tail)
    ensures Pair(ReadFields, ReadLines, i) == Ok(tail, (basic, lines))
  {
    var n :| FieldsText(basic, i, Byte(SP, n)) && U32Text(lines, n, tail);
    FieldsReadOne(basic, i, Byte(SP, n));
    NumberReads(lines, n, tail);
    PairReads(ReadFields, ReadLines, i, n, tail, basic, lines);
  }

  lemma {:induction false} TextFieldsRead(basic: BasicFields, subtype: IString, lines: U32, i: Wire, tail: Wire)
    requires TextFieldsText(basic, subtype, lines, i, tail) && EndsNumber(tail)
    ensures Triple(ReadString, ReadFields, ReadLines, i) == Ok(tail, (subtype, basic, lines))
  {
    var v :| GoodStringText(subtype, i, Byte(SP, v)) && LinedText(basic, lines, v, tail);
    StringReads(subtype, i, Byte(SP, v));
    LinedReads(basic, lines, v, tail);
  }

  lemma {:induction false} TextFormReads(basic: BasicFields, subtype: IString, lines: U32, i: Wire, tail: Wire)
    requires TextPartText(basic, subtype, lines, i, tail) && EndsNumber(tail)
    ensures ReadTextPart(i) == Ok(tail, (basic, TextPart(subtype, lines)))
    ensures ReadMessageHead(i) == Error
  {
    var j :| WordText("\"TEXT\" ", i, j) && TextFieldsText(basic, subtype, lines, j, tail);
    TagIsWord("\"TEXT\" ", i, j);
    TextFieldsRead(basic, subtype, lines, j, tail);
    TextIsNoMessage(i, j);
  }

  lemma {:induction false} TextIsNoMessage(i: Wire, j: Wire)
    requires WordText("\"TEXT\" ", i, j)
    ensures ReadMessageHead(i) == Error
  {
    var message, text := "\"MESSAGE\" \"RFC822\"", "\"TEXT\" ";
    assert LowerCase(Octet(message[1])) != LowerCase(Octet(text[1]));
    WordRejects(message, text, i, j);
  }

  lemma FirstFails(i: Wire)
    requires ReadMessageHead(i) == Error
    ensures ReadPart(i) == Alt(ReadTextPart(i), ReadBasicPart(i))
  {
  }

  lemma {:induction false} TextPartReads(basic: BasicFields, subtype: IString, lines: U32, i: Wire, tail: Wire)
    requires TextPartText(basic, subtype, lines, i, tail) && EndsNumber(tail)
    ensures ReadPart(i) == Ok(tail, (basic, TextPart(subtype, lines)))
  {
    TextFormReads(basic, subtype, lines, i, tail);
    FirstFails(i);
  }

  lemma {:induction false} MessageHeadReads(basic: BasicFields, envelope: Envelope, i: Wire, w: Wire)
    requires MessageHeadText(basic, envelope, i, w)
    ensures ReadMessageHead(i) == Ok(w, (basic, envelope))
  {
    var j :|
      && WordText("\"MESSAGE\" \"RFC822\"", i, Byte(SP, j))
      && PairText(FieldsText, EnvelopeText, basic, envelope, j, w);
    TagIsWord("\"MESSAGE\" \"RFC822\"", i, Byte(SP, j));
    HeadFieldsRead(basic, envelope, j, w);
  }

  lemma {:induction false} HeadFieldsRead(basic: BasicFields, envelope: Envelope, j: Wire, w: Wire)
    requires PairText(FieldsText, EnvelopeText, basic, envelope, j, w)
    ensures Pair(ReadFields, ReadEnvelope, j) == Ok(w, (basic, envelope))
  {
    var v := PairPlaces(FieldsText, EnvelopeText, basic, envelope, j, w);
    FieldsReadOne(basic, j, Byte(SP, v));
    EnvelopeReadsOne(envelope, v, w);
    PairReads(ReadFields, ReadEnvelope, j, v, w, basic, envelope);
  }

  lemma EnvelopeReadsOne(e: Envelope, i: Wire, rest: Wire)
    requires EnvelopeText(e, i, rest)
    ensures ReadEnvelope(i) == Ok(rest, e)
  {
    EnvelopeReads();
  }

  /** An embedded message is read when its body is. */
  lemma {:induction false} MessagePartReads(
      i: Wire, basic: BasicFields, envelope: Envelope, body: BodyStructure, lines: U32, fits: bool, j: Wire, k: Wire,
      tail: Wire)
    requires EndsNumber(tail) && U32Text(lines, k, tail)
    requires ReadMessageHead(i) == Ok(Byte(SP, j), (basic, envelope))
    requires ReadBody(MESSAGE_LEVELS - 1, j) == Limited(fits, Byte(SP, k), body)
    ensures ReadPart(i) == Limited(fits, tail, (basic, Message(envelope, body, lines)))
  {
    NumberReads(lines, k, tail);
    assert ReadMessagePart(MESSAGE_LEVELS, i) == Limited(fits, tail, (basic, Message(envelope, body, lines)));
  }

  // ----- Whole bodies -----

  lemma {:induction false} SingleTailReads(ext: Option<SinglePartExtension>, i: Wire, rest: Wire)
    requires SingleTailText(ext, i, rest)
    requires Closes(rest)
    ensures Opt(Behind(ReadSingle, i), i) == Limited(ext.Some? ==> SingleWithin(ext.value), rest, ext)
  {
    if ext.Some? {
      SingleReads(ext.value, i.tail, rest);
    }
  }

  lemma {:induction false} SinglePartReads(r: nat, i: Wire, b: BodyStructure, fits: bool, j: Wire, rest: Wire)
    requires r > 0 && b.Single?
    requires SingleTailText(b.single, j, rest) && Closes(rest)
    requires ReadPart(i) == Limited(fits, j, (b.basic, b.specific))
    ensures ReadSinglePart(r, i) == Limited(fits && (b.single.Some? ==> SingleWithin(b.single.value)), rest, b)
  {
    SingleTailReads(b.single, j, rest);
  }

  lemma {:induction false} SubtypeReads(b: BodyStructure, j: Wire, rest: Wire)
    requires b.Multi? && SubtypeText(b, j, rest)
    requires Closes(rest)
    ensures WithTail(ReadString, ReadMulti, j)
         == Limited(b.multi.Some? ==> MultiWithin(b.multi.value), rest, (b.subtype, b.multi))
  {
    GoodStringsRead();
    var fits := b.multi.Some? ==> MultiWithin(b.multi.value);
    if b.multi.Some? {
      forall l {:trigger MultiText(b.multi.value, l, rest)} | MultiText(b.multi.value, l, rest)
        ensures ReadMulti(l) == Limited(fits, rest, b.multi.value)
      {
        MultiReads(b.multi.value, l, rest);
      }
    }
    TailReads(ReadString, ReadMulti, GoodStringText, MultiText, b.subtype, b.multi, j, rest, fits);
  }

  lemma {:induction false} MultiPartReads(r: nat, i: Wire, b: BodyStructure, fits: bool, j: Wire, rest: Wire)
    requires r > 0 && b.Multi?
    requires SubtypeText(b, j, rest) && Closes(rest)
    requires ReadBodies(r, i) == Limited(fits, Byte(SP, j), b.bodies)
    ensures ReadMultiPart(r, i) == Limited(fits && (b.multi.Some? ==> MultiWithin(b.multi.value)), rest, b)
  {
    SubtypeReads(b, j, rest);
  }

  /** A list of bodies is no single part. */
  lemma NoSinglePart(r: nat, i: Wire)
    requires r > 0
    requires i.Byte? && i.head == LPAREN
    ensures ReadSinglePart(r, i) == Error
  {
    assert ReadMessageHead(i) == Error;
    FirstFails(i);
    assert ReadTextPart(i) == Error;
    assert ReadString(i) == Error;
    assert ReadBasicPart(i) == Error;
  }

  lemma BodiesMeaning(b: BodyStructure, r: nat, fits: nat -> bool)
    requires b.Multi? && r >= 2
    requires forall m: nat | m < |b.bodies| :: fits(m) == Within(b.bodies[m], r - 1)
    ensures Within(b, r)
       <==> (forall m: nat | m < |b.bodies| :: fits(m)) && (b.multi.Some? ==> MultiWithin(b.multi.value))
  {
    if forall m: nat | m < |b.bodies| :: fits(m) {
      assert forall k | 0 <= k < |b.bodies| :: fits(k);
    } else {
      var m: nat :| m < |b.bodies| && !fits(m);
      assert !Within(b.bodies[m], r - 1);
    }
  }

  ghost predicate ReadsBodies(b: BodyStructure, r: nat, text: nat -> Wire)
    requires b.Multi?
  {
    forall m: nat {:trigger BodyReader(r)(text(m))} | m < |b.bodies| ::
      BodyReader(r)(text(m)) == Limited(Within(b.bodies[m], r), text(m + 1), b.bodies[m])
  }

  lemma BodiesRead(
      p: Wire -> Outcome<BodyStructure>, b: BodyStructure, r: nat, text: nat -> Wire, fits: nat -> bool)
    requires Consuming(p) && b.Multi? && b.bodies != []
    requires forall m: nat {:trigger p(text(m))} | m < |b.bodies| ::
      p(text(m)) == Limited(Within(b.bodies[m], r), text(m + 1), b.bodies[m])
    requires forall m: nat | m < |b.bodies| :: fits(m) == Within(b.bodies[m], r)
    requires p(text(|b.bodies|)) == Error
    ensures Many1(p, text(0)) == Limited(forall m: nat | m < |b.bodies| :: fits(m), text(|b.bodies|), b.bodies)
  {
    Many1Judged(p, text, b.bodies, fits, RecursionLimitExceeded);
  }

  lemma BodyListReads(b: BodyStructure, r: nat, text: nat -> Wire, fits: nat -> bool)
    requires b.Multi? && b.bodies != [] && r > 0
    requires ReadsBodies(b, r, text)
    requires forall m: nat | m < |b.bodies| :: fits(m) == Within(b.bodies[m], r)
    requires text(|b.bodies|).Byte? && text(|b.bodies|).head == SP
    ensures ReadBodies(r, text(0)) == Limited(forall m: nat | m < |b.bodies| :: fits(m), text(|b.bodies|), b.bodies)
  {
    assert ReadBody(r, text(|b.bodies|)) == Error;
    BodiesRead(BodyReader(r), b, r, text, fits);
    BodiesAreMany(r, text(0));
  }

  lemma SecondForm(r: nat, i: Wire, b: BodyStructure, fits: bool, rest: Wire)
    requires r >= 2
    requires Starts(i, LPAREN) && Starts(i.tail, LPAREN)
    requires ReadMultiPart(r - 1, i.tail) == Limited(fits, Byte(RPAREN, rest), b)
    ensures ReadBody(r, i) == Limited(fits, rest, b)
  {
    NoSinglePart(r - 1, i.tail);
    assert ReadForms(r - 1, i.tail) == Limited(fits, Byte(RPAREN, rest), b);
  }

  lemma AllBodiesRead(b: BodyStructure, r: nat, text: nat -> Wire) returns (all: bool)
    requires b.Multi? && b.bodies != [] && r > 0
    requires ReadsBodies(b, r, text)
    requires text(|b.bodies|).Byte? && text(|b.bodies|).head == SP
    ensures ReadBodies(r, text(0)) == Limited(all, text(|b.bodies|), b.bodies)
    ensures Within(b, r + 1) <==> all && (b.multi.Some? ==> MultiWithin(b.multi.value))
  {
    ghost var fits := (m: nat) => m < |b.bodies| && Within(b.bodies[m], r);
    all := forall m: nat | m < |b.bodies| :: fits(m);
    BodiesMeaning(b, r + 1, fits);
    BodyListReads(b, r, text, fits);
  }

  lemma FirstForm(r: nat, i: Wire, b: BodyStructure, fits: bool, rest: Wire)
    requires r >= 2 && Starts(i, LPAREN)
    requires ReadSinglePart(r - 1, i.tail) == Limited(fits, Byte(RPAREN, rest), b)
    ensures ReadBody(r, i) == Limited(fits, rest, b)
  {
    assert ReadForms(r - 1, i.tail) == Limited(fits, Byte(RPAREN, rest), b);
  }

  lemma OneLevel(i: Wire)
    requires Starts(i, LPAREN)
    ensures ReadBody(1, i) == Failure(RecursionLimitExceeded)
  {
    assert ReadSinglePart(0, i.tail) == Failure(RecursionLimitExceeded);
    assert ReadForms(0, i.tail) == Failure(RecursionLimitExceeded);
  }

  /** Body structures are read from any of their texts exactly when they are within the limit,
      whatever follows them. */
  lemma {:induction false} BodyReads(b: BodyStructure, r: nat, i: Wire, rest: Wire)
    requires BodyText(b, i, rest)
    ensures ReadBody(r, i) == Limited(Within(b, r), rest, b)
    decreases b, 3
  {
    if r == 1 {
      OneLevel(i);
    } else if r >= 2 {
      if b.Single? {
        SingleStructureReads(b, r, i, rest);
      } else {
        MultiStructureReads(b, r, i, rest);
      }
    }
  }

  lemma {:induction false} SingleStructureReads(b: BodyStructure, r: nat, i: Wire, rest: Wire)
    requires b.Single? && BodyText(b, i, rest) && r >= 2
    ensures ReadBody(r, i) == Limited(Within(b, r), rest, b)
    decreases b, 2
  {
    var j :| PartText(b.basic, b.specific, i.tail, j) && SingleTailText(b.single, j, Byte(RPAREN, rest));
    TailEndsPart(b.single, j, Byte(RPAREN, rest));
    PartReads(b.basic, b.specific, i.tail, j);
    SinglePartReads(r - 1, i.tail, b, PartFits(b.specific), j, Byte(RPAREN, rest));
    FirstForm(r, i, b, Within(b, r), rest);
  }

  predicate PartFits(s: SpecificFields) {
    s.Message? ==> Within(s.body, MESSAGE_LEVELS - 1)
  }

  lemma {:induction false} MultiStructureReads(b: BodyStructure, r: nat, i: Wire, rest: Wire)
    requires b.Multi? && BodyText(b, i, rest) && r >= 2
    ensures ReadBody(r, i) == Limited(Within(b, r), rest, b)
    decreases b, 2
  {
    var text, j := MultiPlaces(b, i, rest);
    EachBodyReads(b, r - 1, text);
    var all := AllBodiesRead(b, r - 1, text);
    MultiPartReads(r - 1, i.tail, b, all, j, Byte(RPAREN, rest));
    SecondForm(r, i, b, Within(b, r), rest);
  }

  /** Where the bodies of a multipart body stand, and its subtype. */
  lemma {:induction false} MultiPlaces(b: BodyStructure, i: Wire, rest: Wire) returns (text: nat -> Wire, j: Wire)
    requires b.Multi? && BodyText(b, i, rest)
    ensures Starts(i, LPAREN) && Starts(i.tail, LPAREN) && b.bodies != []
    ensures BodiesStand(b, text) && text(0) == i.tail && text(|b.bodies|) == Byte(SP, j)
    ensures SubtypeText(b, j, Byte(RPAREN, rest))
  {
    text, j :|
      && BodiesStand(b, text) && text(0) == i.tail && text(|b.bodies|) == Byte(SP, j)
      && TailText(GoodStringText, MultiText, b.subtype, b.multi, j, Byte(RPAREN, rest));
    assert BodyText(b.bodies[0], text(0), text(1));
  }

  ghost predicate SubtypeText(b: BodyStructure, j: Wire, rest: Wire)
    requires b.Multi?
  {
    TailText(GoodStringText, MultiText, b.subtype, b.multi, j, rest)
  }

  lemma {:induction false} PartReads(basic: BasicFields, s: SpecificFields, i: Wire, tail: Wire)
    requires PartText(basic, s, i, tail)
    requires EndsPart(tail)
    ensures ReadPart(i) == Limited(PartFits(s), tail, (basic, s))
    decreases s, 4
  {
    match s
    case Basic(kind, subtype) => BasicPartReads(basic, kind, subtype, i, tail);
    case TextPart(subtype, lines) => TextPartReads(basic, subtype, lines, i, tail);
    case Message(_, _, _) => EmbeddedReads(basic, s, i, tail);
  }

  lemma {:induction false} EmbeddedReads(basic: BasicFields, s: SpecificFields, i: Wire, tail: Wire)
    requires s.Message? && PartText(basic, s, i, tail)
    requires EndsPart(tail)
    ensures ReadPart(i) == Limited(PartFits(s), tail, (basic, s))
    decreases s, 3
  {
    var j, k := EmbeddedPlaces(basic, s, i, tail);
    BodyReads(s.body, MESSAGE_LEVELS - 1, j, Byte(SP, k));
    MessageHeadReads(basic, s.envelope, i, Byte(SP, j));
    MessagePartReads(i, basic, s.envelope, s.body, s.lines, PartFits(s), j, k, tail);
  }

  lemma {:induction false} EmbeddedPlaces(basic: BasicFields, s: SpecificFields, i: Wire, tail: Wire)
      returns (j: Wire, k: Wire)
    requires s.Message? && PartText(basic, s, i, tail)
    ensures MessageHeadText(basic, s.envelope, i, Byte(SP, j))
    ensures BodyText(s.body, j, Byte(SP, k)) && U32Text(s.lines, k, tail)
  {
    j, k :|
      && MessageHeadText(basic, s.envelope, i, Byte(SP, j))
      && BodyText(s.body, j, Byte(SP, k))
      && U32Text(s.lines, k, tail);
  }

  lemma {:induction false} EachBodyReads(b: BodyStructure, r: nat, text: nat -> Wire)
    requires b.Multi? && BodiesStand(b, text)
    ensures ReadsBodies(b, r, text)
    decreases b, 1
  {
    forall m: nat {:trigger BodyReader(r)(text(m))} | m < |b.bodies|
      ensures BodyReader(r)(text(m)) == Limited(Within(b.bodies[m], r), text(m + 1), b.bodies[m])
    {
      BodyReads(b.bodies[m], r, text(m), text(m + 1));
    }
  }

  // ----- What is written is a text -----

  function BodiesFrom(b: BodyStructure, tail: Wire): nat -> Wire
    requires b.Multi?
  {
    (m: nat) => if m <= |b.bodies| then PutBodies(b, m, tail) else tail
  }

  lemma {:induction false} PutSingleTailIsText(ext: Option<SinglePartExtension>, rest: Wire)
    requires ext.Some? ==> GoodSingle(ext.value)
    ensures SingleTailText(ext, PutSingleTail(ext, rest), rest)
  {
    if ext.Some? {
      PutSingleIsText(ext.value, rest);
    }
  }

  lemma {:induction false} PutSubtypeIsText(b: BodyStructure, rest: Wire)
    requires b.Multi? && GoodBody(b)
    ensures TailText(GoodStringText, MultiText, b.subtype, b.multi, PutIString(b.subtype, PutMultiTail(b.multi, rest)), rest)
  {
    PutGoodStringIsText(b.subtype, PutMultiTail(b.multi, rest));
    if b.multi.Some? {
      PutMultiIsText(b.multi.value, rest);
    }
  }

  lemma {:induction false} PutBasicIsText(basic: BasicFields, kind: IString, subtype: IString, rest: Wire)
    requires GoodFields(basic) && GoodString(kind) && GoodString(subtype)
    ensures BasicText(basic, kind, subtype, PutPart(basic, Basic(kind, subtype), rest), rest)
  {
    var v := PutFields(basic, rest);
    PutFieldsIsText(basic, rest);
    PutParameterIsText((kind, subtype), Byte(SP, v));
  }

  lemma {:induction false} PutLinedIsText(basic: BasicFields, lines: U32, rest: Wire)
    requires GoodFields(basic)
    ensures LinedText(basic, lines, PutFields(basic, Byte(SP, PutNat(lines, rest))), rest)
  {
    PutNatIsText(lines, rest);
    PutFieldsIsText(basic, Byte(SP, PutNat(lines, rest)));
  }

  lemma {:induction false} PutTextFieldsIsText(basic: BasicFields, subtype: IString, lines: U32, rest: Wire)
    requires GoodFields(basic) && GoodString(subtype)
    ensures TextFieldsText(basic, subtype, lines,
              PutIString(subtype, Byte(SP, PutFields(basic, Byte(SP, PutNat(lines, rest))))), rest)
  {
    PutLinedIsText(basic, lines, rest);
    PutGoodStringIsText(subtype, Byte(SP, PutFields(basic, Byte(SP, PutNat(lines, rest)))));
  }

  lemma {:induction false} PutTextPartIsText(basic: BasicFields, subtype: IString, lines: U32, rest: Wire)
    requires GoodFields(basic) && GoodString(subtype)
    ensures TextPartText(basic, subtype, lines, PutPart(basic, TextPart(subtype, lines), rest), rest)
  {
    PutTextFieldsIsText(basic, subtype, lines, rest);
    TextIsWord("\"TEXT\" ", PutIString(subtype, Byte(SP, PutFields(basic, Byte(SP, PutNat(lines, rest))))));
  }

  lemma {:induction false} PutMessageHeadIsText(basic: BasicFields, envelope: Envelope, rest: Wire)
    requires GoodFields(basic) && GoodEnvelope(envelope)
    ensures MessageHeadText(basic, envelope,
              Text("\"MESSAGE\" \"RFC822\"", Byte(SP, PutFields(basic, Byte(SP, PutEnvelope(envelope, rest))))), rest)
  {
    var e := PutEnvelope(envelope, rest);
    var v := PutFields(basic, Byte(SP, e));
    PutEnvelopeIsText(envelope, rest);
    PutFieldsIsText(basic, Byte(SP, e));
    TextIsWord("\"MESSAGE\" \"RFC822\"", Byte(SP, v));
  }

  lemma {:induction false} PutPartIsText(basic: BasicFields, s: SpecificFields, rest: Wire)
    requires GoodFields(basic) && GoodSpecific(s)
    ensures PartText(basic, s, PutPart(basic, s, rest), rest)
    decreases s, 4
  {
    match s
    case Basic(kind, subtype) => PutBasicIsText(basic, kind, subtype, rest);
    case TextPart(subtype, lines) => PutTextPartIsText(basic, subtype, lines, rest);
    case Message(envelope, body, lines) =>
      var k := PutNat(lines, rest);
      var j := PutBody(body, Byte(SP, k));
      PutNatIsText(lines, rest);
      assert U32Text(lines, k, rest);
      PutBodyIsText(body, Byte(SP, k));
      PutMessageHeadIsText(basic, envelope, Byte(SP, j));
  }

  lemma {:induction false} PutBodyIsText(b: BodyStructure, rest: Wire)
    requires GoodBody(b)
    ensures BodyText(b, PutBody(b, rest), rest)
    decreases b, 3
  {
    match b
    case Single(basic, specific, ext) =>
      PutSingleTailIsText(ext, Byte(RPAREN, rest));
      PutPartIsText(basic, specific, PutSingleTail(ext, Byte(RPAREN, rest)));
    case Multi(bodies, subtype, ext) =>
      var j := PutIString(subtype, PutMultiTail(ext, Byte(RPAREN, rest)));
      PutSubtypeIsText(b, Byte(RPAREN, rest));
      var text := PutBodiesStand(b, Byte(SP, j));
  }

  lemma {:induction false} PutBodiesStand(b: BodyStructure, tail: Wire) returns (text: nat -> Wire)
    requires b.Multi? && GoodBody(b)
    ensures BodiesStand(b, text)
    ensures text(0) == PutBodies(b, 0, tail) && text(|b.bodies|) == tail
    decreases b, 1
  {
    text := BodiesFrom(b, tail);
    forall m: nat {:trigger b.bodies[m]} | m < |b.bodies| ensures BodyText(b.bodies[m], text(m), text(m + 1)) {
      BodyStands(b, m, tail);
    }
  }

  lemma {:induction false} BodyStands(b: BodyStructure, m: nat, tail: Wire)
    requires b.Multi? && GoodBody(b) && m < |b.bodies|
    ensures BodyText(b.bodies[m], BodiesFrom(b, tail)(m), BodiesFrom(b, tail)(m + 1))
    decreases b, 0
  {
    PutBodyIsText(b.bodies[m], PutBodies(b, m + 1, tail));
  }
}
