/** What is read as a body structure is legal and within the limit. */
module BodyLegality {
  import opened Octets
  import opened Nom
  import opened Strings
  import opened Envelopes
  import opened BodyFields
  import opened BodyTails
  import opened Bodies
  import opened BodyReading

  lemma FieldsSound()
    ensures Sound(ReadFields, GoodFields)
  {
    forall i {:trigger ReadFields(i)} ensures ReadFields(i).Ok? ==> GoodFields(ReadFields(i).value) {
      FieldsAreGood(i);
    }
  }

  lemma EnvelopeSound()
    ensures Sound(ReadEnvelope, GoodEnvelope)
  {
    forall i {:trigger ReadEnvelope(i)} ensures ReadEnvelope(i).Ok? ==> GoodEnvelope(ReadEnvelope(i).value) {
      EnvelopeIsGood(i);
    }
  }

  lemma BasicPartIsGood(i: Wire)
    ensures var o := ReadBasicPart(i); o.Ok? ==> GoodFields(o.value.0) && GoodSpecific(o.value.1) && o.value.1.Basic?
  {
    if ReadBasicPart(i).Ok? {
      ParameterSound();
      FieldsSound();
      PairSound(ReadStringPair, ReadFields, i, GoodParameter, GoodFields);
    }
  }

  lemma TextPartIsGood(i: Wire)
    ensures var o := ReadTextPart(i); o.Ok? ==> GoodFields(o.value.0) && GoodSpecific(o.value.1) && o.value.1.TextPart?
  {
    if ReadTextPart(i).Ok? {
      StringSound();
      FieldsSound();
      TripleSound(ReadString, ReadFields, ReadLines, TagNoCase("\"TEXT\" ", i).rest, GoodString, GoodFields, _ => true);
    }
  }

  lemma MessageHeadIsGood(i: Wire)
    ensures var o := ReadMessageHead(i); o.Ok? ==> GoodFields(o.value.0) && GoodEnvelope(o.value.1)
  {
    if ReadMessageHead(i).Ok? {
      FieldsSound();
      EnvelopeSound();
      var i1 := TagNoCase("\"MESSAGE\" \"RFC822\"", i).rest;
      PairSound(ReadFields, ReadEnvelope, i1.tail, GoodFields, GoodEnvelope);
    }
  }

  /** A legal body structure within the limit. */
  predicate Accepted(b: BodyStructure, r: nat) {
    GoodBody(b) && Within(b, r)
  }

  predicate AcceptedPart(p: Part) {
    GoodFields(p.0) && GoodSpecific(p.1) && (p.1.Message? ==> Within(p.1.body, MESSAGE_LEVELS - 1))
  }

  lemma {:induction false} BodyIsAccepted(r: nat, i: Wire)
    ensures ReadBody(r, i).Ok? ==> Accepted(ReadBody(r, i).value, r)
    decreases Size(i), 3
  {
    if ReadBody(r, i).Ok? {
      FormIsAccepted(r - 1, Char(LPAREN, i).rest);
    }
  }

  lemma {:induction false} FormIsAccepted(r: nat, i: Wire)
    ensures ReadForms(r, i).Ok? ==> Accepted(ReadForms(r, i).value, r + 1)
    decreases Size(i), 6
  {
    SinglePartIsAccepted(r, i);
    MultiPartIsAccepted(r, i);
  }

  lemma {:induction false} PartIsAccepted(i: Wire)
    ensures ReadPart(i).Ok? ==> AcceptedPart(ReadPart(i).value)
    decreases Size(i), 1
  {
    MessagePartIsAccepted(i);
    TextPartIsGood(i);
    BasicPartIsGood(i);
  }

  lemma {:induction false} MessagePartIsAccepted(i: Wire)
    ensures ReadMessagePart(MESSAGE_LEVELS, i).Ok? ==> AcceptedPart(ReadMessagePart(MESSAGE_LEVELS, i).value)
    decreases Size(i), 0
  {
    if ReadMessagePart(MESSAGE_LEVELS, i).Ok? {
      MessageHeadIsGood(i);
      var i2 := Char(SP, ReadMessageHead(i).rest).rest;
      assert Size(i2) < Size(i);
      BodyIsAccepted(MESSAGE_LEVELS - 1, i2);
    }
  }

  lemma SingleTailIsGood(i: Wire)
    ensures var o := Opt(Behind(ReadSingle, i), i);
            o.Ok? && o.value.Some? ==> GoodSingle(o.value.value) && SingleWithin(o.value.value)
  {
    if Char(SP, i).Ok? {
      SingleIsGood(Char(SP, i).rest);
    }
  }

  lemma {:induction false} SinglePartIsAccepted(r: nat, i: Wire)
    ensures ReadSinglePart(r, i).Ok? ==> Accepted(ReadSinglePart(r, i).value, r + 1)
    decreases Size(i), 2
  {
    if ReadSinglePart(r, i).Ok? {
      PartIsAccepted(i);
      SingleTailIsGood(ReadPart(i).rest);
    }
  }

  predicate GoodMultiWithin(x: MultiPartExtension) {
    GoodMulti(x) && MultiWithin(x)
  }

  lemma SubtypeIsGood(i: Wire)
    ensures var o := WithTail(ReadString, ReadMulti, i);
            o.Ok? ==> GoodString(o.value.0) && GoodOption(o.value.1, GoodMultiWithin)
  {
    StringSound();
    forall j {:trigger ReadMulti(j)} ensures ReadMulti(j).Ok? ==> GoodMultiWithin(ReadMulti(j).value) {
      MultiIsGood(j);
    }
    WithTailSound(ReadString, ReadMulti, i, GoodString, GoodMultiWithin);
  }

  lemma {:induction false} MultiPartIsAccepted(r: nat, i: Wire)
    ensures ReadMultiPart(r, i).Ok? ==> Accepted(ReadMultiPart(r, i).value, r + 1)
    decreases Size(i), 5
  {
    if ReadMultiPart(r, i).Ok? {
      BodiesAreAccepted(r, i);
      SubtypeIsGood(Char(SP, ReadBodies(r, i).rest).rest);
    }
  }

  ghost predicate AllAccepted(list: seq<BodyStructure>, r: nat) {
    forall k | 0 <= k < |list| :: Accepted(list[k], r)
  }

  lemma {:induction false} BodiesAreAccepted(r: nat, i: Wire)
    ensures ReadBodies(r, i).Ok? ==> AllAccepted(ReadBodies(r, i).value, r)
    decreases Size(i), 4
  {
    if ReadBodies(r, i).Ok? {
      BodyIsAccepted(r, i);
      MoreBodiesAreAccepted(r, ReadBody(r, i).rest, [ReadBody(r, i).value]);
    }
  }

  lemma {:induction false} MoreBodiesAreAccepted(r: nat, i: Wire, acc: seq<BodyStructure>)
    requires AllAccepted(acc, r)
    ensures ReadMoreBodies(r, i, acc).Ok? ==> AllAccepted(ReadMoreBodies(r, i, acc).value, r)
    decreases Size(i), 4
  {
    if ReadBody(r, i).Ok? {
      BodyIsAccepted(r, i);
      MoreBodiesAreAccepted(r, ReadBody(r, i).rest, acc + [ReadBody(r, i).value]);
    }
  }

  // ----- Only texts of body structures are read -----

  lemma {:induction false} BasicPartIsText(i: Wire)
    ensures var o := ReadBasicPart(i); o.Ok? ==> PartText(o.value.0, o.value.1, i, o.rest)
  {
    ParameterIsAlwaysText();
    FieldsAreTexts();
    PairIsText(ReadStringPair, ReadFields, ParameterText, FieldsText, i);
  }

  lemma ParameterIsAlwaysText()
    ensures Accepts(ReadStringPair, ParameterText)
  {
    GoodStringsAreTexts();
    forall i {:trigger ReadStringPair(i)}
      ensures var r := ReadStringPair(i); r.Ok? ==> ParameterText(r.value, i, r.rest)
    {
      PairIsText(ReadString, ReadString, GoodStringText, GoodStringText, i);
    }
  }

  lemma {:induction false} LinedIsText(i: Wire)
    ensures var o := Pair(ReadFields, ReadLines, i); o.Ok? ==> LinedText(o.value.0, o.value.1, i, o.rest)
  {
    if Pair(ReadFields, ReadLines, i).Ok? {
      FieldsAreTexts();
      var i1 := ReadFields(i).rest;
      assert i1 == Byte(SP, i1.tail);
      NumberIsText(i1.tail);
    }
  }

  lemma {:induction false} TextFieldsAreText(i: Wire)
    ensures var o := Triple(ReadString, ReadFields, ReadLines, i);
            o.Ok? ==> TextFieldsText(o.value.1, o.value.0, o.value.2, i, o.rest)
  {
    if Triple(ReadString, ReadFields, ReadLines, i).Ok? {
      StringIsText(i);
      var i1 := ReadString(i).rest;
      assert i1 == Byte(SP, i1.tail);
      LinedIsText(i1.tail);
    }
  }

  lemma {:induction false} TextPartIsText(i: Wire)
    ensures var o := ReadTextPart(i); o.Ok? ==> PartText(o.value.0, o.value.1, i, o.rest)
  {
    if ReadTextPart(i).Ok? {
      var t := "\"TEXT\" ";
      TagTakesWord(t, i);
      BehindTextTag(i, TagNoCase(t, i).rest, ReadTextPart(i));
    }
  }

  lemma {:induction false} BehindTextTag(i: Wire, j: Wire, o: Outcome<Part>)
    requires WordText("\"TEXT\" ", i, j)
    requires Triple(ReadString, ReadFields, ReadLines, j).Ok?
    requires var r := Triple(ReadString, ReadFields, ReadLines, j);
             o == Ok(r.rest, (r.value.1, TextPart(r.value.0, r.value.2)))
    ensures PartText(o.value.0, o.value.1, i, o.rest)
  {
    TextFieldsAreText(j);
  }

  lemma {:induction false} HeadFieldsAreText(i: Wire)
    ensures var o := Pair(ReadFields, ReadEnvelope, i);
            o.Ok? ==> PairText(FieldsText, EnvelopeText, o.value.0, o.value.1, i, o.rest)
  {
    FieldsAreTexts();
    EnvelopesAreTexts();
    PairIsText(ReadFields, ReadEnvelope, FieldsText, EnvelopeText, i);
  }

  lemma {:induction false} MessageHeadIsText(i: Wire)
    ensures var o := ReadMessageHead(i); o.Ok? ==> MessageHeadText(o.value.0, o.value.1, i, o.rest)
  {
    if ReadMessageHead(i).Ok? {
      TagTakesWord("\"MESSAGE\" \"RFC822\"", i);
      var i1 := TagNoCase("\"MESSAGE\" \"RFC822\"", i).rest;
      assert i1 == Byte(SP, i1.tail);
      HeadFieldsAreText(i1.tail);
    }
  }

  /** What was read, if anything, is a text that begins at `i`. */
  ghost predicate GivesBody(o: Outcome<BodyStructure>, i: Wire) {
    o.Ok? ==> BodyText(o.value, i, o.rest)
  }

  ghost predicate GivesPart(o: Outcome<Part>, i: Wire) {
    o.Ok? ==> PartText(o.value.0, o.value.1, i, o.rest)
  }

  /** The forms stand behind an opening parenthesis and in front of a closing one. */
  ghost predicate GivesForm(o: Outcome<BodyStructure>, i: Wire) {
    o.Ok? && Closes(o.rest) ==> BodyText(o.value, Byte(LPAREN, i), o.rest.tail)
  }

  lemma {:induction false} BodyIsText(r: nat, i: Wire)
    ensures GivesBody(ReadBody(r, i), i)
    decreases Size(i), 3
  {
    if ReadBody(r, i).Ok? {
      assert i == Byte(LPAREN, i.tail);
      FormIsText(r - 1, i.tail);
    }
  }

  lemma {:induction false} FormIsText(r: nat, i: Wire)
    ensures GivesForm(ReadForms(r, i), i)
    decreases Size(i), 6
  {
    SinglePartIsText(r, i);
    MultiPartIsText(r, i);
  }

  lemma {:induction false} PartIsText(i: Wire)
    ensures GivesPart(ReadPart(i), i)
    decreases Size(i), 1
  {
    MessagePartIsText(i);
    TextPartIsText(i);
    BasicPartIsText(i);
  }

  lemma {:induction false} MessagePartIsText(i: Wire)
    ensures GivesPart(ReadMessagePart(MESSAGE_LEVELS, i), i)
    decreases Size(i), 0
  {
    if ReadMessagePart(MESSAGE_LEVELS, i).Ok? {
      var o := ReadMessagePart(MESSAGE_LEVELS, i);
      var j, k := MessagePlaces(MESSAGE_LEVELS, i, o);
      MessageHeadIsText(i);
      BodyIsText(MESSAGE_LEVELS - 1, j);
      LinesAreText(k);
      MessageStands(o.value.0, o.value.1.envelope, o.value.1.body, o.value.1.lines, i, j, k, o.rest);
    }
  }

  /** The steps by which an embedded message was read. */
  lemma {:induction false} MessageSteps(r: nat, i: Wire, j: Wire, o: Outcome<Part>)
    requires r > 0 && o == ReadMessagePart(r, i) && o.Ok?
    requires j == Char(SP, ReadMessageHead(i).rest).rest
    ensures var head, body := ReadMessageHead(i), ReadBody(r - 1, j);
            && head.Ok? && Char(SP, head.rest).Ok? && body.Ok?
            && var lines := Behind(ReadLines, body.rest);
            && lines.Ok?
            && o == Ok(lines.rest, (head.value.0, Message(head.value.1, body.value, lines.value)))
  {
  }

  /** Where the body and the number of lines of an embedded message begin. */
  lemma {:induction false} MessagePlaces(r: nat, i: Wire, o: Outcome<Part>) returns (j: Wire, k: Wire)
    requires r > 0 && o == ReadMessagePart(r, i) && o.Ok?
    ensures Size(j) < Size(i) && o.value.1.Message?
    ensures ReadMessageHead(i) == Ok(Byte(SP, j), (o.value.0, o.value.1.envelope))
    ensures ReadBody(r - 1, j) == Ok(Byte(SP, k), o.value.1.body)
    ensures ReadLines(k) == Ok(o.rest, o.value.1.lines)
  {
    j := Char(SP, ReadMessageHead(i).rest).rest;
    MessageSteps(r, i, j, o);
    CharTaken(SP, ReadMessageHead(i).rest);
    k := ReadBody(r - 1, j).rest.tail;
    BehindTaken(ReadLines, ReadBody(r - 1, j).rest);
  }

  lemma CharTaken(b: byte, i: Wire)
    ensures Char(b, i).Ok? ==> i == Byte(b, i.tail) && Char(b, i).rest == i.tail
  {
  }

  lemma BehindTaken<T>(p: Wire -> Outcome<T>, i: Wire)
    requires Consuming(p)
    ensures Behind(p, i).Ok? ==> i == Byte(SP, i.tail) && Behind(p, i) == p(i.tail)
  {
  }

  lemma LinesAreText(i: Wire)
    ensures var o := ReadLines(i); o.Ok? ==> U32Text(o.value, i, o.rest)
  {
    NumberIsText(i);
  }

  lemma {:induction false} MessageStands(
      basic: BasicFields, envelope: Envelope, body: BodyStructure, lines: U32, i: Wire, j: Wire, k: Wire, rest: Wire)
    requires MessageHeadText(basic, envelope, i, Byte(SP, j))
    requires BodyText(body, j, Byte(SP, k))
    requires U32Text(lines, k, rest)
    ensures PartText(basic, Message(envelope, body, lines), i, rest)
  {
  }

  lemma {:induction false} SingleTailIsText(i: Wire)
    ensures var o := Opt(Behind(ReadSingle, i), i); o.Ok? ==> SingleTailText(o.value, i, o.rest)
  {
    if Starts(i, SP) {
      SinglesAreTexts();
      assert Behind(ReadSingle, i) == ReadSingle(i.tail);
    }
  }

  lemma {:induction false} SinglePartIsText(r: nat, i: Wire)
    ensures GivesForm(ReadSinglePart(r, i), i)
    decreases Size(i), 2
  {
    if ReadSinglePart(r, i).Ok? {
      PartIsText(i);
      SingleTailIsText(ReadPart(i).rest);
    }
  }

  lemma {:induction false} SubtypeIsText(i: Wire)
    ensures var o := WithTail(ReadString, ReadMulti, i);
            o.Ok? ==> TailText(GoodStringText, MultiText, o.value.0, o.value.1, i, o.rest)
  {
    GoodStringsAreTexts();
    MultisAreTexts();
    TailIsText(ReadString, ReadMulti, GoodStringText, MultiText, i);
  }

  lemma {:induction false} MultiPartIsText(r: nat, i: Wire)
    ensures GivesForm(ReadMultiPart(r, i), i)
    decreases Size(i), 5
  {
    var o := ReadMultiPart(r, i);
    if o.Ok? && Closes(o.rest) {
      var text := BodiesAreTexts(r, i);
      var i1 := ReadBodies(r, i).rest;
      assert i1 == Byte(SP, i1.tail);
      SubtypeIsText(i1.tail);
      MultiStands(o.value, text, i1.tail, o.rest.tail);
    }
  }

  lemma {:induction false} MultiStands(b: BodyStructure, text: nat -> Wire, j: Wire, rest: Wire)
    requires b.Multi? && b.bodies != []
    requires BodiesStand(b, text) && text(|b.bodies|) == Byte(SP, j)
    requires TailText(GoodStringText, MultiText, b.subtype, b.multi, j, Byte(RPAREN, rest))
    ensures BodyText(b, Byte(LPAREN, text(0)), rest)
  {
  }

  lemma {:induction false} BodiesAreTexts(r: nat, i: Wire) returns (text: nat -> Wire)
    requires ReadBodies(r, i).Ok?
    ensures var o := ReadBodies(r, i);
            && o.value != [] && text(0) == i && text(|o.value|) == o.rest
            && forall subtype, ext :: BodiesStand(Multi(o.value, subtype, ext), text)
    decreases Size(i), 4
  {
    BodiesAreMany(r, i);
    text := Many1Texts(BodyReader(r), i);
    var bodies := ReadBodies(r, i).value;
    forall m: nat {:trigger bodies[m]} | m < |bodies| ensures BodyText(bodies[m], text(m), text(m + 1)) {
      assert Size(text(m)) <= Size(i);
      BodyIsText(r, text(m));
      assert BodyReader(r)(text(m)) == Ok(text(m + 1), bodies[m]);
    }
  }

  /** The language of body structures: one is read from exactly its texts, whatever follows, if
      it is within the limit. */
  lemma BodyGrammar(b: BodyStructure, r: nat, i: Wire, rest: Wire)
    ensures ReadBody(r, i) == Ok(rest, b) <==> BodyText(b, i, rest) && Within(b, r)
  {
    BodyIsText(r, i);
    BodyIsAccepted(r, i);
    if BodyText(b, i, rest) {
      BodyReads(b, r, i, rest);
    }
  }

  // ----- The round trip -----

  /** Encoding a body structure and reading it back gives the body structure, whatever follows
      it, exactly when its strings can be announced and it is within the limit; one that is only
      nested too deeply is refused with the recursion limit. */
  lemma BodyRoundTrip(b: BodyStructure, r: nat, rest: Wire)
    ensures ReadBody(r, PutBody(b, rest)) == Ok(rest, b) <==> GoodBody(b) && Within(b, r)
    ensures GoodBody(b) && !Within(b, r) ==> ReadBody(r, PutBody(b, rest)) == Failure(RecursionLimitExceeded)
  {
    BodyIsAccepted(r, PutBody(b, rest));
    if GoodBody(b) {
      PutBodyIsText(b, rest);
      BodyReads(b, r, PutBody(b, rest), rest);
    }
  }

  /** Whatever was read as a body structure can be written and read again. */
  lemma ReadBodiesCanBeWritten(r: nat, i: Wire, rest: Wire)
    requires ReadBody(r, i).Ok?
    ensures var b := ReadBody(r, i).value; ReadBody(r, PutBody(b, rest)) == Ok(rest, b)
  {
    BodyIsAccepted(r, i);
    BodyRoundTrip(ReadBody(r, i).value, r, rest);
  }
}
