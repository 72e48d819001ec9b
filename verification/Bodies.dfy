/** Body structures: multipart bodies nest under a limit that each level lowers by one, while
    an embedded message starts again with a limit of its own. */
module Bodies {
  import opened Octets
  import opened Nom
  import opened Strings
  import opened Envelopes
  import opened BodyFields
  import opened BodyTails

  datatype SpecificFields =
    | Basic(kind: IString, subtype: IString)
    | Message(envelope: Envelope, body: BodyStructure, lines: U32)
    | TextPart(subtype: IString, lines: U32)

  datatype BodyStructure =
    | Single(basic: BasicFields, specific: SpecificFields, single: Option<SinglePartExtension>)
    | Multi(bodies: seq<BodyStructure>, subtype: IString, multi: Option<MultiPartExtension>)

  const MESSAGE_LEVELS: nat := 8

  /** Strings are legal and short enough to be announced, and no multipart body is empty. */
  predicate GoodBody(b: BodyStructure)
    decreases b, 1
  {
    match b
    case Single(basic, specific, ext) =>
      GoodFields(basic) && GoodSpecific(specific) && (ext.Some? ==> GoodSingle(ext.value))
    case Multi(bodies, subtype, ext) =>
      && bodies != []
      && (forall k | 0 <= k < |bodies| :: GoodBody(bodies[k]))
      && GoodString(subtype) && (ext.Some? ==> GoodMulti(ext.value))
  }

  predicate GoodSpecific(s: SpecificFields)
    decreases s, 0
  {
    match s
    case Basic(kind, subtype) => GoodString(kind) && GoodString(subtype)
    case Message(envelope, body, _) => GoodEnvelope(envelope) && GoodBody(body)
    case TextPart(subtype, _) => GoodString(subtype)
  }

  /** Each multipart level costs one, a part that is not multipart needs two, and an embedded
      message starts again. */
  predicate Within(b: BodyStructure, r: nat)
    decreases b
  {
    r >= 2 &&
    match b
    case Single(_, specific, ext) =>
      && (specific.Message? ==> Within(specific.body, MESSAGE_LEVELS - 1))
      && (ext.Some? ==> SingleWithin(ext.value))
    case Multi(bodies, _, ext) =>
      && (forall k | 0 <= k < |bodies| :: Within(bodies[k], r - 1))
      && (ext.Some? ==> MultiWithin(ext.value))
  }

  // ----- The grammar -----

  ghost predicate SingleTailText(ext: Option<SinglePartExtension>, i: Wire, rest: Wire) {
    match ext
    case None => i == rest
    case Some(x) => Starts(i, SP) && SingleText(x, i.tail, rest)
  }

  /** Type and subtype, then the basic fields. */
  ghost predicate BasicText(basic: BasicFields, kind: IString, subtype: IString, i: Wire, rest: Wire) {
    PairText(ParameterText, FieldsText, (kind, subtype), basic, i, rest)
  }

  ghost predicate LinedText(basic: BasicFields, lines: U32, i: Wire, rest: Wire) {
    exists n :: FieldsText(basic, i, Byte(SP, n)) && U32Text(lines, n, rest)
  }

  ghost predicate TextFieldsText(basic: BasicFields, subtype: IString, lines: U32, i: Wire, rest: Wire) {
    exists v :: GoodStringText(subtype, i, Byte(SP, v)) && LinedText(basic, lines, v, rest)
  }

  ghost predicate TextPartText(basic: BasicFields, subtype: IString, lines: U32, i: Wire, rest: Wire) {
    exists j :: WordText("\"TEXT\" ", i, j) && TextFieldsText(basic, subtype, lines, j, rest)
  }

  ghost predicate MessageHeadText(basic: BasicFields, envelope: Envelope, i: Wire, rest: Wire) {
    exists j ::
      && WordText("\"MESSAGE\" \"RFC822\"", i, Byte(SP, j))
      && PairText(FieldsText, EnvelopeText, basic, envelope, j, rest)
  }

  ghost predicate PartText(basic: BasicFields, s: SpecificFields, i: Wire, rest: Wire)
    decreases s, 0
  {
    match s
    case Basic(kind, subtype) => BasicText(basic, kind, subtype, i, rest)
    case TextPart(subtype, lines) => TextPartText(basic, subtype, lines, i, rest)
    case Message(envelope, body, lines) =>
      exists j, k ::
        && MessageHeadText(basic, envelope, i, Byte(SP, j))
        && BodyText(body, j, Byte(SP, k))
        && U32Text(lines, k, rest)
  }

  /** `i` is a text of a body structure, followed by `rest`. */
  ghost predicate BodyText(b: BodyStructure, i: Wire, rest: Wire)
    decreases b, 1
  {
    && Starts(i, LPAREN)
    && match b
       case Single(basic, specific, ext) =>
         exists j :: PartText(basic, specific, i.tail, j) && SingleTailText(ext, j, Byte(RPAREN, rest))
       case Multi(bodies, subtype, ext) =>
         && bodies != []
         && exists text: nat -> Wire, j ::
              && BodiesStand(b, text) && text(0) == i.tail && text(|bodies|) == Byte(SP, j)
              && TailText(GoodStringText, MultiText, subtype, ext, j, Byte(RPAREN, rest))
  }

  /** The bodies of a multipart body stand where `text` says, with nothing between them. */
  ghost predicate BodiesStand(b: BodyStructure, text: nat -> Wire)
    requires b.Multi?
    decreases b, 0
  {
    forall m: nat {:trigger b.bodies[m]} | m < |b.bodies| :: BodyText(b.bodies[m], text(m), text(m + 1))
  }

  // ----- Writing -----

  function PutSingleTail(ext: Option<SinglePartExtension>, rest: Wire): Wire {
    if ext.Some? then Byte(SP, PutSingle(ext.value, rest)) else rest
  }

  function PutMultiTail(ext: Option<MultiPartExtension>, rest: Wire): Wire {
    if ext.Some? then Byte(SP, PutMulti(ext.value, rest)) else rest
  }

  function PutBody(b: BodyStructure, rest: Wire): Wire
    decreases b, 1
  {
    match b
    case Single(basic, specific, ext) =>
      Byte(LPAREN, PutPart(basic, specific, PutSingleTail(ext, Byte(RPAREN, rest))))
    case Multi(bodies, subtype, ext) =>
      Byte(LPAREN, PutBodies(b, 0, Byte(SP, PutIString(subtype, PutMultiTail(ext, Byte(RPAREN, rest))))))
  }

  /** The bodies of a multipart body from index `k` on, with nothing between them. */
  function PutBodies(b: BodyStructure, k: nat, rest: Wire): Wire
    requires b.Multi? && k <= |b.bodies|
    decreases b, 0, |b.bodies| - k
  {
    if k == |b.bodies| then rest else PutBody(b.bodies[k], PutBodies(b, k + 1, rest))
  }

  function PutPart(basic: BasicFields, s: SpecificFields, rest: Wire): Wire
    decreases s, 0
  {
    match s
    case Basic(kind, subtype) =>
      PutIString(kind, Byte(SP, PutIString(subtype, Byte(SP, PutFields(basic, rest)))))
    case Message(envelope, body, lines) =>
      Text("\"MESSAGE\" \"RFC822\"", Byte(SP, PutFields(basic, Byte(SP, PutEnvelope(envelope, Byte(SP,
        PutBody(body, Byte(SP, PutNat(lines, rest)))))))))
    case TextPart(subtype, lines) =>
      Text("\"TEXT\" ", PutIString(subtype, Byte(SP, PutFields(basic, Byte(SP, PutNat(lines, rest))))))
  }

  // ----- Reading -----

  type Part = (BasicFields, SpecificFields)

  function ReadBasicPart(i: Wire): (r: Outcome<Part>)
    ensures r.Consumes(i)
  {
    var (rest, ((kind, subtype), basic)) :- Pair(ReadStringPair, ReadFields, i);
    Ok(rest, (basic, Basic(kind, subtype)))
  }

  function ReadTextPart(i: Wire): (r: Outcome<Part>)
    ensures r.Consumes(i)
  {
    var (i1, _) :- TagNoCase("\"TEXT\" ", i);
    var (rest, (subtype, basic, lines)) :- Triple(ReadString, ReadFields, ReadLines, i1);
    Ok(rest, (basic, TextPart(subtype, lines)))
  }

  function ReadLines(i: Wire): (r: Outcome<U32>)
    ensures r.Consumes(i)
  {
    var (rest, n) :- ReadNumber(i);
    Ok(rest, n)
  }

  /** What comes before the body of an embedded message. */
  function ReadMessageHead(i: Wire): (r: Outcome<(BasicFields, Envelope)>)
    ensures r.Consumes(i)
  {
    var (i1, _) :- TagNoCase("\"MESSAGE\" \"RFC822\"", i);
    var (i2, _) :- Char(SP, i1);
    Pair(ReadFields, ReadEnvelope, i2)
  }

  function ReadMessagePart(r: nat, i: Wire): (o: Outcome<Part>)
    ensures o.Consumes(i)
    decreases Size(i), 0
  {
    if r == 0 then Failure(RecursionLimitExceeded)
    else
      var (i1, (basic, envelope)) :- ReadMessageHead(i);
      var (i2, _) :- Char(SP, i1);
      var (i3, body) :- ReadBody(r - 1, i2);
      var (i4, lines) :- Behind(ReadLines, i3);
      Ok(i4, (basic, Message(envelope, body, lines)))
  }

  /** The message form is tried first, the general form last. */
  function ReadPart(i: Wire): (o: Outcome<Part>)
    ensures o.Consumes(i)
    decreases Size(i), 1
  {
    Alt(ReadMessagePart(MESSAGE_LEVELS, i), Alt(ReadTextPart(i), ReadBasicPart(i)))
  }

  function ReadSinglePart(r: nat, i: Wire): (o: Outcome<BodyStructure>)
    ensures o.Consumes(i)
    decreases Size(i), 2
  {
    if r == 0 then Failure(RecursionLimitExceeded)
    else
      var (i1, (basic, specific)) :- ReadPart(i);
      var (i2, ext) :- Opt(Behind(ReadSingle, i1), i1);
      Ok(i2, Single(basic, specific, ext))
  }

  function ReadMultiPart(r: nat, i: Wire): (o: Outcome<BodyStructure>)
    ensures o.Consumes(i)
    decreases Size(i), 4
  {
    if r == 0 then Failure(RecursionLimitExceeded)
    else
      var (i1, bodies) :- ReadBodies(r, i);
      var (i2, _) :- Char(SP, i1);
      var (i3, (subtype, ext)) :- WithTail(ReadString, ReadMulti, i2);
      Ok(i3, Multi(bodies, subtype, ext))
  }

  /** One or more bodies. */
  function ReadBodies(r: nat, i: Wire): (o: Outcome<seq<BodyStructure>>)
    ensures o.Consumes(i)
    ensures o.Ok? ==> o.value != []
    decreases Size(i), 3
  {
    var (i1, first) :- ReadBody(r, i);
    ReadMoreBodies(r, i1, [first])
  }

  function ReadMoreBodies(r: nat, i: Wire, acc: seq<BodyStructure>): (o: Outcome<seq<BodyStructure>>)
    ensures o.Ok? ==> Size(o.rest) <= Size(i) && |o.value| >= |acc|
    decreases Size(i), 3
  {
    match ReadBody(r, i)
    case Incomplete => Incomplete
    case Failure(kind) => Failure(kind)
    case Error => Ok(i, acc)
    case Ok(i1, b) => ReadMoreBodies(r, i1, acc + [b])
  }

  function ReadBody(r: nat, i: Wire): (o: Outcome<BodyStructure>)
    ensures o.Consumes(i)
    decreases Size(i), 2
  {
    if r == 0 then Failure(RecursionLimitExceeded)
    else
      var (i1, _) :- Char(LPAREN, i);
      var (i2, b) :- ReadForms(r - 1, i1);
      var (i3, _) :- Char(RPAREN, i2);
      Ok(i3, b)
  }

  function ReadForms(r: nat, i: Wire): (o: Outcome<BodyStructure>)
    ensures o.Consumes(i)
    decreases Size(i), 5
  {
    Alt(ReadSinglePart(r, i), ReadMultiPart(r, i))
  }

  function BodyReader(r: nat): (p: Wire -> Outcome<BodyStructure>)
    ensures Consuming(p)
    ensures forall i {:trigger p(i)} :: p(i) == ReadBody(r, i)
  {
    (i: Wire) => ReadBody(r, i)
  }

  /** The loop over bodies is the general one. */
  lemma {:induction false} MoreBodiesAreMany(r: nat, i: Wire, acc: seq<BodyStructure>)
    ensures ReadMoreBodies(r, i, acc) == ManyMore(BodyReader(r), i, acc)
    decreases Size(i)
  {
    if ReadBody(r, i).Ok? {
      MoreBodiesAreMany(r, ReadBody(r, i).rest, acc + [ReadBody(r, i).value]);
    }
  }

  lemma BodiesAreMany(r: nat, i: Wire)
    ensures ReadBodies(r, i) == Many1(BodyReader(r), i)
  {
    if ReadBody(r, i).Ok? {
      MoreBodiesAreMany(r, ReadBody(r, i).rest, [ReadBody(r, i).value]);
    }
  }
}
