/** Encoding of envelopes and body structures. */
module EncodingBody {
  import opened Octets
  import opened Nom
  import opened Strings
  import opened Contexts
  import opened Encoding
  import opened Envelopes
  import opened BodyFields
  import opened BodyExtensions
  import opened BodyTails
  import opened Bodies
  import opened BodyRules

  method EncodeNStrings(a: NString, b: NString, ctx: EncodeContext, ghost rest: Wire)
    modifies ctx
    ensures old(ctx.Valid()) && ValidNString(a) && ValidNString(b) ==> ctx.Valid()
    ensures ctx.Fits() == (old(ctx.Fits()) && FitsNString(a) && FitsNString(b))
    ensures Feed(ctx.Dump(), rest) == Feed(old(ctx.Dump()), PutNStrings(a, b, rest))
  {
    EncodeNString(a, ctx, Byte(SP, PutNString(b, rest)));
    WriteByte(SP, ctx, PutNString(b, rest));
    EncodeNString(b, ctx, rest);
  }

  method EncodeAddress(a: Address, ctx: EncodeContext, ghost rest: Wire)
    modifies ctx
    ensures old(ctx.Valid()) && ValidAddress(a) ==> ctx.Valid()
    ensures ctx.Fits() == (old(ctx.Fits()) && FitsAddress(a))
    ensures Feed(ctx.Dump(), rest) == Feed(old(ctx.Dump()), PutAddress(a, rest))
  {
    ghost var j := PutNStrings(a.mailbox, a.host, Byte(RPAREN, rest));
    WriteByte(LPAREN, ctx, PutNStrings(a.name, a.adl, Byte(SP, j)));
    EncodeNStrings(a.name, a.adl, ctx, Byte(SP, j));
    WriteByte(SP, ctx, j);
    EncodeNStrings(a.mailbox, a.host, ctx, Byte(RPAREN, rest));
    WriteByte(RPAREN, ctx, rest);
  }

  method EncodeAddressItems(list: seq<Address>, ctx: EncodeContext, ghost rest: Wire)
    modifies ctx
    ensures old(ctx.Valid()) && ValidAddresses(list) ==> ctx.Valid()
    ensures ctx.Fits() == (old(ctx.Fits()) && FitsAddresses(list))
    ensures Feed(ctx.Dump(), rest) == Feed(old(ctx.Dump()), PutAddressesFrom(list, 0, rest))
  {
    for k := 0 to |list|
      invariant old(ctx.Valid()) && ValidAddresses(list) ==> ctx.Valid()
      invariant ctx.Fits() == (old(ctx.Fits()) && First(list, k, FitsAddress))
      invariant Feed(ctx.Dump(), PutAddressesFrom(list, k, rest)) == Feed(old(ctx.Dump()), PutAddressesFrom(list, 0, rest))
    {
      FirstNext(list, k, FitsAddress);
      EncodeAddress(list[k], ctx, PutAddressesFrom(list, k + 1, rest));
    }
  }

  /** A list without separators, or NIL. */
  method EncodeAddresses(list: seq<Address>, ctx: EncodeContext, ghost rest: Wire)
    modifies ctx
    ensures old(ctx.Valid()) && ValidAddresses(list) ==> ctx.Valid()
    ensures ctx.Fits() == (old(ctx.Fits()) && FitsAddresses(list))
    ensures Feed(ctx.Dump(), rest) == Feed(old(ctx.Dump()), PutAddresses(list, rest))
  {
    if |list| == 0 {
      WriteText("NIL", ctx, rest);
    } else {
      WriteByte(LPAREN, ctx, PutAddressesFrom(list, 0, Byte(RPAREN, rest)));
      EncodeAddressItems(list, ctx, Byte(RPAREN, rest));
      WriteByte(RPAREN, ctx, rest);
    }
  }

  method EncodeLists(a: seq<Address>, b: seq<Address>, c: seq<Address>, ctx: EncodeContext, ghost rest: Wire)
    modifies ctx
    ensures old(ctx.Valid()) && ValidAddresses(a) && ValidAddresses(b) && ValidAddresses(c) ==> ctx.Valid()
    ensures ctx.Fits() == (old(ctx.Fits()) && FitsAddresses(a) && FitsAddresses(b) && FitsAddresses(c))
    ensures Feed(ctx.Dump(), rest) == Feed(old(ctx.Dump()), PutLists(a, b, c, rest))
  {
    ghost var k := PutAddresses(c, rest);
    ghost var j := PutAddresses(b, Byte(SP, k));
    EncodeAddresses(a, ctx, Byte(SP, j));
    WriteByte(SP, ctx, j);
    EncodeAddresses(b, ctx, Byte(SP, k));
    WriteByte(SP, ctx, k);
    EncodeAddresses(c, ctx, rest);
  }

  method EncodeEnvelope(e: Envelope, ctx: EncodeContext, ghost rest: Wire)
    modifies ctx
    ensures old(ctx.Valid()) && ValidEnvelope(e) ==> ctx.Valid()
    ensures ctx.Fits() == (old(ctx.Fits()) && FitsEnvelope(e))
    ensures Feed(ctx.Dump(), rest) == Feed(old(ctx.Dump()), PutEnvelope(e, rest))
  {
    ghost var i4 := PutNStrings(e.inReplyTo, e.messageId, Byte(RPAREN, rest));
    ghost var j := PutLists(e.recipients, e.cc, e.bcc, Byte(SP, i4));
    ghost var i2 := PutLists(e.from, e.sender, e.replyTo, Byte(SP, j));
    WriteByte(LPAREN, ctx, PutNStrings(e.date, e.subject, Byte(SP, i2)));
    EncodeNStrings(e.date, e.subject, ctx, Byte(SP, i2));
    WriteByte(SP, ctx, i2);
    EncodeLists(e.from, e.sender, e.replyTo, ctx, Byte(SP, j));
    WriteByte(SP, ctx, j);
    EncodeLists(e.recipients, e.cc, e.bcc, ctx, Byte(SP, i4));
    WriteByte(SP, ctx, i4);
    EncodeNStrings(e.inReplyTo, e.messageId, ctx, Byte(RPAREN, rest));
    WriteByte(RPAREN, ctx, rest);
  }

  method EncodeParameter(p: (IString, IString), ctx: EncodeContext, ghost rest: Wire)
    modifies ctx
    ensures old(ctx.Valid()) && ValidParameter(p) ==> ctx.Valid()
    ensures ctx.Fits() == (old(ctx.Fits()) && FitsParameter(p))
    ensures Feed(ctx.Dump(), rest) == Feed(old(ctx.Dump()), PutParameter(p, rest))
  {
    EncodeIString(p.0, ctx, Byte(SP, PutIString(p.1, rest)));
    WriteByte(SP, ctx, PutIString(p.1, rest));
    EncodeIString(p.1, ctx, rest);
  }

  method JoinParameters(list: Parameters, ctx: EncodeContext, ghost rest: Wire)
    requires list != []
    modifies ctx
    ensures old(ctx.Valid()) && ValidParameters(list) ==> ctx.Valid()
    ensures ctx.Fits() == (old(ctx.Fits()) && FitsParameters(list))
    ensures Feed(ctx.Dump(), rest) == Feed(old(ctx.Dump()), PutParameter(list[0], PutMoreParameters(list, 1, rest)))
  {
    var last := |list| - 1;
    for k := 0 to last
      invariant old(ctx.Valid()) && ValidParameters(list) ==> ctx.Valid()
      invariant ctx.Fits() == (old(ctx.Fits()) && First(list, k, FitsParameter))
      invariant Feed(ctx.Dump(), PutParameter(list[k], PutMoreParameters(list, k + 1, rest)))
             == Feed(old(ctx.Dump()), PutParameter(list[0], PutMoreParameters(list, 1, rest)))
    {
      FirstNext(list, k, FitsParameter);
      EncodeParameter(list[k], ctx, PutMoreParameters(list, k + 1, rest));
      WriteByte(SP, ctx, PutParameter(list[k + 1], PutMoreParameters(list, k + 2, rest)));
    }
    FirstNext(list, last, FitsParameter);
    EncodeParameter(list[last], ctx, rest);
  }

  /** Pairs of attribute and value, or NIL. */
  method EncodeParameters(list: Parameters, ctx: EncodeContext, ghost rest: Wire)
    modifies ctx
    ensures old(ctx.Valid()) && ValidParameters(list) ==> ctx.Valid()
    ensures ctx.Fits() == (old(ctx.Fits()) && FitsParameters(list))
    ensures Feed(ctx.Dump(), rest) == Feed(old(ctx.Dump()), PutParameters(list, rest))
  {
    if |list| == 0 {
      WriteText("NIL", ctx, rest);
    } else {
      WriteByte(LPAREN, ctx, PutParameter(list[0], PutMoreParameters(list, 1, Byte(RPAREN, rest))));
      JoinParameters(list, ctx, Byte(RPAREN, rest));
      WriteByte(RPAREN, ctx, rest);
    }
  }

  method EncodeFields(f: BasicFields, ctx: EncodeContext, ghost rest: Wire)
    modifies ctx
    ensures old(ctx.Valid()) && ValidFields(f) ==> ctx.Valid()
    ensures ctx.Fits() == (old(ctx.Fits()) && FitsFields(f))
    ensures Feed(ctx.Dump(), rest) == Feed(old(ctx.Dump()), PutFields(f, rest))
  {
    ghost var n := PutNat(f.size, rest);
    ghost var i2 := PutIString(f.encoding, Byte(SP, n));
    ghost var j := PutNStrings(f.id, f.description, Byte(SP, i2));
    EncodeParameters(f.parameters, ctx, Byte(SP, j));
    WriteByte(SP, ctx, j);
    EncodeNStrings(f.id, f.description, ctx, Byte(SP, i2));
    WriteByte(SP, ctx, i2);
    EncodeIString(f.encoding, ctx, Byte(SP, n));
    WriteByte(SP, ctx, n);
    EncodeNumber(f.size, ctx, rest);
  }

  method JoinStrings(list: seq<IString>, ctx: EncodeContext, ghost rest: Wire)
    requires list != []
    modifies ctx
    ensures old(ctx.Valid()) && ValidStrings(list) ==> ctx.Valid()
    ensures ctx.Fits() == (old(ctx.Fits()) && FitsStrings(list))
    ensures Feed(ctx.Dump(), rest) == Feed(old(ctx.Dump()), PutIString(list[0], PutMoreStrings(list, 1, rest)))
  {
    var last := |list| - 1;
    for k := 0 to last
      invariant old(ctx.Valid()) && ValidStrings(list) ==> ctx.Valid()
      invariant ctx.Fits() == (old(ctx.Fits()) && First(list, k, FitsIString))
      invariant Feed(ctx.Dump(), PutIString(list[k], PutMoreStrings(list, k + 1, rest)))
             == Feed(old(ctx.Dump()), PutIString(list[0], PutMoreStrings(list, 1, rest)))
    {
      FirstNext(list, k, FitsIString);
      EncodeIString(list[k], ctx, PutMoreStrings(list, k + 1, rest));
      WriteByte(SP, ctx, PutIString(list[k + 1], PutMoreStrings(list, k + 2, rest)));
    }
    FirstNext(list, last, FitsIString);
    EncodeIString(list[last], ctx, rest);
  }

  /** A list with spaces, or NIL. */
  method EncodeStrings(list: seq<IString>, ctx: EncodeContext, ghost rest: Wire)
    modifies ctx
    ensures old(ctx.Valid()) && ValidStrings(list) ==> ctx.Valid()
    ensures ctx.Fits() == (old(ctx.Fits()) && FitsStrings(list))
    ensures Feed(ctx.Dump(), rest) == Feed(old(ctx.Dump()), PutStrings(list, rest))
  {
    if |list| == 0 {
      WriteText("NIL", ctx, rest);
    } else {
      WriteByte(LPAREN, ctx, PutIString(list[0], PutMoreStrings(list, 1, Byte(RPAREN, rest))));
      JoinStrings(list, ctx, Byte(RPAREN, rest));
      WriteByte(RPAREN, ctx, rest);
    }
  }

  method EncodeExtension(e: BodyExtension, ctx: EncodeContext, ghost rest: Wire)
    modifies ctx
    ensures old(ctx.Valid()) && ValidExtension(e) ==> ctx.Valid()
    ensures ctx.Fits() == (old(ctx.Fits()) && FitsExtension(e))
    ensures Feed(ctx.Dump(), rest) == Feed(old(ctx.Dump()), PutExtension(e, rest))
    decreases e, 1
  {
    match e {
      case NStringExtension(s) => EncodeNString(s, ctx, rest);
      case NumberExtension(n) => EncodeNumber(n, ctx, rest);
      case ListExtension(items) =>
        if |items| == 0 {
          WriteByte(LPAREN, ctx, Byte(RPAREN, rest));
        } else {
          WriteByte(LPAREN, ctx, PutExtension(items[0], PutExtensions(e, 1, Byte(RPAREN, rest))));
          EncodeItems(e, ctx, Byte(RPAREN, rest));
        }
        WriteByte(RPAREN, ctx, rest);
    }
  }

  /** The items of a list, with spaces between them. */
  method EncodeItems(e: BodyExtension, ctx: EncodeContext, ghost rest: Wire)
    requires e.ListExtension? && e.items != []
    modifies ctx
    ensures old(ctx.Valid()) && ValidExtension(e) ==> ctx.Valid()
    ensures ctx.Fits() == (old(ctx.Fits()) && FitsExtension(e))
    ensures Feed(ctx.Dump(), rest) == Feed(old(ctx.Dump()), ItemsAt(e, 0, rest))
    decreases e, 0, 1
  {
    var last := |e.items| - 1;
    for k := 0 to last
      invariant old(ctx.Valid()) && ValidExtension(e) ==> ctx.Valid()
      invariant ctx.Fits() == (old(ctx.Fits()) && First(e.items, k, FitsExtension))
      invariant Feed(ctx.Dump(), ItemsAt(e, k, rest)) == Feed(old(ctx.Dump()), ItemsAt(e, 0, rest))
    {
      FirstNext(e.items, k, FitsExtension);
      EncodeItem(e, k, ctx, rest);
      WriteByte(SP, ctx, ItemsAt(e, k + 1, rest));
    }
    FirstNext(e.items, last, FitsExtension);
    EncodeItem(e, last, ctx, rest);
  }

  /** What is written from item `k` on. */
  ghost function ItemsAt(e: BodyExtension, k: nat, rest: Wire): Wire
    requires e.ListExtension? && k < |e.items|
  {
    PutExtension(e.items[k], PutExtensions(e, k + 1, rest))
  }

  method EncodeItem(e: BodyExtension, k: nat, ctx: EncodeContext, ghost rest: Wire)
    requires e.ListExtension? && k < |e.items|
    modifies ctx
    ensures old(ctx.Valid()) && ValidExtension(e) ==> ctx.Valid()
    ensures ctx.Fits() == (old(ctx.Fits()) && FitsExtension(e.items[k]))
    ensures Feed(ctx.Dump(), if k + 1 < |e.items| then Byte(SP, ItemsAt(e, k + 1, rest)) else rest)
         == Feed(old(ctx.Dump()), ItemsAt(e, k, rest))
    decreases e, 0, 0
  {
    EncodeExtension(e.items[k], ctx, PutExtensions(e, k + 1, rest));
  }

  method EncodeLocation(l: Location, ctx: EncodeContext, ghost rest: Wire)
    modifies ctx
    ensures old(ctx.Valid()) && ValidLocation(l) ==> ctx.Valid()
    ensures ctx.Fits() == (old(ctx.Fits()) && FitsLocation(l))
    ensures Feed(ctx.Dump(), rest) == Feed(old(ctx.Dump()), PutLocation(l, rest))
  {
    EncodeNString(l.location, ctx, PutSpaced(l.extensions, 0, rest));
    for k := 0 to |l.extensions|
      invariant old(ctx.Valid()) && ValidLocation(l) ==> ctx.Valid()
      invariant ctx.Fits() == (old(ctx.Fits()) && FitsNString(l.location) && First(l.extensions, k, FitsExtension))
      invariant Feed(ctx.Dump(), PutSpaced(l.extensions, k, rest)) == Feed(old(ctx.Dump()), PutLocation(l, rest))
    {
      FirstNext(l.extensions, k, FitsExtension);
      WriteByte(SP, ctx, PutExtension(l.extensions[k], PutSpaced(l.extensions, k + 1, rest)));
      EncodeExtension(l.extensions[k], ctx, PutSpaced(l.extensions, k + 1, rest));
    }
  }

  method EncodeLanguage(x: Language, ctx: EncodeContext, ghost rest: Wire)
    modifies ctx
    ensures old(ctx.Valid()) && ValidLanguage(x) ==> ctx.Valid()
    ensures ctx.Fits() == (old(ctx.Fits()) && FitsLanguage(x))
    ensures Feed(ctx.Dump(), rest) == Feed(old(ctx.Dump()), PutLanguage(x, rest))
  {
    match x.tail {
      case None => EncodeStrings(x.language, ctx, rest);
      case Some(tail) =>
        EncodeStrings(x.language, ctx, Byte(SP, PutLocation(tail, rest)));
        WriteByte(SP, ctx, PutLocation(tail, rest));
        EncodeLocation(tail, ctx, rest);
    }
  }

  method EncodeKind(d: Option<(IString, Parameters)>, ctx: EncodeContext, ghost rest: Wire)
    modifies ctx
    ensures old(ctx.Valid()) && ValidKind(d) ==> ctx.Valid()
    ensures ctx.Fits() == (old(ctx.Fits()) && FitsKind(d))
    ensures Feed(ctx.Dump(), rest) == Feed(old(ctx.Dump()), PutKind(d, rest))
  {
    match d {
      case None => WriteText("NIL", ctx, rest);
      case Some(pair) =>
        ghost var j := PutParameters(pair.1, Byte(RPAREN, rest));
        WriteByte(LPAREN, ctx, PutIString(pair.0, Byte(SP, j)));
        EncodeIString(pair.0, ctx, Byte(SP, j));
        WriteByte(SP, ctx, j);
        EncodeParameters(pair.1, ctx, Byte(RPAREN, rest));
        WriteByte(RPAREN, ctx, rest);
    }
  }

  method EncodeDisposition(x: Disposition, ctx: EncodeContext, ghost rest: Wire)
    modifies ctx
    ensures old(ctx.Valid()) && ValidDisposition(x) ==> ctx.Valid()
    ensures ctx.Fits() == (old(ctx.Fits()) && FitsDisposition(x))
    ensures Feed(ctx.Dump(), rest) == Feed(old(ctx.Dump()), PutDisposition(x, rest))
  {
    match x.tail {
      case None => EncodeKind(x.disposition, ctx, rest);
      case Some(tail) =>
        EncodeKind(x.disposition, ctx, Byte(SP, PutLanguage(tail, rest)));
        WriteByte(SP, ctx, PutLanguage(tail, rest));
        EncodeLanguage(tail, ctx, rest);
    }
  }

  method EncodeSingle(x: SinglePartExtension, ctx: EncodeContext, ghost rest: Wire)
    modifies ctx
    ensures old(ctx.Valid()) && ValidSingle(x) ==> ctx.Valid()
    ensures ctx.Fits() == (old(ctx.Fits()) && FitsSingle(x))
    ensures Feed(ctx.Dump(), rest) == Feed(old(ctx.Dump()), PutSingle(x, rest))
  {
    match x.tail {
      case None => EncodeNString(x.md5, ctx, rest);
      case Some(tail) =>
        EncodeNString(x.md5, ctx, Byte(SP, PutDisposition(tail, rest)));
        WriteByte(SP, ctx, PutDisposition(tail, rest));
        EncodeDisposition(tail, ctx, rest);
    }
  }

  method EncodeMulti(x: MultiPartExtension, ctx: EncodeContext, ghost rest: Wire)
    modifies ctx
    ensures old(ctx.Valid()) && ValidMulti(x) ==> ctx.Valid()
    ensures ctx.Fits() == (old(ctx.Fits()) && FitsMulti(x))
    ensures Feed(ctx.Dump(), rest) == Feed(old(ctx.Dump()), PutMulti(x, rest))
  {
    match x.tail {
      case None => EncodeParameters(x.parameters, ctx, rest);
      case Some(tail) =>
        EncodeParameters(x.parameters, ctx, Byte(SP, PutDisposition(tail, rest)));
        WriteByte(SP, ctx, PutDisposition(tail, rest));
        EncodeDisposition(tail, ctx, rest);
    }
  }

  method EncodeSingleTail(ext: Option<SinglePartExtension>, ctx: EncodeContext, ghost rest: Wire)
    modifies ctx
    ensures old(ctx.Valid()) && (ext.Some? ==> ValidSingle(ext.value)) ==> ctx.Valid()
    ensures ctx.Fits() == (old(ctx.Fits()) && (ext.Some? ==> FitsSingle(ext.value)))
    ensures Feed(ctx.Dump(), rest) == Feed(old(ctx.Dump()), PutSingleTail(ext, rest))
  {
    if ext.Some? {
      WriteByte(SP, ctx, PutSingle(ext.value, rest));
      EncodeSingle(ext.value, ctx, rest);
    }
  }

  method EncodeMultiTail(ext: Option<MultiPartExtension>, ctx: EncodeContext, ghost rest: Wire)
    modifies ctx
    ensures old(ctx.Valid()) && (ext.Some? ==> ValidMulti(ext.value)) ==> ctx.Valid()
    ensures ctx.Fits() == (old(ctx.Fits()) && (ext.Some? ==> FitsMulti(ext.value)))
    ensures Feed(ctx.Dump(), rest) == Feed(old(ctx.Dump()), PutMultiTail(ext, rest))
  {
    if ext.Some? {
      WriteByte(SP, ctx, PutMulti(ext.value, rest));
      EncodeMulti(ext.value, ctx, rest);
    }
  }

  method EncodeBasicPart(basic: BasicFields, kind: IString, subtype: IString, ctx: EncodeContext, ghost rest: Wire)
    modifies ctx
    ensures old(ctx.Valid()) && ValidFields(basic) && ValidIString(kind) && ValidIString(subtype) ==> ctx.Valid()
    ensures ctx.Fits() == (old(ctx.Fits()) && FitsFields(basic) && FitsIString(kind) && FitsIString(subtype))
    ensures Feed(ctx.Dump(), rest) == Feed(old(ctx.Dump()), PutPart(basic, Basic(kind, subtype), rest))
  {
    ghost var v := PutFields(basic, rest);
    ghost var w := PutIString(subtype, Byte(SP, v));
    EncodeIString(kind, ctx, Byte(SP, w));
    WriteByte(SP, ctx, w);
    EncodeIString(subtype, ctx, Byte(SP, v));
    WriteByte(SP, ctx, v);
    EncodeFields(basic, ctx, rest);
  }

  method EncodeTextPart(basic: BasicFields, subtype: IString, lines: U32, ctx: EncodeContext, ghost rest: Wire)
    modifies ctx
    ensures old(ctx.Valid()) && ValidFields(basic) && ValidIString(subtype) ==> ctx.Valid()
    ensures ctx.Fits() == (old(ctx.Fits()) && FitsFields(basic) && FitsIString(subtype))
    ensures Feed(ctx.Dump(), rest) == Feed(old(ctx.Dump()), PutPart(basic, TextPart(subtype, lines), rest))
  {
    ghost var n := PutNat(lines, rest);
    ghost var v := PutFields(basic, Byte(SP, n));
    TagsArePlain();
    WriteText("\"TEXT\" ", ctx, PutIString(subtype, Byte(SP, v)));
    EncodeIString(subtype, ctx, Byte(SP, v));
    WriteByte(SP, ctx, v);
    EncodeFields(basic, ctx, Byte(SP, n));
    WriteByte(SP, ctx, n);
    EncodeNumber(lines, ctx, rest);
  }

  lemma TagsArePlain()
    ensures PlainText("\"MESSAGE\" \"RFC822\"")
    ensures PlainText("\"TEXT\" ")
  {
  }

  method EncodeMessageHead(basic: BasicFields, envelope: Envelope, ctx: EncodeContext, ghost rest: Wire)
    modifies ctx
    ensures old(ctx.Valid()) && ValidFields(basic) && ValidEnvelope(envelope) ==> ctx.Valid()
    ensures ctx.Fits() == (old(ctx.Fits()) && FitsFields(basic) && FitsEnvelope(envelope))
    ensures Feed(ctx.Dump(), rest)
         == Feed(old(ctx.Dump()), Text("\"MESSAGE\" \"RFC822\"", Byte(SP, PutFields(basic, Byte(SP, PutEnvelope(envelope, rest))))))
  {
    ghost var e := PutEnvelope(envelope, rest);
    ghost var v := PutFields(basic, Byte(SP, e));
    TagsArePlain();
    WriteText("\"MESSAGE\" \"RFC822\"", ctx, Byte(SP, v));
    WriteByte(SP, ctx, v);
    EncodeFields(basic, ctx, Byte(SP, e));
    WriteByte(SP, ctx, e);
    EncodeEnvelope(envelope, ctx, rest);
  }

  method EncodePart(basic: BasicFields, s: SpecificFields, ctx: EncodeContext, ghost rest: Wire)
    modifies ctx
    ensures old(ctx.Valid()) && ValidFields(basic) && ValidSpecific(s) ==> ctx.Valid()
    ensures ctx.Fits() == (old(ctx.Fits()) && FitsFields(basic) && FitsSpecific(s))
    ensures Feed(ctx.Dump(), rest) == Feed(old(ctx.Dump()), PutPart(basic, s, rest))
    decreases s, 0
  {
    match s {
      case Basic(kind, subtype) => EncodeBasicPart(basic, kind, subtype, ctx, rest);
      case TextPart(subtype, lines) => EncodeTextPart(basic, subtype, lines, ctx, rest);
      case Message(envelope, body, lines) =>
        ghost var n := PutNat(lines, rest);
        ghost var j := PutBody(body, Byte(SP, n));
        EncodeMessageHead(basic, envelope, ctx, Byte(SP, j));
        WriteByte(SP, ctx, j);
        EncodeBody(body, ctx, Byte(SP, n));
        WriteByte(SP, ctx, n);
        EncodeNumber(lines, ctx, rest);
    }
  }

  method EncodeBody(b: BodyStructure, ctx: EncodeContext, ghost rest: Wire)
    modifies ctx
    ensures old(ctx.Valid()) && ValidStructure(b) ==> ctx.Valid()
    ensures ctx.Fits() == (old(ctx.Fits()) && FitsStructure(b))
    ensures Feed(ctx.Dump(), rest) == Feed(old(ctx.Dump()), PutBody(b, rest))
    decreases b, 1
  {
    match b {
      case Single(basic, specific, ext) =>
        ghost var tail := PutSingleTail(ext, Byte(RPAREN, rest));
        WriteByte(LPAREN, ctx, PutPart(basic, specific, tail));
        EncodePart(basic, specific, ctx, tail);
        EncodeSingleTail(ext, ctx, Byte(RPAREN, rest));
        WriteByte(RPAREN, ctx, rest);
      case Multi(bodies, subtype, ext) =>
        ghost var i3 := PutMultiTail(ext, Byte(RPAREN, rest));
        ghost var i2 := PutIString(subtype, i3);
        WriteByte(LPAREN, ctx, PutBodies(b, 0, Byte(SP, i2)));
        EncodeBodies(b, ctx, Byte(SP, i2));
        WriteByte(SP, ctx, i2);
        EncodeIString(subtype, ctx, i3);
        EncodeMultiTail(ext, ctx, Byte(RPAREN, rest));
        WriteByte(RPAREN, ctx, rest);
    }
  }

  method EncodeBodies(b: BodyStructure, ctx: EncodeContext, ghost rest: Wire)
    requires b.Multi?
    modifies ctx
    ensures old(ctx.Valid()) && ValidStructure(b) ==> ctx.Valid()
    ensures ctx.Fits() == (old(ctx.Fits()) && FitsBodies(b.bodies))
    ensures Feed(ctx.Dump(), rest) == Feed(old(ctx.Dump()), PutBodies(b, 0, rest))
    decreases b, 0
  {
    for k := 0 to |b.bodies|
      invariant old(ctx.Valid()) && ValidStructure(b) ==> ctx.Valid()
      invariant ctx.Fits() == (old(ctx.Fits()) && First(b.bodies, k, FitsStructure))
      invariant Feed(ctx.Dump(), PutBodies(b, k, rest)) == Feed(old(ctx.Dump()), PutBodies(b, 0, rest))
    {
      FirstNext(b.bodies, k, FitsStructure);
      EncodeBody(b.bodies[k], ctx, PutBodies(b, k + 1, rest));
    }
  }
}
