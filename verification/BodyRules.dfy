/** What makes an envelope or body structure legal, in two parts: the rules of its types, and
    that the length of each of its literals can be announced in 32 bits. */
module BodyRules {
  import opened Octets
  import opened Strings
  import opened Envelopes
  import opened BodyFields
  import opened BodyExtensions
  import opened BodyTails
  import opened Bodies

  // ----- The rules of the types -----

  predicate ValidAddress(a: Address) {
    ValidNString(a.name) && ValidNString(a.adl) && ValidNString(a.mailbox) && ValidNString(a.host)
  }

  predicate ValidAddresses(list: seq<Address>) {
    forall k | 0 <= k < |list| :: ValidAddress(list[k])
  }

  predicate ValidEnvelope(e: Envelope) {
    && ValidNString(e.date) && ValidNString(e.subject)
    && ValidAddresses(e.from) && ValidAddresses(e.sender) && ValidAddresses(e.replyTo)
    && ValidAddresses(e.recipients) && ValidAddresses(e.cc) && ValidAddresses(e.bcc)
    && ValidNString(e.inReplyTo) && ValidNString(e.messageId)
  }

  predicate ValidParameter(p: (IString, IString)) {
    ValidIString(p.0) && ValidIString(p.1)
  }

  predicate ValidParameters(list: Parameters) {
    forall k | 0 <= k < |list| :: ValidParameter(list[k])
  }

  predicate ValidFields(f: BasicFields) {
    ValidParameters(f.parameters) && ValidNString(f.id) && ValidNString(f.description) && ValidIString(f.encoding)
  }

  predicate ValidExtension(e: BodyExtension) {
    match e
    case NStringExtension(s) => ValidNString(s)
    case NumberExtension(_) => true
    case ListExtension(items) => items != [] && forall k | 0 <= k < |items| :: ValidExtension(items[k])
  }

  predicate ValidLocation(l: Location) {
    ValidNString(l.location) && forall k | 0 <= k < |l.extensions| :: ValidExtension(l.extensions[k])
  }

  predicate ValidStrings(list: seq<IString>) {
    forall k | 0 <= k < |list| :: ValidIString(list[k])
  }

  predicate ValidLanguage(l: Language) {
    ValidStrings(l.language) && (l.tail.Some? ==> ValidLocation(l.tail.value))
  }

  predicate ValidKind(d: Option<(IString, Parameters)>) {
    d.Some? ==> ValidIString(d.value.0) && ValidParameters(d.value.1)
  }

  predicate ValidDisposition(d: Disposition) {
    ValidKind(d.disposition) && (d.tail.Some? ==> ValidLanguage(d.tail.value))
  }

  predicate ValidSingle(x: SinglePartExtension) {
    ValidNString(x.md5) && (x.tail.Some? ==> ValidDisposition(x.tail.value))
  }

  predicate ValidMulti(x: MultiPartExtension) {
    ValidParameters(x.parameters) && (x.tail.Some? ==> ValidDisposition(x.tail.value))
  }

  predicate ValidStructure(b: BodyStructure)
    decreases b, 1
  {
    match b
    case Single(basic, specific, ext) =>
      ValidFields(basic) && ValidSpecific(specific) && (ext.Some? ==> ValidSingle(ext.value))
    case Multi(bodies, subtype, ext) =>
      && bodies != []
      && (forall k | 0 <= k < |bodies| :: ValidStructure(bodies[k]))
      && ValidIString(subtype) && (ext.Some? ==> ValidMulti(ext.value))
  }

  predicate ValidSpecific(s: SpecificFields)
    decreases s, 0
  {
    match s
    case Basic(kind, subtype) => ValidIString(kind) && ValidIString(subtype)
    case Message(envelope, body, _) => ValidEnvelope(envelope) && ValidStructure(body)
    case TextPart(subtype, _) => ValidIString(subtype)
  }

  // ----- Lengths that can be announced -----

  predicate FitsAddress(a: Address) {
    FitsNString(a.name) && FitsNString(a.adl) && FitsNString(a.mailbox) && FitsNString(a.host)
  }

  predicate FitsAddresses(list: seq<Address>) {
    First(list, |list|, FitsAddress)
  }

  predicate FitsEnvelope(e: Envelope) {
    && FitsNString(e.date) && FitsNString(e.subject)
    && FitsAddresses(e.from) && FitsAddresses(e.sender) && FitsAddresses(e.replyTo)
    && FitsAddresses(e.recipients) && FitsAddresses(e.cc) && FitsAddresses(e.bcc)
    && FitsNString(e.inReplyTo) && FitsNString(e.messageId)
  }

  predicate FitsParameter(p: (IString, IString)) {
    FitsIString(p.0) && FitsIString(p.1)
  }

  predicate FitsParameters(list: Parameters) {
    First(list, |list|, FitsParameter)
  }

  predicate FitsFields(f: BasicFields) {
    FitsParameters(f.parameters) && FitsNString(f.id) && FitsNString(f.description) && FitsIString(f.encoding)
  }

  predicate FitsExtension(e: BodyExtension) {
    match e
    case NStringExtension(s) => FitsNString(s)
    case NumberExtension(_) => true
    case ListExtension(items) => forall k | 0 <= k < |items| :: FitsExtension(items[k])
  }

  predicate FitsLocation(l: Location) {
    FitsNString(l.location) && First(l.extensions, |l.extensions|, FitsExtension)
  }

  predicate FitsStrings(list: seq<IString>) {
    First(list, |list|, FitsIString)
  }

  predicate FitsLanguage(l: Language) {
    FitsStrings(l.language) && (l.tail.Some? ==> FitsLocation(l.tail.value))
  }

  predicate FitsKind(d: Option<(IString, Parameters)>) {
    d.Some? ==> FitsIString(d.value.0) && FitsParameters(d.value.1)
  }

  predicate FitsDisposition(d: Disposition) {
    FitsKind(d.disposition) && (d.tail.Some? ==> FitsLanguage(d.tail.value))
  }

  predicate FitsSingle(x: SinglePartExtension) {
    FitsNString(x.md5) && (x.tail.Some? ==> FitsDisposition(x.tail.value))
  }

  predicate FitsMulti(x: MultiPartExtension) {
    FitsParameters(x.parameters) && (x.tail.Some? ==> FitsDisposition(x.tail.value))
  }

  predicate FitsBodies(bodies: seq<BodyStructure>)
    decreases bodies
  {
    forall k | 0 <= k < |bodies| :: FitsStructure(bodies[k])
  }

  predicate FitsStructure(b: BodyStructure)
    decreases b, 1
  {
    match b
    case Single(basic, specific, ext) =>
      FitsFields(basic) && FitsSpecific(specific) && (ext.Some? ==> FitsSingle(ext.value))
    case Multi(bodies, subtype, ext) =>
      FitsBodies(bodies) && FitsIString(subtype) && (ext.Some? ==> FitsMulti(ext.value))
  }

  predicate FitsSpecific(s: SpecificFields)
    decreases s, 0
  {
    match s
    case Basic(kind, subtype) => FitsIString(kind) && FitsIString(subtype)
    case Message(envelope, body, _) => FitsEnvelope(envelope) && FitsStructure(body)
    case TextPart(subtype, _) => FitsIString(subtype)
  }

  // ----- Both -----

  lemma {:induction false} EnvelopeRules(e: Envelope)
    ensures GoodEnvelope(e) <==> ValidEnvelope(e) && FitsEnvelope(e)
  {
    AddressRules(e.from);
    AddressRules(e.sender);
    AddressRules(e.replyTo);
    AddressRules(e.recipients);
    AddressRules(e.cc);
    AddressRules(e.bcc);
  }

  lemma AddressRules(list: seq<Address>)
    ensures GoodAddresses(list) <==> ValidAddresses(list) && FitsAddresses(list)
  {
  }

  lemma ParameterRules(list: Parameters)
    ensures GoodParameters(list) <==> ValidParameters(list) && FitsParameters(list)
  {
  }

  lemma StringRules(list: seq<IString>)
    ensures GoodStrings(list) <==> ValidStrings(list) && FitsStrings(list)
  {
  }

  lemma {:induction false} ExtensionRules(e: BodyExtension)
    ensures GoodExtension(e) <==> ValidExtension(e) && FitsExtension(e)
  {
    if e.ListExtension? {
      forall k | 0 <= k < |e.items|
        ensures GoodExtension(e.items[k]) <==> ValidExtension(e.items[k]) && FitsExtension(e.items[k])
      {
        ExtensionRules(e.items[k]);
      }
    }
  }

  lemma LocationRules(l: Location)
    ensures GoodLocation(l) <==> ValidLocation(l) && FitsLocation(l)
  {
    forall k | 0 <= k < |l.extensions|
      ensures GoodExtension(l.extensions[k]) <==> ValidExtension(l.extensions[k]) && FitsExtension(l.extensions[k])
    {
      ExtensionRules(l.extensions[k]);
    }
  }

  lemma DispositionRules(d: Disposition)
    ensures GoodDisposition(d) <==> ValidDisposition(d) && FitsDisposition(d)
  {
    if d.disposition.Some? {
      ParameterRules(d.disposition.value.1);
    }
    if d.tail.Some? {
      StringRules(d.tail.value.language);
      if d.tail.value.tail.Some? {
        LocationRules(d.tail.value.tail.value);
      }
    }
  }

  lemma SingleRules(x: SinglePartExtension)
    ensures GoodSingle(x) <==> ValidSingle(x) && FitsSingle(x)
  {
    if x.tail.Some? {
      DispositionRules(x.tail.value);
    }
  }

  lemma MultiRules(x: MultiPartExtension)
    ensures GoodMulti(x) <==> ValidMulti(x) && FitsMulti(x)
  {
    ParameterRules(x.parameters);
    if x.tail.Some? {
      DispositionRules(x.tail.value);
    }
  }

  /** A body structure can be written and read back exactly when it follows the rules of its
      types and all its literals can be announced. */
  lemma {:induction false} StructureRules(b: BodyStructure)
    ensures GoodBody(b) <==> ValidStructure(b) && FitsStructure(b)
    decreases b, 1
  {
    match b
    case Single(basic, specific, ext) =>
      ParameterRules(basic.parameters);
      SpecificRules(specific);
      if ext.Some? {
        SingleRules(ext.value);
      }
    case Multi(bodies, _, ext) =>
      forall k | 0 <= k < |bodies| ensures GoodBody(bodies[k]) <==> ValidStructure(bodies[k]) && FitsStructure(bodies[k]) {
        StructureRules(bodies[k]);
      }
      if ext.Some? {
        MultiRules(ext.value);
      }
  }

  lemma {:induction false} SpecificRules(s: SpecificFields)
    ensures GoodSpecific(s) <==> ValidSpecific(s) && FitsSpecific(s)
    decreases s, 0
  {
    if s.Message? {
      EnvelopeRules(s.envelope);
      StructureRules(s.body);
    }
  }
}
