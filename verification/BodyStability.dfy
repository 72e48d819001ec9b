/** What was read as a body structure is not read differently when more bytes arrive. */
module BodyStability {
  import opened Octets
  import opened Nom
  import opened Strings
  import opened Envelopes
  import opened BodyFields
  import opened BodyExtensions
  import opened BodyTails
  import opened Bodies

  // ----- Envelopes -----

  lemma AnyNStringStable()
    ensures Stable(ReadNString)
  {
    forall i, q {:trigger ReadNString(Join(i, q))}
      ensures Extends(ReadNString(i), ReadNString(Join(i, q)), q)
    {
      NStringStable(i, q);
    }
  }

  lemma AnyStringStable()
    ensures Stable(ReadString)
  {
    forall i, q {:trigger ReadString(Join(i, q))}
      ensures Extends(ReadString(i), ReadString(Join(i, q)), q)
    {
      StringStable(i, q);
    }
  }

  lemma NStringsStable()
    ensures Stable(ReadNStrings)
  {
    AnyNStringStable();
    forall i, q {:trigger ReadNStrings(Join(i, q))}
      ensures Extends(ReadNStrings(i), ReadNStrings(Join(i, q)), q)
    {
      PairStable(ReadNString, ReadNString, i, q);
    }
  }

  lemma AddressFieldsStable()
    ensures Stable(ReadAddressFields)
  {
    NStringsStable();
    forall i, q {:trigger ReadAddressFields(Join(i, q))}
      ensures Extends(ReadAddressFields(i), ReadAddressFields(Join(i, q)), q)
    {
      PairStable(ReadNStrings, ReadNStrings, i, q);
    }
  }

  lemma AddressStable()
    ensures Stable(ReadAddress)
  {
    AddressFieldsStable();
    forall i, q {:trigger ReadAddress(Join(i, q))}
      ensures Extends(ReadAddress(i), ReadAddress(Join(i, q)), q)
    {
      EnclosedStable(ReadAddressFields, i, q);
    }
  }

  lemma AddressListStable()
    ensures Stable(ReadAddressList)
  {
    AddressStable();
    forall i, q {:trigger ReadAddressList(Join(i, q))}
      ensures Extends(ReadAddressList(i), ReadAddressList(Join(i, q)), q)
    {
      Many1Stable(ReadAddress, i, q);
    }
  }

  lemma AddressesStable()
    ensures Stable(ReadAddresses)
  {
    AddressListStable();
    forall i, q {:trigger ReadAddresses(Join(i, q))}
      ensures Extends(ReadAddresses(i), ReadAddresses(Join(i, q)), q)
    {
      EnclosedStable(ReadAddressList, i, q);
      TagStable("NIL", i, q);
    }
  }

  lemma ListsStable()
    ensures Stable(ReadLists)
  {
    AddressesStable();
    forall i, q {:trigger ReadLists(Join(i, q))}
      ensures Extends(ReadLists(i), ReadLists(Join(i, q)), q)
    {
      TripleStable(ReadAddresses, ReadAddresses, ReadAddresses, i, q);
    }
  }

  lemma AllListsStable()
    ensures Stable(ReadAllLists)
  {
    ListsStable();
    forall i, q {:trigger ReadAllLists(Join(i, q))}
      ensures Extends(ReadAllLists(i), ReadAllLists(Join(i, q)), q)
    {
      PairStable(ReadLists, ReadLists, i, q);
    }
  }

  lemma EnvelopeFieldsStable()
    ensures Stable(ReadEnvelopeFields)
  {
    NStringsStable();
    AllListsStable();
    forall i, q {:trigger ReadEnvelopeFields(Join(i, q))}
      ensures Extends(ReadEnvelopeFields(i), ReadEnvelopeFields(Join(i, q)), q)
    {
      TripleStable(ReadNStrings, ReadAllLists, ReadNStrings, i, q);
    }
  }

  lemma EnvelopeStable()
    ensures Stable(ReadEnvelope)
  {
    EnvelopeFieldsStable();
    forall i, q {:trigger ReadEnvelope(Join(i, q))}
      ensures Extends(ReadEnvelope(i), ReadEnvelope(Join(i, q)), q)
    {
      EnclosedStable(ReadEnvelopeFields, i, q);
    }
  }

  // ----- Fields and extension data -----

  lemma StringPairStable()
    ensures Stable(ReadStringPair)
  {
    AnyStringStable();
    forall i, q {:trigger ReadStringPair(Join(i, q))}
      ensures Extends(ReadStringPair(i), ReadStringPair(Join(i, q)), q)
    {
      PairStable(ReadString, ReadString, i, q);
    }
  }

  lemma ParameterListStable()
    ensures Stable(ReadParameterList)
  {
    StringPairStable();
    forall i, q {:trigger ReadParameterList(Join(i, q))}
      ensures Extends(ReadParameterList(i), ReadParameterList(Join(i, q)), q)
    {
      SeparatedList1Stable(SP, ReadStringPair, i, q);
    }
  }

  lemma ParametersStable()
    ensures Stable(ReadParameters)
  {
    ParameterListStable();
    forall i, q {:trigger ReadParameters(Join(i, q))}
      ensures Extends(ReadParameters(i), ReadParameters(Join(i, q)), q)
    {
      EnclosedStable(ReadParameterList, i, q);
      TagStable("NIL", i, q);
    }
  }

  lemma AnyNumberStable()
    ensures Stable(ReadNumber)
  {
    forall i, q {:trigger ReadNumber(Join(i, q))}
      ensures Extends(ReadNumber(i), ReadNumber(Join(i, q)), q)
    {
      NumberStable(i, q);
    }
  }

  lemma EncodingAndSizeStable()
    ensures Stable(ReadEncodingAndSize)
  {
    AnyStringStable();
    AnyNumberStable();
    forall i, q {:trigger ReadEncodingAndSize(Join(i, q))}
      ensures Extends(ReadEncodingAndSize(i), ReadEncodingAndSize(Join(i, q)), q)
    {
      PairStable(ReadString, ReadNumber, i, q);
    }
  }

  lemma FieldsStable()
    ensures Stable(ReadFields)
  {
    ParametersStable();
    NStringsStable();
    EncodingAndSizeStable();
    forall i, q {:trigger ReadFields(Join(i, q))}
      ensures Extends(ReadFields(i), ReadFields(Join(i, q)), q)
    {
      PairStable(ReadParameters, ReadNStrings, i, q);
      if Pair(ReadParameters, ReadNStrings, i).Ok? {
        BehindStable(ReadEncodingAndSize, Pair(ReadParameters, ReadNStrings, i).rest, q);
      }
    }
  }

  ghost predicate ExtensionStays(d: nat, i: Wire, q: Wire) {
    Extends(ReadExtension(d, i), ReadExtension(d, Join(i, q)), q)
  }

  ghost predicate NestedStays(d: nat, i: Wire, q: Wire) {
    d > 0 ==> Extends(ReadListExtension(d - 1, i), ReadListExtension(d - 1, Join(i, q)), q)
  }

  lemma {:induction false} ExtensionReaderStable(d: nat)
    ensures Stable(ExtensionReader(d))
    decreases d, 2
  {
    var p := ExtensionReader(d);
    forall i, q {:trigger p(Join(i, q))}
      ensures Extends(p(i), p(Join(i, q)), q)
    {
      ExtensionStable(d, i, q);
    }
  }

  lemma {:induction false} ExtensionStable(d: nat, i: Wire, q: Wire)
    ensures ExtensionStays(d, i, q)
    decreases d, 1
  {
    NestedExtensionStable(d, i, q);
    ExtensionFormsStable(d, i, q);
  }

  lemma {:induction false} NestedExtensionStable(d: nat, i: Wire, q: Wire)
    ensures NestedStays(d, i, q)
    decreases d, 0
  {
    if d > 0 {
      ExtensionReaderStable(d - 1);
      ListExtensionStable(d - 1, i, q);
    }
  }

  lemma ExtensionListStable(d: nat, i: Wire, q: Wire)
    requires Stable(ExtensionReader(d))
    ensures Extends(ReadExtensionList(d, i), ReadExtensionList(d, Join(i, q)), q)
  {
    SeparatedList1Stable(SP, ExtensionReader(d), i, q);
  }

  lemma ListExtensionStable(d: nat, i: Wire, q: Wire)
    requires Stable(ExtensionReader(d))
    ensures Extends(ReadListExtension(d, i), ReadListExtension(d, Join(i, q)), q)
  {
    var list := (j: Wire) => ReadExtensionList(d, j);
    forall i, q {:trigger list(Join(i, q))}
      ensures Extends(list(i), list(Join(i, q)), q)
    {
      ExtensionListStable(d, i, q);
    }
    EnclosedStable(list, i, q);
  }

  lemma {:induction false} ExtensionFormsStable(d: nat, i: Wire, q: Wire)
    requires NestedStays(d, i, q)
    ensures ExtensionStays(d, i, q)
  {
    if d > 0 {
      var j := Join(i, q);
      NStringExtensionStable(i, q);
      NumberExtensionStable(i, q);
      AltsStable(ReadExtension(d, i), ReadExtension(d, j),
                 ReadNStringExtension(i), ReadNStringExtension(j),
                 ReadNumberExtension(i), ReadNumberExtension(j),
                 ReadListExtension(d - 1, i), ReadListExtension(d - 1, j), q);
    }
  }

  lemma {:induction false} NStringExtensionStable(i: Wire, q: Wire)
    ensures Extends(ReadNStringExtension(i), ReadNStringExtension(Join(i, q)), q)
  {
    NStringStable(i, q);
  }

  lemma {:induction false} NumberExtensionStable(i: Wire, q: Wire)
    ensures Extends(ReadNumberExtension(i), ReadNumberExtension(Join(i, q)), q)
  {
    NumberStable(i, q);
  }

  lemma SpacedStable()
    ensures Stable(ReadSpaced)
  {
    forall i, q {:trigger ReadSpaced(Join(i, q))}
      ensures Extends(ReadSpaced(i), ReadSpaced(Join(i, q)), q)
    {
      ExtensionReaderStable(EXTENSION_LEVELS);
      BehindStable(ExtensionReader(EXTENSION_LEVELS), i, q);
    }
  }

  lemma LocationStable()
    ensures Stable(ReadLocation)
  {
    SpacedStable();
    forall i, q {:trigger ReadLocation(Join(i, q))}
      ensures Extends(ReadLocation(i), ReadLocation(Join(i, q)), q)
    {
      NStringStable(i, q);
      if ReadNString(i).Ok? {
        Many1Stable(ReadSpaced, ReadNString(i).rest, q);
      }
    }
  }

  lemma StringListStable()
    ensures Stable(ReadStringList)
  {
    AnyStringStable();
    forall i, q {:trigger ReadStringList(Join(i, q))}
      ensures Extends(ReadStringList(i), ReadStringList(Join(i, q)), q)
    {
      SeparatedList1Stable(SP, ReadString, i, q);
    }
  }

  lemma StringsStable()
    ensures Stable(ReadStrings)
  {
    StringListStable();
    forall i, q {:trigger ReadStrings(Join(i, q))}
      ensures Extends(ReadStrings(i), ReadStrings(Join(i, q)), q)
    {
      NStringStable(i, q);
      EnclosedStable(ReadStringList, i, q);
    }
  }

  lemma LanguageStable()
    ensures Stable(ReadLanguage)
  {
    StringsStable();
    LocationStable();
    forall i, q {:trigger ReadLanguage(Join(i, q))}
      ensures Extends(ReadLanguage(i), ReadLanguage(Join(i, q)), q)
    {
      WithTailStable(ReadStrings, ReadLocation, i, q);
    }
  }

  lemma KindFieldsStable()
    ensures Stable(ReadKindFields)
  {
    AnyStringStable();
    ParametersStable();
    forall i, q {:trigger ReadKindFields(Join(i, q))}
      ensures Extends(ReadKindFields(i), ReadKindFields(Join(i, q)), q)
    {
      PairStable(ReadString, ReadParameters, i, q);
    }
  }

  lemma KindStable()
    ensures Stable(ReadKind)
  {
    KindFieldsStable();
    forall i, q {:trigger ReadKind(Join(i, q))}
      ensures Extends(ReadKind(i), ReadKind(Join(i, q)), q)
    {
      EnclosedStable(ReadKindFields, i, q);
      TagStable("NIL", i, q);
    }
  }

  lemma DispositionStable()
    ensures Stable(ReadDisposition)
  {
    KindStable();
    LanguageStable();
    forall i, q {:trigger ReadDisposition(Join(i, q))}
      ensures Extends(ReadDisposition(i), ReadDisposition(Join(i, q)), q)
    {
      WithTailStable(ReadKind, ReadLanguage, i, q);
    }
  }

  lemma SingleStable()
    ensures Stable(ReadSingle)
  {
    AnyNStringStable();
    DispositionStable();
    forall i, q {:trigger ReadSingle(Join(i, q))}
      ensures Extends(ReadSingle(i), ReadSingle(Join(i, q)), q)
    {
      WithTailStable(ReadNString, ReadDisposition, i, q);
    }
  }

  lemma MultiStable()
    ensures Stable(ReadMulti)
  {
    ParametersStable();
    DispositionStable();
    forall i, q {:trigger ReadMulti(Join(i, q))}
      ensures Extends(ReadMulti(i), ReadMulti(Join(i, q)), q)
    {
      WithTailStable(ReadParameters, ReadDisposition, i, q);
    }
  }

  // ----- Body structures -----

  lemma LinesStable()
    ensures Stable(ReadLines)
  {
    forall i, q {:trigger ReadLines(Join(i, q))}
      ensures Extends(ReadLines(i), ReadLines(Join(i, q)), q)
    {
      NumberStable(i, q);
    }
  }

  lemma BasicPartStable(i: Wire, q: Wire)
    ensures Extends(ReadBasicPart(i), ReadBasicPart(Join(i, q)), q)
  {
    StringPairStable();
    FieldsStable();
    PairStable(ReadStringPair, ReadFields, i, q);
  }

  lemma TextPartStable(i: Wire, q: Wire)
    ensures Extends(ReadTextPart(i), ReadTextPart(Join(i, q)), q)
  {
    AnyStringStable();
    FieldsStable();
    LinesStable();
    TagStable("\"TEXT\" ", i, q);
    if TagNoCase("\"TEXT\" ", i).Ok? {
      TripleStable(ReadString, ReadFields, ReadLines, TagNoCase("\"TEXT\" ", i).rest, q);
    }
  }

  lemma MessageHeadStable(i: Wire, q: Wire)
    ensures Extends(ReadMessageHead(i), ReadMessageHead(Join(i, q)), q)
  {
    FieldsStable();
    EnvelopeStable();
    TagStable("\"MESSAGE\" \"RFC822\"", i, q);
    if TagNoCase("\"MESSAGE\" \"RFC822\"", i).Ok? {
      var i1 := TagNoCase("\"MESSAGE\" \"RFC822\"", i).rest;
      CharStable(SP, i1, q);
      if Char(SP, i1).Ok? {
        PairStable(ReadFields, ReadEnvelope, Char(SP, i1).rest, q);
      }
    }
  }

  lemma {:induction false} MessagePartStable(i: Wire, q: Wire)
    ensures Extends(ReadMessagePart(MESSAGE_LEVELS, i), ReadMessagePart(MESSAGE_LEVELS, Join(i, q)), q)
    decreases Size(i), 0
  {
    MessageHeadStable(i, q);
    if ReadMessageHead(i).Ok? {
      var i1 := ReadMessageHead(i).rest;
      CharStable(SP, i1, q);
      if Char(SP, i1).Ok? {
        var i2 := Char(SP, i1).rest;
        assert Size(i2) < Size(i);
        BodyStable(MESSAGE_LEVELS - 1, i2, q);
        if ReadBody(MESSAGE_LEVELS - 1, i2).Ok? {
          LinesStable();
          BehindStable(ReadLines, ReadBody(MESSAGE_LEVELS - 1, i2).rest, q);
        }
      }
    }
  }

  lemma {:induction false} PartStable(i: Wire, q: Wire)
    ensures Extends(ReadPart(i), ReadPart(Join(i, q)), q)
    decreases Size(i), 1
  {
    MessagePartStable(i, q);
    TextPartStable(i, q);
    BasicPartStable(i, q);
    var j := Join(i, q);
    AltStable(ReadTextPart(i), ReadTextPart(j), ReadBasicPart(i), ReadBasicPart(j), q);
    AltStable(ReadMessagePart(MESSAGE_LEVELS, i), ReadMessagePart(MESSAGE_LEVELS, j),
      Alt(ReadTextPart(i), ReadBasicPart(i)), Alt(ReadTextPart(j), ReadBasicPart(j)), q);
  }

  lemma SingleTailStable(i: Wire, q: Wire)
    ensures Extends(Opt(Behind(ReadSingle, i), i), Opt(Behind(ReadSingle, Join(i, q)), Join(i, q)), q)
  {
    SingleStable();
    BehindStable(ReadSingle, i, q);
    OptStable(Behind(ReadSingle, i), Behind(ReadSingle, Join(i, q)), i, q);
  }

  lemma {:induction false} SinglePartStable(r: nat, i: Wire, q: Wire)
    ensures Extends(ReadSinglePart(r, i), ReadSinglePart(r, Join(i, q)), q)
    decreases Size(i), 2
  {
    if r > 0 {
      PartStable(i, q);
      if ReadPart(i).Ok? {
        SingleTailStable(ReadPart(i).rest, q);
      }
    }
  }

  lemma SubtypeStable(i: Wire, q: Wire)
    ensures Extends(WithTail(ReadString, ReadMulti, i), WithTail(ReadString, ReadMulti, Join(i, q)), q)
  {
    AnyStringStable();
    MultiStable();
    WithTailStable(ReadString, ReadMulti, i, q);
  }

  lemma {:induction false} MultiPartStable(r: nat, i: Wire, q: Wire)
    ensures Extends(ReadMultiPart(r, i), ReadMultiPart(r, Join(i, q)), q)
    decreases Size(i), 5
  {
    if r > 0 {
      BodiesStable(r, i, q);
      if ReadBodies(r, i).Ok? {
        var i1 := ReadBodies(r, i).rest;
        CharStable(SP, i1, q);
        if Char(SP, i1).Ok? {
          SubtypeStable(Char(SP, i1).rest, q);
        }
      }
    }
  }

  lemma {:induction false} BodiesStable(r: nat, i: Wire, q: Wire)
    ensures Extends(ReadBodies(r, i), ReadBodies(r, Join(i, q)), q)
    decreases Size(i), 4
  {
    BodyStable(r, i, q);
    if ReadBody(r, i).Ok? {
      MoreBodiesStable(r, ReadBody(r, i).rest, [ReadBody(r, i).value], q);
    }
  }

  lemma {:induction false} MoreBodiesStable(r: nat, i: Wire, acc: seq<BodyStructure>, q: Wire)
    ensures Extends(ReadMoreBodies(r, i, acc), ReadMoreBodies(r, Join(i, q), acc), q)
    decreases Size(i), 4
  {
    BodyStable(r, i, q);
    if ReadBody(r, i).Ok? {
      MoreBodiesStable(r, ReadBody(r, i).rest, acc + [ReadBody(r, i).value], q);
    }
  }

  /** For every limit and every input: an accepted body structure is read the same, an error
      stays an error, and a failure other than a request for literal data stays the same
      failure, when more bytes arrive. */
  lemma {:induction false} BodyStable(r: nat, i: Wire, q: Wire)
    ensures Extends(ReadBody(r, i), ReadBody(r, Join(i, q)), q)
    decreases Size(i), 3
  {
    if r > 0 {
      CharStable(LPAREN, i, q);
      if Char(LPAREN, i).Ok? {
        var i1 := Char(LPAREN, i).rest;
        FormsStable(r - 1, i1, q);
        if ReadForms(r - 1, i1).Ok? {
          CharStable(RPAREN, ReadForms(r - 1, i1).rest, q);
        }
      }
    }
  }

  lemma {:induction false} FormsStable(r: nat, i: Wire, q: Wire)
    ensures Extends(ReadForms(r, i), ReadForms(r, Join(i, q)), q)
    decreases Size(i), 6
  {
    SinglePartStable(r, i, q);
    MultiPartStable(r, i, q);
    AltStable(ReadSinglePart(r, i), ReadSinglePart(r, Join(i, q)),
      ReadMultiPart(r, i), ReadMultiPart(r, Join(i, q)), q);
  }
}
