/** The parts of a body structure that are not nested bodies. */
module BodyFields {
  import opened Octets
  import opened Nom
  import opened Strings
  import opened Envelopes

  type Parameters = seq<(IString, IString)>

  datatype BasicFields = BasicFields(
    parameters: Parameters, id: NString, description: NString, encoding: IString, size: U32)

  predicate GoodParameter(p: (IString, IString)) {
    GoodString(p.0) && GoodString(p.1)
  }

  predicate GoodParameters(list: Parameters) {
    forall k | 0 <= k < |list| :: GoodParameter(list[k])
  }

  predicate GoodFields(f: BasicFields) {
    GoodParameters(f.parameters) && GoodNString(f.id) && GoodNString(f.description) && GoodString(f.encoding)
  }

  // ----- The grammar -----

  ghost predicate ParameterText(p: (IString, IString), i: Wire, rest: Wire) {
    PairText(GoodStringText, GoodStringText, p.0, p.1, i, rest)
  }

  ghost predicate ParameterListText(list: Parameters, i: Wire, rest: Wire) {
    if list == [] then i == rest else SeparatedText(SP, ParameterText, list, i, rest)
  }

  /** Parameters in parentheses, or NIL. No parameters may be written in both ways. */
  ghost predicate ParametersText(list: Parameters, i: Wire, rest: Wire) {
    EnclosedText(ParameterListText, list, i, rest) || (list == [] && WordText("NIL", i, rest))
  }

  ghost predicate SizeText(s: (IString, nat), i: Wire, rest: Wire) {
    PairText(GoodStringText, U32Text, s.0, s.1, i, rest)
  }

  ghost predicate FieldsText(f: BasicFields, i: Wire, rest: Wire) {
    exists j ::
      && PairText(ParametersText, NStringsText, f.parameters, (f.id, f.description), i, Byte(SP, j))
      && SizeText((f.encoding, f.size), j, rest)
  }

  // ----- Writing -----

  function PutParameter(p: (IString, IString), rest: Wire): Wire {
    PutIString(p.0, Byte(SP, PutIString(p.1, rest)))
  }

  /** The parameters from index `k` on, each behind a space. */
  function PutMoreParameters(list: Parameters, k: nat, rest: Wire): Wire
    requires k <= |list|
    decreases |list| - k
  {
    if k == |list| then rest
    else Byte(SP, PutParameter(list[k], PutMoreParameters(list, k + 1, rest)))
  }

  function PutParameters(list: Parameters, rest: Wire): Wire {
    if list == [] then Text("NIL", rest)
    else Byte(LPAREN, PutParameter(list[0], PutMoreParameters(list, 1, Byte(RPAREN, rest))))
  }

  function PutFields(f: BasicFields, rest: Wire): Wire {
    PutParameters(f.parameters, Byte(SP, PutNStrings(f.id, f.description, Byte(SP,
      PutIString(f.encoding, Byte(SP, PutNat(f.size, rest)))))))
  }

  // ----- Reading -----

  /** A parameter, or the two halves of a media type. */
  function ReadStringPair(i: Wire): (r: Outcome<(IString, IString)>)
    ensures r.Consumes(i)
  {
    Pair(ReadString, ReadString, i)
  }

  function ReadParameterList(i: Wire): (r: Outcome<Parameters>)
    ensures r.Ok? ==> Size(r.rest) <= Size(i)
  {
    SeparatedList0(SP, ReadStringPair, i)
  }

  function ReadParameters(i: Wire): (r: Outcome<Parameters>)
    ensures r.Consumes(i)
  {
    Alt(Enclosed(ReadParameterList, i), ReadNil(i).Map(_ => []))
  }

  function ReadEncodingAndSize(i: Wire): (r: Outcome<(IString, nat)>)
    ensures r.Consumes(i)
    ensures r.Ok? ==> r.value.1 <= U32_MAX
  {
    Pair(ReadString, ReadNumber, i)
  }

  function ReadFields(i: Wire): (r: Outcome<BasicFields>)
    ensures r.Consumes(i)
  {
    var (i1, (parameters, (id, description))) :- Pair(ReadParameters, ReadNStrings, i);
    var (i2, (encoding, size)) :- Behind(ReadEncodingAndSize, i1);
    Ok(i2, BasicFields(parameters, id, description, encoding, size))
  }

  // ----- Every text is read -----

  lemma ParameterReads()
    ensures Reads(ReadStringPair, ParameterText, More)
  {
    GoodStringsRead();
    forall p, i, rest {:trigger ParameterText(p, i, rest)} | ParameterText(p, i, rest) && More(rest)
      ensures ReadStringPair(i) == Ok(rest, p)
    {
      PairTextReads(ReadString, ReadString, GoodStringText, GoodStringText, More, More, p.0, p.1, i, rest);
    }
  }

  lemma {:induction false} NoParameterReads(i: Wire)
    requires Closes(i)
    ensures ReadStringPair(i) == Error
  {
  }

  lemma ParameterListReads()
    ensures Reads(ReadParameterList, ParameterListText, Closes)
  {
    ParameterReads();
    forall list, i, rest {:trigger ParameterListText(list, i, rest)} | ParameterListText(list, i, rest) && Closes(rest)
      ensures ReadParameterList(i) == Ok(rest, list)
    {
      if list == [] {
        NoParameterReads(i);
      } else {
        SeparatedTextReads(SP, ReadStringPair, ParameterText, More, list, i, rest);
      }
    }
  }

  lemma {:induction false} NilParametersRead(list: Parameters, i: Wire, rest: Wire)
    requires list == [] && WordText("NIL", i, rest)
    ensures ReadParameters(i) == Ok(rest, list)
  {
    WordIsNoString(i, rest);
    TagIsWord("NIL", i, rest);
  }

  lemma ParametersRead()
    ensures Reads(ReadParameters, ParametersText, Anything)
  {
    ParameterListReads();
    forall list, i, rest {:trigger ParametersText(list, i, rest)} | ParametersText(list, i, rest)
      ensures ReadParameters(i) == Ok(rest, list)
    {
      if EnclosedText(ParameterListText, list, i, rest) {
        EnclosedTextReads(ReadParameterList, ParameterListText, Closes, list, i, rest);
      } else {
        NilParametersRead(list, i, rest);
      }
    }
  }

  lemma SizeReads(s: (IString, nat), i: Wire, rest: Wire)
    requires SizeText(s, i, rest)
    requires EndsNumber(rest)
    ensures ReadEncodingAndSize(i) == Ok(rest, s)
  {
    GoodStringsRead();
    NumbersRead();
    PairTextReads(ReadString, ReadNumber, GoodStringText, U32Text, More, EndsNumber, s.0, s.1, i, rest);
  }

  /** Basic fields are read from any of their texts. */
  lemma FieldsRead()
    ensures Reads(ReadFields, FieldsText, EndsNumber)
  {
    ParametersRead();
    NStringsRead();
    forall f, i, rest {:trigger FieldsText(f, i, rest)} | FieldsText(f, i, rest) && EndsNumber(rest)
      ensures ReadFields(i) == Ok(rest, f)
    {
      FieldsReadAt(f, i, rest);
    }
  }

  lemma FieldsReadAt(f: BasicFields, i: Wire, rest: Wire)
    requires Reads(ReadParameters, ParametersText, Anything) && Reads(ReadNStrings, NStringsText, More)
    requires FieldsText(f, i, rest) && EndsNumber(rest)
    ensures ReadFields(i) == Ok(rest, f)
  {
    var j :|
      && PairText(ParametersText, NStringsText, f.parameters, (f.id, f.description), i, Byte(SP, j))
      && SizeText((f.encoding, f.size), j, rest);
    PairTextReads(ReadParameters, ReadNStrings, ParametersText, NStringsText, Anything, More,
      f.parameters, (f.id, f.description), i, Byte(SP, j));
    SizeReads((f.encoding, f.size), j, rest);
  }

  // ----- What is written is a text -----

  lemma PutGoodStringIsText(s: IString, rest: Wire)
    requires GoodString(s)
    ensures GoodStringText(s, PutIString(s, rest), rest)
  {
    PutIStringIsText(s, rest);
  }

  lemma PutParameterIsText(p: (IString, IString), rest: Wire)
    requires GoodParameter(p)
    ensures ParameterText(p, PutParameter(p, rest), rest)
  {
    PutGoodStringIsText(p.1, rest);
    PutGoodStringIsText(p.0, Byte(SP, PutIString(p.1, rest)));
  }

  function ParametersFrom(list: Parameters, rest: Wire): nat -> Wire {
    (m: nat) => if m < |list| then PutParameter(list[m], PutMoreParameters(list, m + 1, rest)) else rest
  }

  lemma {:induction false} ParameterStands(list: Parameters, m: nat, rest: Wire)
    requires GoodParameters(list) && m < |list|
    ensures ParameterText(list[m], ParametersFrom(list, rest)(m),
              if m + 1 < |list| then Byte(SP, ParametersFrom(list, rest)(m + 1)) else rest)
  {
    PutParameterIsText(list[m], PutMoreParameters(list, m + 1, rest));
  }

  lemma {:induction false} ParametersStand(list: Parameters, rest: Wire) returns (text: nat -> Wire)
    requires GoodParameters(list) && list != []
    ensures StandsSeparated(SP, ParameterText, list, text, rest)
    ensures text(0) == PutParameter(list[0], PutMoreParameters(list, 1, rest))
  {
    text := ParametersFrom(list, rest);
    forall m: nat {:trigger list[m]} | m < |list|
      ensures ParameterText(list[m], text(m), if m + 1 < |list| then Byte(SP, text(m + 1)) else rest)
    {
      ParameterStands(list, m, rest);
    }
  }

  lemma {:induction false} PutParametersIsText(list: Parameters, rest: Wire)
    requires GoodParameters(list)
    ensures ParametersText(list, PutParameters(list, rest), rest)
  {
    if list == [] {
      TextIsWord("NIL", rest);
    } else {
      var text := ParametersStand(list, Byte(RPAREN, rest));
    }
  }

  lemma {:induction false} PutFieldsIsText(f: BasicFields, rest: Wire)
    requires GoodFields(f)
    ensures FieldsText(f, PutFields(f, rest), rest)
  {
    var n := PutNat(f.size, rest);
    var j := PutIString(f.encoding, Byte(SP, n));
    var l := PutNStrings(f.id, f.description, Byte(SP, j));
    PutNatIsText(f.size, rest);
    PutGoodStringIsText(f.encoding, Byte(SP, n));
    assert U32Text(f.size, n, rest);
    PutNStringsIsText(f.id, f.description, Byte(SP, j));
    PutParametersIsText(f.parameters, Byte(SP, l));
    assert PairText(ParametersText, NStringsText, f.parameters, (f.id, f.description), PutFields(f, rest), Byte(SP, j));
  }

  // ----- Only texts are read -----

  lemma ParameterListsAreTexts()
    ensures Accepts(ReadParameterList, ParameterListText)
  {
    GoodStringsAreTexts();
    forall i {:trigger ReadStringPair(i)}
      ensures var r := ReadStringPair(i); r.Ok? ==> ParameterText(r.value, i, r.rest)
    {
      PairIsText(ReadString, ReadString, GoodStringText, GoodStringText, i);
    }
    forall i {:trigger ReadParameterList(i)}
      ensures var r := ReadParameterList(i); r.Ok? ==> ParameterListText(r.value, i, r.rest)
    {
      SeparatedIsText(SP, ReadStringPair, ParameterText, i);
    }
  }

  lemma ParametersAreTexts()
    ensures Accepts(ReadParameters, ParametersText)
  {
    ParameterListsAreTexts();
    forall i {:trigger ReadParameters(i)}
      ensures var r := ReadParameters(i); r.Ok? ==> ParametersText(r.value, i, r.rest)
    {
      EnclosedIsText(ReadParameterList, ParameterListText, i);
      TagTakesWord("NIL", i);
    }
  }

  lemma SizesAreTexts()
    ensures Accepts(ReadEncodingAndSize, SizeText)
  {
    GoodStringsAreTexts();
    NumbersRead();
    forall i {:trigger ReadEncodingAndSize(i)}
      ensures var r := ReadEncodingAndSize(i); r.Ok? ==> SizeText(r.value, i, r.rest)
    {
      PairIsText(ReadString, ReadNumber, GoodStringText, U32Text, i);
    }
  }

  lemma {:induction false} FieldsAreText(i: Wire)
    requires Accepts(ReadParameters, ParametersText) && Accepts(ReadNStrings, NStringsText)
    requires Accepts(ReadEncodingAndSize, SizeText)
    ensures var r := ReadFields(i); r.Ok? ==> FieldsText(r.value, i, r.rest)
  {
    var r := ReadFields(i);
    if r.Ok? {
      PairIsText(ReadParameters, ReadNStrings, ParametersText, NStringsText, i);
      var i1 := Pair(ReadParameters, ReadNStrings, i).rest;
      assert i1 == Byte(SP, i1.tail);
      assert SizeText(ReadEncodingAndSize(i1.tail).value, i1.tail, r.rest);
    }
  }

  lemma FieldsAreTexts()
    ensures Accepts(ReadFields, FieldsText)
  {
    ParametersAreTexts();
    NStringsAreTexts();
    SizesAreTexts();
    forall i {:trigger ReadFields(i)} ensures var r := ReadFields(i); r.Ok? ==> FieldsText(r.value, i, r.rest) {
      FieldsAreText(i);
    }
  }

  // ----- What is read is legal -----

  lemma StringSound()
    ensures Sound(ReadString, GoodString)
  {
    forall i {:trigger ReadString(i)} ensures ReadString(i).Ok? ==> GoodString(ReadString(i).value) {
      StringIsGood(i);
    }
  }

  lemma ParameterSound()
    ensures Sound(ReadStringPair, GoodParameter)
  {
    StringSound();
    forall i {:trigger ReadStringPair(i)} ensures ReadStringPair(i).Ok? ==> GoodParameter(ReadStringPair(i).value) {
      PairSound(ReadString, ReadString, i, GoodString, GoodString);
    }
  }

  lemma ParameterListSound()
    ensures Sound(ReadParameterList, GoodParameters)
  {
    ParameterSound();
    forall i {:trigger ReadParameterList(i)}
      ensures ReadParameterList(i).Ok? ==> GoodParameters(ReadParameterList(i).value)
    {
      SeparatedListSound(SP, ReadStringPair, i, GoodParameter);
    }
  }

  lemma ParametersSound()
    ensures Sound(ReadParameters, GoodParameters)
  {
    ParameterListSound();
    forall i {:trigger ReadParameters(i)} ensures ReadParameters(i).Ok? ==> GoodParameters(ReadParameters(i).value) {
      EnclosedSound(ReadParameterList, i, GoodParameters);
    }
  }

  lemma FieldsAreGood(i: Wire)
    ensures ReadFields(i).Ok? ==> GoodFields(ReadFields(i).value)
  {
    if ReadFields(i).Ok? {
      ParametersSound();
      NStringsSound();
      StringSound();
      PairSound(ReadParameters, ReadNStrings, i, GoodParameters, GoodNStrings);
      var i1 := Pair(ReadParameters, ReadNStrings, i).rest;
      PairSound(ReadString, ReadNumber, i1.tail, GoodString, _ => true);
    }
  }
}
