/** The optional tails of extension data, each of which may carry the next one. */
module BodyTails {
  import opened Octets
  import opened Nom
  import opened Strings
  import opened Envelopes
  import opened BodyFields
  import opened BodyExtensions

  datatype Location = Location(location: NString, extensions: seq<BodyExtension>)
  datatype Language = Language(language: seq<IString>, tail: Option<Location>)
  datatype Disposition = Disposition(disposition: Option<(IString, Parameters)>, tail: Option<Language>)
  datatype SinglePartExtension = SinglePartExtension(md5: NString, tail: Option<Disposition>)
  datatype MultiPartExtension = MultiPartExtension(parameters: Parameters, tail: Option<Disposition>)

  predicate GoodLocation(l: Location) {
    GoodNString(l.location) && forall k | 0 <= k < |l.extensions| :: GoodExtension(l.extensions[k])
  }

  predicate LocationWithin(l: Location) {
    AllWithin(l.extensions, EXTENSION_LEVELS)
  }

  predicate AllWithin(list: seq<BodyExtension>, d: nat) {
    forall k | 0 <= k < |list| :: ExtensionWithin(list[k], d)
  }

  predicate GoodStrings(list: seq<IString>) {
    forall k | 0 <= k < |list| :: GoodString(list[k])
  }

  predicate GoodLanguage(l: Language) {
    GoodStrings(l.language) && (l.tail.Some? ==> GoodLocation(l.tail.value))
  }

  predicate LanguageWithin(l: Language) {
    l.tail.Some? ==> LocationWithin(l.tail.value)
  }

  predicate GoodKind(d: Option<(IString, Parameters)>) {
    d.Some? ==> GoodString(d.value.0) && GoodParameters(d.value.1)
  }

  predicate GoodDisposition(d: Disposition) {
    GoodKind(d.disposition) && (d.tail.Some? ==> GoodLanguage(d.tail.value))
  }

  predicate DispositionWithin(d: Disposition) {
    d.tail.Some? ==> LanguageWithin(d.tail.value)
  }

  predicate GoodSingle(x: SinglePartExtension) {
    GoodNString(x.md5) && (x.tail.Some? ==> GoodDisposition(x.tail.value))
  }

  predicate SingleWithin(x: SinglePartExtension) {
    x.tail.Some? ==> DispositionWithin(x.tail.value)
  }

  predicate GoodMulti(x: MultiPartExtension) {
    GoodParameters(x.parameters) && (x.tail.Some? ==> GoodDisposition(x.tail.value))
  }

  predicate MultiWithin(x: MultiPartExtension) {
    x.tail.Some? ==> DispositionWithin(x.tail.value)
  }

  // ----- The grammar -----

  ghost predicate SpacedText(e: BodyExtension, i: Wire, rest: Wire) {
    Starts(i, SP) && ExtensionText(e, i.tail, rest)
  }

  ghost predicate LocationText(l: Location, i: Wire, rest: Wire) {
    exists j :: GoodNStringText(l.location, i, j) && RowText(SpacedText, l.extensions, j, rest)
  }

  ghost predicate StringListText(list: seq<IString>, i: Wire, rest: Wire) {
    SeparatedText(SP, GoodStringText, list, i, rest)
  }

  /** NIL, a single string, or strings in parentheses. */
  ghost predicate StringsText(list: seq<IString>, i: Wire, rest: Wire) {
    || (list == [] && WordText("NIL", i, rest))
    || (|list| == 1 && GoodStringText(list[0], i, rest))
    || EnclosedText(StringListText, list, i, rest)
  }

  ghost predicate LanguageText(l: Language, i: Wire, rest: Wire) {
    TailText(StringsText, LocationText, l.language, l.tail, i, rest)
  }

  ghost predicate KindFieldsText(d: (IString, Parameters), i: Wire, rest: Wire) {
    PairText(GoodStringText, ParametersText, d.0, d.1, i, rest)
  }

  ghost predicate KindText(d: Option<(IString, Parameters)>, i: Wire, rest: Wire) {
    match d
    case None => WordText("NIL", i, rest)
    case Some(fields) => EnclosedText(KindFieldsText, fields, i, rest)
  }

  ghost predicate DispositionText(d: Disposition, i: Wire, rest: Wire) {
    TailText(KindText, LanguageText, d.disposition, d.tail, i, rest)
  }

  ghost predicate SingleText(x: SinglePartExtension, i: Wire, rest: Wire) {
    TailText(GoodNStringText, DispositionText, x.md5, x.tail, i, rest)
  }

  ghost predicate MultiText(x: MultiPartExtension, i: Wire, rest: Wire) {
    TailText(ParametersText, DispositionText, x.parameters, x.tail, i, rest)
  }

  // ----- Writing -----

  /** The extension values from index `k` on, each behind a space. */
  function PutSpaced(list: seq<BodyExtension>, k: nat, rest: Wire): Wire
    requires k <= |list|
    decreases |list| - k
  {
    if k == |list| then rest else Byte(SP, PutExtension(list[k], PutSpaced(list, k + 1, rest)))
  }

  function PutLocation(l: Location, rest: Wire): Wire {
    PutNString(l.location, PutSpaced(l.extensions, 0, rest))
  }

  /** The strings from index `k` on, each behind a space. */
  function PutMoreStrings(list: seq<IString>, k: nat, rest: Wire): Wire
    requires k <= |list|
    decreases |list| - k
  {
    if k == |list| then rest else Byte(SP, PutIString(list[k], PutMoreStrings(list, k + 1, rest)))
  }

  function PutStrings(list: seq<IString>, rest: Wire): Wire {
    if list == [] then Text("NIL", rest)
    else Byte(LPAREN, PutIString(list[0], PutMoreStrings(list, 1, Byte(RPAREN, rest))))
  }

  function PutLanguage(l: Language, rest: Wire): Wire {
    PutStrings(l.language, if l.tail.Some? then Byte(SP, PutLocation(l.tail.value, rest)) else rest)
  }

  function PutKind(d: Option<(IString, Parameters)>, rest: Wire): Wire {
    match d
    case None => Text("NIL", rest)
    case Some((kind, parameters)) =>
      Byte(LPAREN, PutIString(kind, Byte(SP, PutParameters(parameters, Byte(RPAREN, rest)))))
  }

  function PutDisposition(d: Disposition, rest: Wire): Wire {
    PutKind(d.disposition, if d.tail.Some? then Byte(SP, PutLanguage(d.tail.value, rest)) else rest)
  }

  function PutSingle(x: SinglePartExtension, rest: Wire): Wire {
    PutNString(x.md5, if x.tail.Some? then Byte(SP, PutDisposition(x.tail.value, rest)) else rest)
  }

  function PutMulti(x: MultiPartExtension, rest: Wire): Wire {
    PutParameters(x.parameters, if x.tail.Some? then Byte(SP, PutDisposition(x.tail.value, rest)) else rest)
  }

  // ----- Reading -----

  function ReadSpaced(i: Wire): (r: Outcome<BodyExtension>)
    ensures r.Consumes(i)
  {
    Behind(ExtensionReader(EXTENSION_LEVELS), i)
  }

  function ReadLocation(i: Wire): (r: Outcome<Location>)
    ensures r.Consumes(i)
  {
    var (i1, location) :- ReadNString(i);
    var (i2, extensions) :- Many0(ReadSpaced, i1);
    Ok(i2, Location(location, extensions))
  }

  function ReadStringList(i: Wire): (r: Outcome<seq<IString>>)
    ensures r.Consumes(i)
  {
    SeparatedList1(SP, ReadString, i)
  }

  function ReadStrings(i: Wire): (r: Outcome<seq<IString>>)
    ensures r.Consumes(i)
  {
    Alt(ReadNString(i).Map((s: NString) => if s.inner.Some? then [s.inner.value] else []),
        Enclosed(ReadStringList, i))
  }

  function ReadLanguage(i: Wire): (r: Outcome<Language>)
    ensures r.Consumes(i)
  {
    var (rest, (language, tail)) :- WithTail(ReadStrings, ReadLocation, i);
    Ok(rest, Language(language, tail))
  }

  function ReadKindFields(i: Wire): (r: Outcome<(IString, Parameters)>)
    ensures r.Consumes(i)
  {
    Pair(ReadString, ReadParameters, i)
  }

  function ReadKind(i: Wire): (r: Outcome<Option<(IString, Parameters)>>)
    ensures r.Consumes(i)
  {
    Alt(Enclosed(ReadKindFields, i).Map(d => Some(d)), ReadNil(i).Map(_ => None))
  }

  function ReadDisposition(i: Wire): (r: Outcome<Disposition>)
    ensures r.Consumes(i)
  {
    var (rest, (disposition, tail)) :- WithTail(ReadKind, ReadLanguage, i);
    Ok(rest, Disposition(disposition, tail))
  }

  function ReadSingle(i: Wire): (r: Outcome<SinglePartExtension>)
    ensures r.Consumes(i)
  {
    var (rest, (md5, tail)) :- WithTail(ReadNString, ReadDisposition, i);
    Ok(rest, SinglePartExtension(md5, tail))
  }

  function ReadMulti(i: Wire): (r: Outcome<MultiPartExtension>)
    ensures r.Consumes(i)
  {
    var (rest, (parameters, tail)) :- WithTail(ReadParameters, ReadDisposition, i);
    Ok(rest, MultiPartExtension(parameters, tail))
  }

  // ----- Every text is read, or fails with the limit -----

  lemma {:induction false} SpacedReads(e: BodyExtension, i: Wire, rest: Wire)
    requires SpacedText(e, i, rest)
    requires Ends(rest)
    ensures ReadSpaced(i) == Limited(ExtensionWithin(e, EXTENSION_LEVELS), rest, e)
  {
    ExtensionReads(e, EXTENSION_LEVELS, i.tail, rest);
  }

  /** `p` reads an extension value behind a space, with a limit of `d` levels. */
  ghost predicate ReadsSpaced(p: Wire -> Outcome<BodyExtension>, d: nat) {
    && (forall e, i, rest {:trigger SpacedText(e, i, rest)} | SpacedText(e, i, rest) && Ends(rest) ::
          p(i) == Limited(ExtensionWithin(e, d), rest, e))
    && (forall i | Closes(i) :: p(i) == Error)
  }

  lemma SpacedIsRead()
    ensures ReadsSpaced(ReadSpaced, EXTENSION_LEVELS)
  {
    forall e, i, rest {:trigger SpacedText(e, i, rest)} | SpacedText(e, i, rest) && Ends(rest)
      ensures ReadSpaced(i) == Limited(ExtensionWithin(e, EXTENSION_LEVELS), rest, e)
    {
      SpacedReads(e, i, rest);
    }
  }

  lemma {:induction false} SpacedReadsAt(
      p: Wire -> Outcome<BodyExtension>, d: nat, list: seq<BodyExtension>, text: nat -> Wire, m: nat)
    requires ReadsSpaced(p, d)
    requires StandsInRow(SpacedText, list, text) && Closes(text(|list|)) && m < |list|
    ensures p(text(m)) == Limited(ExtensionWithin(list[m], d), text(m + 1), list[m])
  {
    assert SpacedText(list[m], text(m), text(m + 1));
    if m + 1 < |list| {
      assert SpacedText(list[m + 1], text(m + 1), text(m + 2));
    }
  }

  lemma AllWithinMeaning(list: seq<BodyExtension>, d: nat, fits: nat -> bool)
    requires forall m: nat | m < |list| :: fits(m) == ExtensionWithin(list[m], d)
    ensures AllWithin(list, d) <==> forall m: nat | m < |list| :: fits(m)
  {
    if forall m: nat | m < |list| :: fits(m) {
      assert forall k | 0 <= k < |list| :: fits(k);
    } else {
      var m: nat :| m < |list| && !fits(m);
      assert !ExtensionWithin(list[m], d);
    }
  }

  lemma {:induction false} ExtensionsRead(
      p: Wire -> Outcome<BodyExtension>, d: nat, list: seq<BodyExtension>, i: Wire, rest: Wire)
    requires Consuming(p) && ReadsSpaced(p, d)
    requires RowText(SpacedText, list, i, rest)
    requires Closes(rest)
    ensures Many0(p, i) == Limited(AllWithin(list, d), rest, list)
    ensures i.Byte?
  {
    var text: nat -> Wire :| StandsInRow(SpacedText, list, text) && text(0) == i && text(|list|) == rest;
    forall m: nat {:trigger p(text(m))} | m < |list|
      ensures p(text(m)) == Limited(ExtensionWithin(list[m], d), text(m + 1), list[m])
    {
      SpacedReadsAt(p, d, list, text, m);
    }
    var fits := (m: nat) => m < |list| && ExtensionWithin(list[m], d);
    Many0Judged(p, text, list, fits, RecursionLimitExceeded);
    AllWithinMeaning(list, d, fits);
    assert list != [] ==> SpacedText(list[0], text(0), text(1));
  }

  lemma {:induction false} LocationReads(l: Location, i: Wire, rest: Wire)
    requires LocationText(l, i, rest)
    requires Closes(rest)
    ensures ReadLocation(i) == Limited(LocationWithin(l), rest, l)
  {
    var j :| GoodNStringText(l.location, i, j) && RowText(SpacedText, l.extensions, j, rest);
    SpacedIsRead();
    ExtensionsRead(ReadSpaced, EXTENSION_LEVELS, l.extensions, j, rest);
    NStringReads(l.location, i, j);
  }

  lemma StringListReads()
    ensures Reads(ReadStringList, StringListText, Closes)
  {
    GoodStringsRead();
    forall list, i, rest {:trigger StringListText(list, i, rest)} | StringListText(list, i, rest) && Closes(rest)
      ensures ReadStringList(i) == Ok(rest, list)
    {
      SeparatedTextReads(SP, ReadString, GoodStringText, More, list, i, rest);
    }
  }

  lemma {:induction false} NilStringsRead(list: seq<IString>, i: Wire, rest: Wire)
    requires list == [] && WordText("NIL", i, rest)
    ensures ReadStrings(i) == Ok(rest, list)
  {
    WordIsNoString(i, rest);
    TagIsWord("NIL", i, rest);
  }

  /** A language may be written as one string, without parentheses. */
  lemma {:induction false} OneStringReads(s: IString, i: Wire, rest: Wire)
    requires GoodStringText(s, i, rest) && More(rest)
    ensures ReadStrings(i) == Ok(rest, [s])
  {
    StringReads(s, i, rest);
  }

  lemma {:induction false} ManyStringsRead(list: seq<IString>, i: Wire, rest: Wire)
    requires EnclosedText(StringListText, list, i, rest)
    ensures ReadStrings(i) == Ok(rest, list)
  {
    StringListReads();
    EnclosedTextReads(ReadStringList, StringListText, Closes, list, i, rest);
    assert ReadNString(i) == Error;
  }

  lemma StringsRead()
    ensures Reads(ReadStrings, StringsText, More)
  {
    forall list, i, rest {:trigger StringsText(list, i, rest)} | StringsText(list, i, rest) && More(rest)
      ensures ReadStrings(i) == Ok(rest, list)
    {
      if list == [] && WordText("NIL", i, rest) {
        NilStringsRead(list, i, rest);
      } else if |list| == 1 && GoodStringText(list[0], i, rest) {
        OneStringReads(list[0], i, rest);
        assert list == [list[0]];
      } else {
        ManyStringsRead(list, i, rest);
      }
    }
  }

  /** A thing with an optional tail that fails at most with the limit. */
  lemma TailReads<A(!new), B(!new)>(
      p: Wire -> Outcome<A>, q: Wire -> Outcome<B>, f: Grammar<A>, g: Grammar<B>,
      a: A, b: Option<B>, i: Wire, rest: Wire, fits: bool)
    requires Consuming(p) && Consuming(q)
    requires Reads(p, f, More)
    requires TailText(f, g, a, b, i, rest)
    requires Closes(rest)
    requires b.None? ==> fits
    requires forall j {:trigger g(b.value, j, rest)} :: b.Some? && g(b.value, j, rest) ==> q(j) == Limited(fits, rest, b.value)
    ensures WithTail(p, q, i) == Limited(fits, rest, (a, b))
  {
    match b
    case None =>
      WithTailJudged(p, q, i, i, rest, a, b, fits);
    case Some(v) =>
      var j :| f(a, i, Byte(SP, j)) && g(v, j, rest);
      WithTailJudged(p, q, i, j, rest, a, b, fits);
  }

  lemma {:induction false} LanguageReads(l: Language, i: Wire, rest: Wire)
    requires LanguageText(l, i, rest)
    requires Closes(rest)
    ensures ReadLanguage(i) == Limited(LanguageWithin(l), rest, l)
  {
    StringsRead();
    if l.tail.Some? {
      forall j {:trigger LocationText(l.tail.value, j, rest)} | LocationText(l.tail.value, j, rest)
        ensures ReadLocation(j) == Limited(LanguageWithin(l), rest, l.tail.value)
      {
        LocationReads(l.tail.value, j, rest);
      }
    }
    TailReads(ReadStrings, ReadLocation, StringsText, LocationText, l.language, l.tail, i, rest, LanguageWithin(l));
  }

  lemma KindFieldsRead()
    ensures Reads(ReadKindFields, KindFieldsText, More)
  {
    GoodStringsRead();
    ParametersRead();
    forall d, i, rest {:trigger KindFieldsText(d, i, rest)} | KindFieldsText(d, i, rest) && More(rest)
      ensures ReadKindFields(i) == Ok(rest, d)
    {
      PairTextReads(ReadString, ReadParameters, GoodStringText, ParametersText, More, Anything, d.0, d.1, i, rest);
    }
  }

  lemma {:induction false} NoKindReads(i: Wire, rest: Wire)
    requires WordText("NIL", i, rest)
    ensures ReadKind(i) == Ok(rest, None)
  {
    WordIsNoString(i, rest);
    TagIsWord("NIL", i, rest);
  }

  lemma KindReads()
    ensures Reads(ReadKind, KindText, More)
  {
    KindFieldsRead();
    forall d, i, rest {:trigger KindText(d, i, rest)} | KindText(d, i, rest) && More(rest)
      ensures ReadKind(i) == Ok(rest, d)
    {
      match d
      case None => NoKindReads(i, rest);
      case Some(fields) => EnclosedTextReads(ReadKindFields, KindFieldsText, More, fields, i, rest);
    }
  }

  lemma {:induction false} DispositionReads(d: Disposition, i: Wire, rest: Wire)
    requires DispositionText(d, i, rest)
    requires Closes(rest)
    ensures ReadDisposition(i) == Limited(DispositionWithin(d), rest, d)
  {
    KindReads();
    if d.tail.Some? {
      forall j {:trigger LanguageText(d.tail.value, j, rest)} | LanguageText(d.tail.value, j, rest)
        ensures ReadLanguage(j) == Limited(DispositionWithin(d), rest, d.tail.value)
      {
        LanguageReads(d.tail.value, j, rest);
      }
    }
    TailReads(ReadKind, ReadLanguage, KindText, LanguageText, d.disposition, d.tail, i, rest, DispositionWithin(d));
  }

  lemma {:induction false} SingleReads(x: SinglePartExtension, i: Wire, rest: Wire)
    requires SingleText(x, i, rest)
    requires Closes(rest)
    ensures ReadSingle(i) == Limited(SingleWithin(x), rest, x)
  {
    GoodStringsRead();
    if x.tail.Some? {
      forall j {:trigger DispositionText(x.tail.value, j, rest)} | DispositionText(x.tail.value, j, rest)
        ensures ReadDisposition(j) == Limited(SingleWithin(x), rest, x.tail.value)
      {
        DispositionReads(x.tail.value, j, rest);
      }
    }
    TailReads(ReadNString, ReadDisposition, GoodNStringText, DispositionText, x.md5, x.tail, i, rest, SingleWithin(x));
  }

  lemma {:induction false} MultiReads(x: MultiPartExtension, i: Wire, rest: Wire)
    requires MultiText(x, i, rest)
    requires Closes(rest)
    ensures ReadMulti(i) == Limited(MultiWithin(x), rest, x)
  {
    ParametersRead();
    if x.tail.Some? {
      forall j {:trigger DispositionText(x.tail.value, j, rest)} | DispositionText(x.tail.value, j, rest)
        ensures ReadDisposition(j) == Limited(MultiWithin(x), rest, x.tail.value)
      {
        DispositionReads(x.tail.value, j, rest);
      }
    }
    TailReads(ReadParameters, ReadDisposition, ParametersText, DispositionText, x.parameters, x.tail, i, rest, MultiWithin(x));
  }

  // ----- What is written is a text -----

  function SpacedFrom(list: seq<BodyExtension>, rest: Wire): nat -> Wire {
    (m: nat) => if m <= |list| then PutSpaced(list, m, rest) else rest
  }

  lemma {:induction false} SpacedStands(list: seq<BodyExtension>, m: nat, rest: Wire)
    requires m < |list| && GoodExtension(list[m])
    ensures SpacedText(list[m], SpacedFrom(list, rest)(m), SpacedFrom(list, rest)(m + 1))
  {
    PutExtensionIsText(list[m], PutSpaced(list, m + 1, rest));
  }

  lemma {:induction false} PutSpacedStand(list: seq<BodyExtension>, rest: Wire) returns (text: nat -> Wire)
    requires forall k | 0 <= k < |list| :: GoodExtension(list[k])
    ensures StandsInRow(SpacedText, list, text)
    ensures text(0) == PutSpaced(list, 0, rest) && text(|list|) == rest
  {
    text := SpacedFrom(list, rest);
    forall m: nat {:trigger list[m]} | m < |list| ensures SpacedText(list[m], text(m), text(m + 1)) {
      SpacedStands(list, m, rest);
    }
  }

  lemma {:induction false} PutLocationIsText(l: Location, rest: Wire)
    requires GoodLocation(l)
    ensures LocationText(l, PutLocation(l, rest), rest)
  {
    var text := PutSpacedStand(l.extensions, rest);
    assert RowText(SpacedText, l.extensions, PutSpaced(l.extensions, 0, rest), rest);
    PutGoodNStringIsText(l.location, PutSpaced(l.extensions, 0, rest));
  }

  function StringsFrom(list: seq<IString>, rest: Wire): nat -> Wire {
    (m: nat) => if m < |list| then PutIString(list[m], PutMoreStrings(list, m + 1, rest)) else rest
  }

  lemma {:induction false} StringStands(list: seq<IString>, m: nat, rest: Wire)
    requires GoodStrings(list) && m < |list|
    ensures GoodStringText(list[m], StringsFrom(list, rest)(m),
              if m + 1 < |list| then Byte(SP, StringsFrom(list, rest)(m + 1)) else rest)
  {
    PutGoodStringIsText(list[m], PutMoreStrings(list, m + 1, rest));
  }

  lemma {:induction false} PutStringsStand(list: seq<IString>, rest: Wire) returns (text: nat -> Wire)
    requires GoodStrings(list) && list != []
    ensures StandsSeparated(SP, GoodStringText, list, text, rest)
    ensures text(0) == PutIString(list[0], PutMoreStrings(list, 1, rest))
  {
    text := StringsFrom(list, rest);
    forall m: nat {:trigger list[m]} | m < |list|
      ensures GoodStringText(list[m], text(m), if m + 1 < |list| then Byte(SP, text(m + 1)) else rest)
    {
      StringStands(list, m, rest);
    }
  }

  lemma {:induction false} PutStringsIsText(list: seq<IString>, rest: Wire)
    requires GoodStrings(list)
    ensures StringsText(list, PutStrings(list, rest), rest)
  {
    if list == [] {
      TextIsWord("NIL", rest);
    } else {
      var text := PutStringsStand(list, Byte(RPAREN, rest));
    }
  }

  lemma {:induction false} PutLanguageIsText(l: Language, rest: Wire)
    requires GoodLanguage(l)
    ensures LanguageText(l, PutLanguage(l, rest), rest)
  {
    if l.tail.Some? {
      PutLocationIsText(l.tail.value, rest);
      PutStringsIsText(l.language, Byte(SP, PutLocation(l.tail.value, rest)));
    } else {
      PutStringsIsText(l.language, rest);
    }
  }

  lemma {:induction false} PutKindIsText(d: Option<(IString, Parameters)>, rest: Wire)
    requires GoodKind(d)
    ensures KindText(d, PutKind(d, rest), rest)
  {
    match d
    case None => TextIsWord("NIL", rest);
    case Some((kind, parameters)) =>
      PutParametersIsText(parameters, Byte(RPAREN, rest));
      PutGoodStringIsText(kind, Byte(SP, PutParameters(parameters, Byte(RPAREN, rest))));
  }

  lemma {:induction false} PutDispositionIsText(d: Disposition, rest: Wire)
    requires GoodDisposition(d)
    ensures DispositionText(d, PutDisposition(d, rest), rest)
  {
    if d.tail.Some? {
      PutLanguageIsText(d.tail.value, rest);
      PutKindIsText(d.disposition, Byte(SP, PutLanguage(d.tail.value, rest)));
    } else {
      PutKindIsText(d.disposition, rest);
    }
  }

  lemma {:induction false} PutSingleIsText(x: SinglePartExtension, rest: Wire)
    requires GoodSingle(x)
    ensures SingleText(x, PutSingle(x, rest), rest)
  {
    if x.tail.Some? {
      PutDispositionIsText(x.tail.value, rest);
      PutGoodNStringIsText(x.md5, Byte(SP, PutDisposition(x.tail.value, rest)));
    } else {
      PutGoodNStringIsText(x.md5, rest);
    }
  }

  lemma {:induction false} PutMultiIsText(x: MultiPartExtension, rest: Wire)
    requires GoodMulti(x)
    ensures MultiText(x, PutMulti(x, rest), rest)
  {
    if x.tail.Some? {
      PutDispositionIsText(x.tail.value, rest);
      PutParametersIsText(x.parameters, Byte(SP, PutDisposition(x.tail.value, rest)));
    } else {
      PutParametersIsText(x.parameters, rest);
    }
  }

  // ----- Only texts are read -----

  lemma LocationsAreTexts()
    ensures Accepts(ReadLocation, LocationText)
  {
    GoodStringsAreTexts();
    SpacedAreTexts();
    forall i {:trigger ReadLocation(i)} ensures var r := ReadLocation(i); r.Ok? ==> LocationText(r.value, i, r.rest) {
      if ReadNString(i).Ok? {
        RowIsText(ReadSpaced, SpacedText, ReadNString(i).rest);
      }
    }
  }

  lemma SpacedAreTexts()
    ensures Accepts(ReadSpaced, SpacedText)
  {
    forall i {:trigger ReadSpaced(i)} ensures var r := ReadSpaced(i); r.Ok? ==> SpacedText(r.value, i, r.rest) {
      if ReadSpaced(i).Ok? {
        ExtensionIsText(EXTENSION_LEVELS, i.tail);
      }
    }
  }

  lemma StringListsAreTexts()
    ensures Accepts(ReadStringList, StringListText)
  {
    GoodStringsAreTexts();
    forall i {:trigger ReadStringList(i)}
      ensures var r := ReadStringList(i); r.Ok? ==> StringListText(r.value, i, r.rest)
    {
      SeparatedIsText(SP, ReadString, GoodStringText, i);
    }
  }

  lemma {:induction false} StringsAreText(i: Wire)
    requires Accepts(ReadStringList, StringListText)
    ensures var r := ReadStrings(i); r.Ok? ==> StringsText(r.value, i, r.rest)
  {
    NStringIsText(i);
    EnclosedIsText(ReadStringList, StringListText, i);
  }

  lemma StringsAreTexts()
    ensures Accepts(ReadStrings, StringsText)
  {
    StringListsAreTexts();
    forall i {:trigger ReadStrings(i)} ensures var r := ReadStrings(i); r.Ok? ==> StringsText(r.value, i, r.rest) {
      StringsAreText(i);
    }
  }

  lemma LanguagesAreTexts()
    ensures Accepts(ReadLanguage, LanguageText)
  {
    StringsAreTexts();
    LocationsAreTexts();
    forall i {:trigger ReadLanguage(i)} ensures var r := ReadLanguage(i); r.Ok? ==> LanguageText(r.value, i, r.rest) {
      TailIsText(ReadStrings, ReadLocation, StringsText, LocationText, i);
    }
  }

  lemma KindsAreTexts()
    ensures Accepts(ReadKind, KindText)
  {
    GoodStringsAreTexts();
    ParametersAreTexts();
    forall i {:trigger ReadKindFields(i)}
      ensures var r := ReadKindFields(i); r.Ok? ==> KindFieldsText(r.value, i, r.rest)
    {
      PairIsText(ReadString, ReadParameters, GoodStringText, ParametersText, i);
    }
    forall i {:trigger ReadKind(i)} ensures var r := ReadKind(i); r.Ok? ==> KindText(r.value, i, r.rest) {
      EnclosedIsText(ReadKindFields, KindFieldsText, i);
      TagTakesWord("NIL", i);
    }
  }

  lemma DispositionsAreTexts()
    ensures Accepts(ReadDisposition, DispositionText)
  {
    KindsAreTexts();
    LanguagesAreTexts();
    forall i {:trigger ReadDisposition(i)}
      ensures var r := ReadDisposition(i); r.Ok? ==> DispositionText(r.value, i, r.rest)
    {
      TailIsText(ReadKind, ReadLanguage, KindText, LanguageText, i);
    }
  }

  lemma SinglesAreTexts()
    ensures Accepts(ReadSingle, SingleText)
  {
    GoodStringsAreTexts();
    DispositionsAreTexts();
    forall i {:trigger ReadSingle(i)} ensures var r := ReadSingle(i); r.Ok? ==> SingleText(r.value, i, r.rest) {
      TailIsText(ReadNString, ReadDisposition, GoodNStringText, DispositionText, i);
    }
  }

  lemma MultisAreTexts()
    ensures Accepts(ReadMulti, MultiText)
  {
    ParametersAreTexts();
    DispositionsAreTexts();
    forall i {:trigger ReadMulti(i)} ensures var r := ReadMulti(i); r.Ok? ==> MultiText(r.value, i, r.rest) {
      TailIsText(ReadParameters, ReadDisposition, ParametersText, DispositionText, i);
    }
  }

  // ----- What is read is legal and within the limit -----

  predicate GoodLocationWithin(l: Location) { GoodLocation(l) && LocationWithin(l) }

  predicate GoodLanguageWithin(l: Language) { GoodLanguage(l) && LanguageWithin(l) }

  predicate GoodDispositionWithin(d: Disposition) { GoodDisposition(d) && DispositionWithin(d) }

  lemma LocationSound()
    ensures Sound(ReadLocation, GoodLocationWithin)
  {
    ExtensionSound(EXTENSION_LEVELS);
    NStringSound();
    forall i {:trigger ReadLocation(i)} ensures ReadLocation(i).Ok? ==> GoodLocationWithin(ReadLocation(i).value) {
      if ReadNString(i).Ok? {
        Many0Sound(ReadSpaced, ReadNString(i).rest, (e: BodyExtension) => GoodWithin(e, EXTENSION_LEVELS));
      }
    }
  }

  lemma StringListSound()
    ensures Sound(ReadStringList, GoodStrings)
  {
    StringSound();
    forall i {:trigger ReadStringList(i)} ensures ReadStringList(i).Ok? ==> GoodStrings(ReadStringList(i).value) {
      SeparatedListSound(SP, ReadString, i, GoodString);
    }
  }

  lemma StringsSound()
    ensures Sound(ReadStrings, GoodStrings)
  {
    StringListSound();
    NStringSound();
    forall i {:trigger ReadStrings(i)} ensures ReadStrings(i).Ok? ==> GoodStrings(ReadStrings(i).value) {
      EnclosedSound(ReadStringList, i, GoodStrings);
    }
  }

  lemma LanguageSound()
    ensures Sound(ReadLanguage, GoodLanguageWithin)
  {
    StringsSound();
    LocationSound();
    forall i {:trigger ReadLanguage(i)} ensures ReadLanguage(i).Ok? ==> GoodLanguageWithin(ReadLanguage(i).value) {
      WithTailSound(ReadStrings, ReadLocation, i, GoodStrings, GoodLocationWithin);
    }
  }

  predicate GoodKindFields(d: (IString, Parameters)) { GoodString(d.0) && GoodParameters(d.1) }

  lemma KindSound()
    ensures Sound(ReadKind, GoodKind)
  {
    StringSound();
    ParametersSound();
    forall i {:trigger ReadKindFields(i)} ensures ReadKindFields(i).Ok? ==> GoodKindFields(ReadKindFields(i).value) {
      PairSound(ReadString, ReadParameters, i, GoodString, GoodParameters);
    }
    forall i {:trigger ReadKind(i)} ensures ReadKind(i).Ok? ==> GoodKind(ReadKind(i).value) {
      EnclosedSound(ReadKindFields, i, GoodKindFields);
    }
  }

  lemma DispositionSound()
    ensures Sound(ReadDisposition, GoodDispositionWithin)
  {
    KindSound();
    LanguageSound();
    forall i {:trigger ReadDisposition(i)}
      ensures ReadDisposition(i).Ok? ==> GoodDispositionWithin(ReadDisposition(i).value)
    {
      WithTailSound(ReadKind, ReadLanguage, i, GoodKind, GoodLanguageWithin);
    }
  }

  lemma SingleIsGood(i: Wire)
    ensures ReadSingle(i).Ok? ==> GoodSingle(ReadSingle(i).value) && SingleWithin(ReadSingle(i).value)
  {
    NStringSound();
    DispositionSound();
    WithTailSound(ReadNString, ReadDisposition, i, GoodNString, GoodDispositionWithin);
  }

  lemma MultiIsGood(i: Wire)
    ensures ReadMulti(i).Ok? ==> GoodMulti(ReadMulti(i).value) && MultiWithin(ReadMulti(i).value)
  {
    ParametersSound();
    DispositionSound();
    WithTailSound(ReadParameters, ReadDisposition, i, GoodParameters, GoodDispositionWithin);
  }
}
