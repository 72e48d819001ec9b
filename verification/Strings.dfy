/** Atoms, quoted strings and literals: how they are written and how they are read. */
module Strings {
  import opened Octets
  import opened Nom
  import opened Quoting

  datatype Literal = Literal(data: bytes, mode: LiteralMode)
  datatype IString = LiteralString(literal: Literal) | QuotedString(text: bytes)
  datatype NString = NString(inner: Option<IString>)
  datatype AString = AtomString(text: bytes) | StringString(inner: IString)

  // ----- What the types of the library guarantee -----

  predicate ValidAtom(text: bytes) {
    text != [] && forall k | 0 <= k < |text| :: IsAtomChar(text[k])
  }

  predicate ValidAtomExt(text: bytes) {
    text != [] && forall k | 0 <= k < |text| :: IsAStringChar(text[k])
  }

  predicate ValidQuoted(text: bytes) {
    forall k | 0 <= k < |text| :: IsTextChar(text[k])
  }

  predicate ValidLiteral(l: Literal) {
    forall k | 0 <= k < |l.data| :: IsChar8(l.data[k])
  }

  predicate ValidIString(s: IString) {
    match s
    case LiteralString(l) => ValidLiteral(l)
    case QuotedString(text) => ValidQuoted(text)
  }

  predicate ValidNString(s: NString) {
    s.inner.Some? ==> ValidIString(s.inner.value)
  }

  predicate ValidAString(s: AString) {
    match s
    case AtomString(text) => ValidAtomExt(text)
    case StringString(inner) => ValidIString(inner)
  }

  // ----- What the grammar adds: a literal announces its length in 32 bits -----

  predicate FitsIString(s: IString) {
    s.LiteralString? ==> |s.literal.data| <= U32_MAX
  }

  predicate FitsNString(s: NString) {
    s.inner.Some? ==> FitsIString(s.inner.value)
  }

  predicate FitsAString(s: AString) {
    s.StringString? ==> FitsIString(s.inner)
  }

  // ----- The grammar: `i` is a text of a value, followed by `rest` -----

  /** Behind the length of a literal: the mode and the line end. */
  function AnnouncementEnd(mode: LiteralMode, rest: Wire): Wire {
    var end := Byte(RBRACE, Byte(CR, Byte(LF, rest)));
    match mode
    case Sync => end
    case NonSync => Byte(PLUS, end)
  }

  ghost predicate PrefixText(n: nat, mode: LiteralMode, i: Wire, rest: Wire) {
    Starts(i, LBRACE) && NumberText(n, i.tail, AnnouncementEnd(mode, rest))
  }

  ghost predicate LiteralText(l: Literal, i: Wire, rest: Wire) {
    ValidLiteral(l) && PrefixText(|l.data|, l.mode, i, Feed(l.data, rest))
  }

  /** Between the quotes, specials and only specials stand behind a backslash. */
  ghost predicate QuotedText(text: bytes, i: Wire, rest: Wire) {
    ValidQuoted(text) && i == Byte(DQUOTE, Feed(Escape(text), Byte(DQUOTE, rest)))
  }

  ghost predicate StringText(s: IString, i: Wire, rest: Wire) {
    match s
    case LiteralString(l) => LiteralText(l, i, rest)
    case QuotedString(text) => QuotedText(text, i, rest)
  }

  ghost predicate NStringText(s: NString, i: Wire, rest: Wire) {
    match s.inner
    case None => WordText("NIL", i, rest)
    case Some(inner) => StringText(inner, i, rest)
  }

  ghost predicate AStringText(s: AString, i: Wire, rest: Wire) {
    match s
    case AtomString(text) => ValidAtomExt(text) && i == Feed(text, rest)
    case StringString(inner) => StringText(inner, i, rest)
  }

  /** With a length that can be announced. */
  ghost predicate GoodStringText(s: IString, i: Wire, rest: Wire) {
    StringText(s, i, rest) && FitsIString(s)
  }

  ghost predicate GoodNStringText(s: NString, i: Wire, rest: Wire) {
    NStringText(s, i, rest) && FitsNString(s)
  }

  ghost predicate U32Text(n: nat, i: Wire, rest: Wire) {
    n <= U32_MAX && NumberText(n, i, rest)
  }

  predicate EndsNumber(rest: Wire) {
    rest.Byte? && !IsDigit(rest.head)
  }

  ghost predicate AtomText(text: bytes, i: Wire, rest: Wire) {
    ValidAtom(text) && i == Feed(text, rest)
  }

  // ----- Writing: what is written for a value, followed by `rest` -----

  function PutTail(mode: LiteralMode, rest: Wire): Wire {
    if mode.NonSync? then Byte(PLUS, Byte(RBRACE, rest)) else Byte(RBRACE, rest)
  }

  function PutNat(n: nat, rest: Wire): Wire {
    Feed(ShowNat(n), rest)
  }

  function PutPrefix(n: nat, mode: LiteralMode, rest: Wire): Wire {
    Byte(LBRACE, PutNat(n, PutTail(mode, Byte(CR, Byte(LF, rest)))))
  }

  function PutLiteral(l: Literal, rest: Wire): Wire {
    PutPrefix(|l.data|, l.mode, Feed(l.data, rest))
  }

  function PutQuoted(text: bytes, rest: Wire): Wire {
    Byte(DQUOTE, Feed(EscapeQuoted(text), Byte(DQUOTE, rest)))
  }

  function PutIString(s: IString, rest: Wire): Wire {
    match s
    case LiteralString(l) => PutLiteral(l, rest)
    case QuotedString(text) => PutQuoted(text, rest)
  }

  function PutNString(s: NString, rest: Wire): Wire {
    match s.inner
    case None => Text("NIL", rest)
    case Some(inner) => PutIString(inner, rest)
  }

  function PutAString(s: AString, rest: Wire): Wire {
    match s
    case AtomString(text) => Feed(text, rest)
    case StringString(inner) => PutIString(inner, rest)
  }

  // ----- Reading -----

  function ReadNumber(i: Wire): (r: Outcome<nat>)
    ensures r.Consumes(i)
    ensures r.Ok? ==> r.value <= U32_MAX
  {
    var (rest, digits) :- TakeWhile1(IsDigit, i);
    if DecimalValue(digits) > U32_MAX then Error else Ok(rest, DecimalValue(digits))
  }

  function ReadNzNumber(i: Wire): (r: Outcome<nat>)
    ensures r.Consumes(i)
    ensures r.Ok? ==> 1 <= r.value <= U32_MAX
  {
    var (rest, n) :- ReadNumber(i);
    if n == 0 then Error else Ok(rest, n)
  }

  /** The body of a quoted string: runs of plain text and escaped specials. */
  function ReadEscaped(i: Wire): (r: Outcome<bytes>)
    ensures r.Ok? ==> Size(r.rest) <= Size(i)
    decreases Size(i)
  {
    if i.End? then Incomplete
    else
      match TakeWhile1(IsQuotedText, i)
      case Incomplete => Incomplete
      case Failure(kind) => Failure(kind)
      case Ok(i2, text) =>
        var (rest, more) :- ReadEscaped(i2);
        Ok(rest, text + more)
      case Error =>
        if i.head != BACKSLASH then Ok(i, [])
        else if i.tail.End? then Incomplete
        else if !IsQuotedSpecials(i.tail.head) then Error
        else if i.tail.tail.End? then Incomplete
        else
          var (rest, more) :- ReadEscaped(i.tail.tail);
          Ok(rest, [i.head, i.tail.head] + more)
  }

  function ReadQuoted(i: Wire): (r: Outcome<bytes>)
    ensures r.Consumes(i)
  {
    var (i1, _) :- Char(DQUOTE, i);
    var (i2, body) :- ReadEscaped(i1);
    var (i3, _) :- Char(DQUOTE, i2);
    Ok(i3, UnescapeQuoted(body))
  }

  /** The announcement of a literal, up to its line end. */
  function ReadPrefix(i: Wire): (r: Outcome<(nat, LiteralMode)>)
    ensures r.Consumes(i)
    ensures r.Ok? ==> r.value.0 <= U32_MAX
  {
    var (i1, _) :- Char(LBRACE, i);
    var (i2, length) :- ReadNumber(i1);
    var (i3, plus) :- Opt(Char(PLUS, i2), i2);
    var (i4, _) :- Char(RBRACE, i3);
    var (i5, _) :- Crlf(i4);
    Ok(i5, (length, if plus.Some? then NonSync else Sync))
  }

  /** An announcement with nothing behind it asks for a continuation request. */
  function ReadLiteral(i: Wire): (r: Outcome<Literal>)
    ensures r.Consumes(i)
  {
    var (i1, (length, mode)) :- ReadPrefix(i);
    if i1.End? then Failure(LiteralFound(length, mode))
    else
      var (rest, data) :- Take(length, i1);
      if ValidLiteral(Literal(data, mode)) then Ok(rest, Literal(data, mode))
      else Failure(LiteralContainsNull)
  }

  function ReadString(i: Wire): (r: Outcome<IString>)
    ensures r.Consumes(i)
  {
    Alt(ReadQuoted(i).Map(text => QuotedString(text)),
        ReadLiteral(i).Map(l => LiteralString(l)))
  }

  function ReadAtom(i: Wire): (r: Outcome<bytes>)
    ensures r.Consumes(i)
  {
    TakeWhile1(IsAtomChar, i)
  }

  function ReadAString(i: Wire): (r: Outcome<AString>)
    ensures r.Consumes(i)
  {
    Alt(TakeWhile1(IsAStringChar, i).Map(text => AtomString(text)),
        ReadString(i).Map(s => StringString(s)))
  }

  function ReadNil(i: Wire): (r: Outcome<()>)
    ensures r.Consumes(i)
  {
    TagNoCase("NIL", i)
  }

  function ReadNString(i: Wire): (r: Outcome<NString>)
    ensures r.Consumes(i)
  {
    Alt(ReadString(i).Map(s => NString(Some(s))),
        ReadNil(i).Map(_ => NString(None)))
  }

  function ReadTag(i: Wire): (r: Outcome<bytes>)
    ensures r.Consumes(i)
  {
    TakeWhile1(IsTagChar, i)
  }

  // ----- Reading inverts writing -----

  /** What follows a token so that a streaming parser knows the token has ended. */
  ghost predicate Delimited(rest: Wire) {
    rest.Byte? && !IsAStringChar(rest.head)
  }

  /** A number is read in any decimal notation when it fits 32 bits, and refused otherwise. */
  lemma NumberReads(n: nat, i: Wire, rest: Wire)
    requires NumberText(n, i, rest)
    requires rest.Byte? && !IsDigit(rest.head)
    ensures ReadNumber(i) == if n <= U32_MAX then Ok(rest, n) else Error
    ensures 1 <= n <= U32_MAX ==> ReadNzNumber(i) == Ok(rest, n)
  {
    var digits :| IsNumeral(digits) && DecimalValue(digits) == n && i == Feed(digits, rest);
    TakeWhile1Reads(IsDigit, digits, rest);
  }

  lemma PutNatIsText(n: nat, rest: Wire)
    ensures NumberText(n, PutNat(n, rest), rest)
  {
    ShowNatReads(n);
    assert IsNumeral(ShowNat(n));
  }

  lemma NumberIsText(i: Wire)
    ensures ReadNumber(i).Ok? ==> NumberText(ReadNumber(i).value, i, ReadNumber(i).rest)
  {
    if ReadNumber(i).Ok? {
      TakeWhileTakes(IsDigit, i);
      var digits := TakeWhile(IsDigit, i).0;
      assert IsNumeral(digits);
    }
  }

  lemma NumbersRead()
    ensures Reads(ReadNumber, U32Text, EndsNumber)
    ensures Accepts(ReadNumber, U32Text)
  {
    forall n: nat, i, rest {:trigger U32Text(n, i, rest)} | U32Text(n, i, rest) && EndsNumber(rest)
      ensures ReadNumber(i) == Ok(rest, n)
    {
      NumberReads(n, i, rest);
    }
    forall i {:trigger ReadNumber(i)} ensures var r := ReadNumber(i); r.Ok? ==> U32Text(r.value, i, r.rest) {
      NumberIsText(i);
    }
  }

  lemma NumberRoundTrip(n: nat, rest: Wire)
    requires rest.Byte? && !IsDigit(rest.head)
    ensures ReadNumber(PutNat(n, rest)) == if n <= U32_MAX then Ok(rest, n) else Error
    ensures 1 <= n <= U32_MAX ==> ReadNzNumber(PutNat(n, rest)) == Ok(rest, n)
  {
    PutNatIsText(n, rest);
    NumberReads(n, PutNat(n, rest), rest);
  }

  lemma PlainByte(b: byte, i: Wire)
    requires IsQuotedText(b)
    requires ReadEscaped(i).Ok?
    ensures ReadEscaped(Byte(b, i)) == Ok(ReadEscaped(i).rest, [b] + ReadEscaped(i).value)
  {
    var (text, rest) := TakeWhile(IsQuotedText, i);
    if text == [] {
      assert [b] + text == [b];
    } else {
      assert ReadEscaped(i).value == text + ReadEscaped(rest).value;
      assert ([b] + text) + ReadEscaped(rest).value == [b] + ReadEscaped(i).value;
    }
  }

  lemma EscapedByte(b: byte, i: Wire)
    requires IsQuotedSpecials(b)
    requires ReadEscaped(i).Ok?
    ensures ReadEscaped(Byte(BACKSLASH, Byte(b, i)))
         == Ok(ReadEscaped(i).rest, [BACKSLASH, b] + ReadEscaped(i).value)
  {
  }

  /** The escaped form of the text from index `k` on. */
  function EscapeFrom(s: bytes, k: nat): bytes
    requires k <= |s|
    decreases |s| - k
  {
    if k == |s| then []
    else (if IsQuotedSpecials(s[k]) then [BACKSLASH, s[k]] else [s[k]]) + EscapeFrom(s, k + 1)
  }

  lemma {:induction false} EscapeFromIsEscape(s: bytes, k: nat)
    requires k <= |s|
    ensures EscapeFrom(s, k) == Escape(s[k..])
    decreases |s| - k
  {
    if k < |s| {
      EscapeFromIsEscape(s, k + 1);
      assert s[k..][1..] == s[k + 1..];
    }
  }

  lemma {:induction false} EscapedRoundTrip(s: bytes, k: nat, rest: Wire)
    requires k <= |s| && ValidQuoted(s)
    requires rest.Byte? && rest.head == DQUOTE
    ensures ReadEscaped(Feed(EscapeFrom(s, k), rest)) == Ok(rest, EscapeFrom(s, k))
    decreases |s| - k
  {
    if k < |s| {
      var later := EscapeFrom(s, k + 1);
      var i := Feed(later, rest);
      EscapedRoundTrip(s, k + 1, rest);
      if IsQuotedSpecials(s[k]) {
        EscapedByte(s[k], i);
        assert EscapeFrom(s, k) == [BACKSLASH] + ([s[k]] + later);
        FeedConcat([BACKSLASH], [s[k]] + later, rest);
        FeedConcat([s[k]], later, rest);
        FeedOne(BACKSLASH, Feed([s[k]] + later, rest));
        FeedOne(s[k], i);
      } else {
        PlainByte(s[k], i);
        FeedConcat([s[k]], later, rest);
        FeedOne(s[k], i);
      }
    }
  }

  lemma QuotedReads(text: bytes, i: Wire, rest: Wire)
    requires QuotedText(text, i, rest)
    ensures ReadQuoted(i) == Ok(rest, text)
  {
    EscapeIsBytewise(text);
    EscapeFromIsEscape(text, 0);
    assert text[0..] == text;
    UnescapeOfEscape(text);
    EscapedRoundTrip(text, 0, Byte(DQUOTE, rest));
  }

  lemma PutQuotedIsText(text: bytes, rest: Wire)
    requires ValidQuoted(text)
    ensures QuotedText(text, PutQuoted(text, rest), rest)
  {
    EscapeIsBytewise(text);
  }

  lemma QuotedRoundTrip(text: bytes, rest: Wire)
    requires ValidQuoted(text)
    ensures ReadQuoted(PutQuoted(text, rest)) == Ok(rest, text)
  {
    PutQuotedIsText(text, rest);
    QuotedReads(text, PutQuoted(text, rest), rest);
  }

  /** An announcement is read exactly when its length fits 32 bits. */
  lemma PrefixReads(n: nat, mode: LiteralMode, i: Wire, rest: Wire)
    requires PrefixText(n, mode, i, rest)
    ensures ReadPrefix(i) == if n <= U32_MAX then Ok(rest, (n, mode)) else Error
  {
    NumberReads(n, i.tail, AnnouncementEnd(mode, rest));
  }

  lemma PutPrefixIsText(n: nat, mode: LiteralMode, rest: Wire)
    ensures PrefixText(n, mode, PutPrefix(n, mode, rest), rest)
  {
    PutNatIsText(n, AnnouncementEnd(mode, rest));
  }

  lemma PrefixIsText(i: Wire)
    ensures var r := ReadPrefix(i); r.Ok? ==> PrefixText(r.value.0, r.value.1, i, r.rest)
  {
    if ReadPrefix(i).Ok? {
      NumberIsText(i.tail);
    }
  }

  lemma PrefixRoundTrip(n: nat, mode: LiteralMode, rest: Wire)
    ensures ReadPrefix(PutPrefix(n, mode, rest)) == if n <= U32_MAX then Ok(rest, (n, mode)) else Error
  {
    PutPrefixIsText(n, mode, rest);
    PrefixReads(n, mode, PutPrefix(n, mode, rest), rest);
  }

  /** A literal is read exactly when its length fits 32 bits. Something must follow it, since an
      empty remainder asks for a continuation request. */
  lemma LiteralReads(l: Literal, i: Wire, rest: Wire)
    requires LiteralText(l, i, rest)
    requires rest.Byte?
    ensures ReadLiteral(i) == if |l.data| <= U32_MAX then Ok(rest, l) else Error
  {
    var i1 := Feed(l.data, rest);
    PrefixReads(|l.data|, l.mode, i, i1);
    TakeReads(l.data, 0, rest);
    assert l.data[0..] == l.data;
    assert i1.Byte?;
  }

  lemma LiteralRoundTrip(l: Literal, rest: Wire)
    requires ValidLiteral(l)
    requires rest.Byte?
    ensures ReadLiteral(PutLiteral(l, rest)) == if |l.data| <= U32_MAX then Ok(rest, l) else Error
  {
    PutPrefixIsText(|l.data|, l.mode, Feed(l.data, rest));
    LiteralReads(l, PutLiteral(l, rest), rest);
  }

  /** The announcement of a literal on its own stops the parser with that announcement. */
  lemma LiteralStops(n: nat, mode: LiteralMode)
    requires n <= U32_MAX
    ensures ReadLiteral(PutPrefix(n, mode, End)) == Failure(LiteralFound(n, mode))
  {
    PrefixRoundTrip(n, mode, End);
  }

  /** A literal that contains a null byte is neither read nor left to another alternative. */
  lemma NullFails(data: bytes, mode: LiteralMode, i: Wire, rest: Wire)
    requires PrefixText(|data|, mode, i, Feed(data, rest)) && |data| <= U32_MAX
    requires !ValidLiteral(Literal(data, mode))
    ensures ReadLiteral(i) == Failure(LiteralContainsNull)
    ensures ReadString(i) == Failure(LiteralContainsNull)
    ensures ReadAString(i) == Failure(LiteralContainsNull)
  {
    PrefixReads(|data|, mode, i, Feed(data, rest));
    TakeReads(data, 0, rest);
    assert data[0..] == data;
    assert Starts(i, LBRACE);
  }

  lemma StringReads(s: IString, i: Wire, rest: Wire)
    requires StringText(s, i, rest)
    requires rest.Byte?
    ensures ReadString(i) == if FitsIString(s) then Ok(rest, s) else Error
  {
    match s
    case LiteralString(l) => LiteralReads(l, i, rest);
    case QuotedString(text) => QuotedReads(text, i, rest);
  }

  lemma PutIStringIsText(s: IString, rest: Wire)
    requires ValidIString(s)
    ensures StringText(s, PutIString(s, rest), rest)
  {
    match s
    case LiteralString(l) => PutPrefixIsText(|l.data|, l.mode, Feed(l.data, rest));
    case QuotedString(text) => PutQuotedIsText(text, rest);
  }

  /** No string begins with a letter. */
  lemma WordIsNoString(i: Wire, rest: Wire)
    requires WordText("NIL", i, rest)
    ensures i.Byte? && i.head in {0x4E, 0x6E}
    ensures ReadString(i) == Error
  {
    var s :| Spells(s, "NIL") && i == Feed(s, rest);
    assert SameLetter(s[0], Octet('N'));
  }

  lemma NStringReads(s: NString, i: Wire, rest: Wire)
    requires NStringText(s, i, rest)
    requires rest.Byte?
    ensures ReadNString(i) == if FitsNString(s) then Ok(rest, s) else Error
  {
    match s.inner
    case Some(inner) =>
      StringReads(inner, i, rest);
      if !FitsNString(s) {
        assert Starts(i, LBRACE);
      }
    case None =>
      WordIsNoString(i, rest);
      TagIsWord("NIL", i, rest);
  }

  lemma PutNStringIsText(s: NString, rest: Wire)
    requires ValidNString(s)
    ensures NStringText(s, PutNString(s, rest), rest)
  {
    match s.inner
    case Some(inner) => PutIStringIsText(inner, rest);
    case None => TextIsWord("NIL", rest);
  }

  lemma NStringRoundTrip(s: NString, rest: Wire)
    requires ValidNString(s)
    requires rest.Byte?
    ensures ReadNString(PutNString(s, rest)) == if FitsNString(s) then Ok(rest, s) else Error
  {
    PutNStringIsText(s, rest);
    NStringReads(s, PutNString(s, rest), rest);
  }

  /** A string begins with a brace or a quote. */
  lemma StringHead(s: IString, i: Wire, rest: Wire)
    requires StringText(s, i, rest)
    ensures i.Byte? && i.head in {LBRACE, DQUOTE}
  {
  }

  lemma GoodStringsRead()
    ensures Reads(ReadString, GoodStringText, More)
    ensures Reads(ReadNString, GoodNStringText, More)
  {
    forall s, i, rest {:trigger GoodStringText(s, i, rest)} | GoodStringText(s, i, rest) && More(rest)
      ensures ReadString(i) == Ok(rest, s)
    {
      StringReads(s, i, rest);
    }
    forall s, i, rest {:trigger GoodNStringText(s, i, rest)} | GoodNStringText(s, i, rest) && More(rest)
      ensures ReadNString(i) == Ok(rest, s)
    {
      NStringReads(s, i, rest);
    }
  }

  lemma AStringReads(s: AString, i: Wire, rest: Wire)
    requires AStringText(s, i, rest)
    requires Delimited(rest)
    ensures ReadAString(i) == if FitsAString(s) then Ok(rest, s) else Error
  {
    match s
    case AtomString(text) => TakeWhile1Reads(IsAStringChar, text, rest);
    case StringString(inner) =>
      StringReads(inner, i, rest);
      StringHead(inner, i, rest);
  }

  lemma PutAStringIsText(s: AString, rest: Wire)
    requires ValidAString(s)
    ensures AStringText(s, PutAString(s, rest), rest)
  {
    if s.StringString? {
      PutIStringIsText(s.inner, rest);
    }
  }

  lemma AStringRoundTrip(s: AString, rest: Wire)
    requires ValidAString(s)
    requires Delimited(rest)
    ensures ReadAString(PutAString(s, rest)) == if FitsAString(s) then Ok(rest, s) else Error
  {
    PutAStringIsText(s, rest);
    AStringReads(s, PutAString(s, rest), rest);
  }

  lemma AtomReads(text: bytes, i: Wire, rest: Wire)
    requires AtomText(text, i, rest)
    requires Delimited(rest)
    ensures ReadAtom(i) == Ok(rest, text)
  {
    TakeWhile1Reads(IsAtomChar, text, rest);
  }

  // ----- What is read is legal -----

  /** A legal string with a length that can be announced. */
  predicate GoodString(s: IString) {
    ValidIString(s) && FitsIString(s)
  }

  predicate GoodNString(s: NString) {
    s.inner.Some? ==> GoodString(s.inner.value)
  }

  predicate GoodAString(s: AString) {
    ValidAString(s) && FitsAString(s)
  }

  /** The body of a quoted string as it is read: well-formed, and of text characters only. */
  ghost predicate ProperBody(e: bytes) {
    WellFormed(e) && ValidQuoted(e)
  }

  lemma {:induction false} ProperRun(text: bytes, k: nat, e: bytes)
    requires k <= |text| && All(IsQuotedText, text)
    requires ProperBody(e)
    ensures ProperBody(text[k..] + e)
    decreases |text| - k
  {
    if k == |text| {
      assert text[k..] + e == e;
    } else {
      ProperRun(text, k + 1, e);
      assert (text[k..] + e)[1..] == text[k + 1..] + e;
      assert IsQuotedText((text[k..] + e)[0]);
    }
  }

  lemma ProperPair(b: byte, e: bytes)
    requires IsQuotedSpecials(b)
    requires ProperBody(e)
    ensures ProperBody([BACKSLASH, b] + e)
  {
    var s := [BACKSLASH, b] + e;
    assert s[2..] == e && s[0] == BACKSLASH && s[1] == b;
  }

  lemma {:induction false} EscapedIsProper(i: Wire)
    ensures ReadEscaped(i).Ok? ==> ProperBody(ReadEscaped(i).value)
    decreases Size(i)
  {
    if ReadEscaped(i).Ok? {
      match TakeWhile1(IsQuotedText, i)
      case Ok(i2, text) =>
        EscapedIsProper(i2);
        TakeWhileTakes(IsQuotedText, i);
        ProperRun(text, 0, ReadEscaped(i2).value);
        assert text[0..] == text;
      case Error =>
        if i.head == BACKSLASH {
          assert Size(i.tail.tail) < Size(i.tail) < Size(i);
          EscapedIsProper(i.tail.tail);
          ProperPair(i.tail.head, ReadEscaped(i.tail.tail).value);
        }
      case _ =>
    }
  }

  lemma {:induction false} UnescapeKeepsText(e: bytes)
    requires ProperBody(e)
    ensures ValidQuoted(Unescape(e))
  {
    if e != [] {
      if e[0] == BACKSLASH {
        UnescapeKeepsText(e[2..]);
      } else {
        UnescapeKeepsText(e[1..]);
      }
    }
  }

  lemma QuotedIsText(i: Wire)
    ensures ReadQuoted(i).Ok? ==> QuotedText(ReadQuoted(i).value, i, ReadQuoted(i).rest)
  {
    if ReadQuoted(i).Ok? {
      EscapedIsProper(i.tail);
      var e := ReadEscaped(i.tail).value;
      UnescapeIsSinglePass(e);
      UnescapeKeepsText(e);
      EscapeInvertsUnescape(e);
      EscapeIsBytewise(UnescapeQuoted(e));
      EscapedTakes(i.tail);
    }
  }

  lemma {:induction false} EscapedTakes(i: Wire)
    ensures ReadEscaped(i).Ok? ==> i == Feed(ReadEscaped(i).value, ReadEscaped(i).rest)
    decreases Size(i)
  {
    if ReadEscaped(i).Ok? {
      match TakeWhile1(IsQuotedText, i)
      case Ok(i2, text) =>
        EscapedTakes(i2);
        TakeWhileTakes(IsQuotedText, i);
        FeedConcat(text, ReadEscaped(i2).value, ReadEscaped(i).rest);
      case Error =>
        if i.head == BACKSLASH {
          var j := i.tail.tail;
          assert Size(j) < Size(i.tail) < Size(i);
          EscapedTakes(j);
          PairTakes(i.head, i.tail.head, ReadEscaped(j).value, ReadEscaped(i).rest);
        }
      case _ =>
    }
  }

  lemma PairTakes(b: byte, c: byte, s: bytes, rest: Wire)
    ensures Feed([b, c] + s, rest) == Byte(b, Byte(c, Feed(s, rest)))
  {
    assert [b, c] + s == [b] + ([c] + s);
    FeedCons(b, [c] + s, rest);
    FeedCons(c, s, rest);
  }

  lemma LiteralIsText(i: Wire)
    ensures ReadLiteral(i).Ok? ==> LiteralText(ReadLiteral(i).value, i, ReadLiteral(i).rest)
  {
    if ReadLiteral(i).Ok? {
      PrefixIsText(i);
      TakeTakes(ReadPrefix(i).value.0, ReadPrefix(i).rest);
    }
  }

  /** Whatever is read as a string is a text of it, and the string is legal. */
  lemma StringIsText(i: Wire)
    ensures var r := ReadString(i); r.Ok? ==> StringText(r.value, i, r.rest) && GoodString(r.value)
  {
    QuotedIsText(i);
    LiteralIsText(i);
  }

  /** Every string that is read is legal. */
  lemma StringIsGood(i: Wire)
    ensures ReadString(i).Ok? ==> GoodString(ReadString(i).value)
  {
    StringIsText(i);
  }

  lemma NStringIsText(i: Wire)
    ensures var r := ReadNString(i); r.Ok? ==> NStringText(r.value, i, r.rest) && GoodNString(r.value)
  {
    StringIsText(i);
    TagTakesWord("NIL", i);
  }

  lemma NStringIsGood(i: Wire)
    ensures ReadNString(i).Ok? ==> GoodNString(ReadNString(i).value)
  {
    NStringIsText(i);
  }

  lemma GoodStringsAreTexts()
    ensures Accepts(ReadString, GoodStringText)
    ensures Accepts(ReadNString, GoodNStringText)
  {
    forall i {:trigger ReadString(i)} ensures var r := ReadString(i); r.Ok? ==> GoodStringText(r.value, i, r.rest) {
      StringIsText(i);
    }
    forall i {:trigger ReadNString(i)} ensures var r := ReadNString(i); r.Ok? ==> GoodNStringText(r.value, i, r.rest) {
      NStringIsText(i);
    }
  }

  lemma AStringIsText(i: Wire)
    ensures var r := ReadAString(i); r.Ok? ==> AStringText(r.value, i, r.rest) && GoodAString(r.value)
  {
    StringIsText(i);
    TakeWhileTakes(IsAStringChar, i);
  }

  lemma AStringIsGood(i: Wire)
    ensures ReadAString(i).Ok? ==> GoodAString(ReadAString(i).value)
  {
    AStringIsText(i);
  }

  lemma AtomIsText(i: Wire)
    ensures var r := ReadAtom(i); r.Ok? ==> AtomText(r.value, i, r.rest)
  {
    TakeWhileTakes(IsAtomChar, i);
    var text := TakeWhile(IsAtomChar, i).0;
    assert forall k | 0 <= k < |text| :: IsAtomChar(text[k]);
  }

  // ----- Stability -----

  lemma NumberStable(i: Wire, q: Wire)
    ensures Extends(ReadNumber(i), ReadNumber(Join(i, q)), q)
    ensures Extends(ReadNzNumber(i), ReadNzNumber(Join(i, q)), q)
  {
    TakeWhile1Stable(IsDigit, i, q);
  }

  lemma {:induction false} EscapedStable(i: Wire, q: Wire)
    ensures Extends(ReadEscaped(i), ReadEscaped(Join(i, q)), q)
    decreases Size(i)
  {
    if i.Byte? {
      TakeWhile1Stable(IsQuotedText, i, q);
      match TakeWhile1(IsQuotedText, i)
      case Ok(i2, _) => EscapedStable(i2, q);
      case Error =>
        if i.tail.Byte? {
          assert Size(i.tail.tail) < Size(i.tail) < Size(i);
          EscapedStable(i.tail.tail, q);
        }
      case _ =>
    }
  }

  lemma QuotedStable(i: Wire, q: Wire)
    ensures Extends(ReadQuoted(i), ReadQuoted(Join(i, q)), q)
  {
    CharStable(DQUOTE, i, q);
    if Char(DQUOTE, i).Ok? {
      var i1 := Char(DQUOTE, i).rest;
      EscapedStable(i1, q);
      if ReadEscaped(i1).Ok? {
        CharStable(DQUOTE, ReadEscaped(i1).rest, q);
      }
    }
  }

  lemma PrefixStable(i: Wire, q: Wire)
    ensures Extends(ReadPrefix(i), ReadPrefix(Join(i, q)), q)
  {
    CharStable(LBRACE, i, q);
    if Char(LBRACE, i).Ok? {
      var i1 := Char(LBRACE, i).rest;
      NumberStable(i1, q);
      if ReadNumber(i1).Ok? {
        var i2 := ReadNumber(i1).rest;
        CharStable(PLUS, i2, q);
        var plus := Opt(Char(PLUS, i2), i2);
        if plus.Ok? {
          CharStable(RBRACE, plus.rest, q);
          if Char(RBRACE, plus.rest).Ok? {
            CrlfStable(Char(RBRACE, plus.rest).rest, q);
          }
        }
      }
    }
  }

  lemma LiteralStable(i: Wire, q: Wire)
    ensures Extends(ReadLiteral(i), ReadLiteral(Join(i, q)), q)
  {
    PrefixStable(i, q);
    if ReadPrefix(i).Ok? {
      TakeStable(ReadPrefix(i).value.0, ReadPrefix(i).rest, q);
    }
  }

  lemma StringStable(i: Wire, q: Wire)
    ensures Extends(ReadString(i), ReadString(Join(i, q)), q)
  {
    QuotedStable(i, q);
    LiteralStable(i, q);
  }

  lemma NStringStable(i: Wire, q: Wire)
    ensures Extends(ReadNString(i), ReadNString(Join(i, q)), q)
  {
    StringStable(i, q);
    TagStable("NIL", i, q);
  }

  lemma AStringStable(i: Wire, q: Wire)
    ensures Extends(ReadAString(i), ReadAString(Join(i, q)), q)
  {
    TakeWhile1Stable(IsAStringChar, i, q);
    StringStable(i, q);
  }

  lemma AtomStable(i: Wire, q: Wire)
    ensures Extends(ReadAtom(i), ReadAtom(Join(i, q)), q)
  {
    TakeWhile1Stable(IsAtomChar, i, q);
  }
}
