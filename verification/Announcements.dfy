/** The line automaton of the Fragmentizer and the regular language it decides. */
module Announcements {
  import opened Octets

  datatype LiteralAnnouncement = LiteralAnnouncement(mode: LiteralMode, length: nat)

  datatype LineEnding = Lf | CrLf

  /** The latest byte of a line together with what the bytes before it amount to. */
  datatype LatestByte =
    | Other
    | OpeningBracket
    | Digit(length: nat)
    | Plus(length: nat)
    | ClosingBracket(announcement: LiteralAnnouncement)
    | Cr(announced: Option<LiteralAnnouncement>)

  /** Appends a digit to a 32-bit number, or detects the overflow. */
  function CheckedAppend(length: nat, digit: nat): Option<nat> {
    if length * 10 > U32_MAX then None
    else if length * 10 + digit > U32_MAX then None
    else Some(length * 10 + digit)
  }

  function Advance(latest: LatestByte, next: byte): LatestByte {
    if next == CR then
      Cr(if latest.ClosingBracket? then Some(latest.announcement) else None)
    else if next == LBRACE then
      OpeningBracket
    else
      match latest
      case OpeningBracket =>
        if IsDigit(next) then Digit(DigitValue(next)) else Other
      case Digit(length) =>
        if IsDigit(next) then
          match CheckedAppend(length, DigitValue(next))
          case None => Other
          case Some(n) => Digit(n)
        else if next == PLUS then Plus(length)
        else if next == RBRACE then ClosingBracket(LiteralAnnouncement(Sync, length))
        else Other
      case Plus(length) =>
        if next == RBRACE then ClosingBracket(LiteralAnnouncement(NonSync, length)) else Other
      case _ => Other
  }

  /** The automaton after reading `text`. */
  function Run(latest: LatestByte, text: bytes): LatestByte {
    if text == [] then latest
    else Advance(Run(latest, text[..|text| - 1]), text[|text| - 1])
  }

  /** What a line feed announces in a given state. */
  function AnnouncementAt(latest: LatestByte): Option<LiteralAnnouncement> {
    match latest
    case ClosingBracket(announcement) => Some(announcement)
    case Cr(announced) => announced
    case _ => None
  }

  function EndingAt(latest: LatestByte): LineEnding {
    if latest.Cr? then CrLf else Lf
  }

  // ----- The language, without reference to the automaton -----

  ghost predicate HasSuffix(text: bytes, suffix: bytes) {
    |suffix| <= |text| && text[|text| - |suffix|..] == suffix
  }

  /** `text` ends in an opening brace, a number that fits 32 bits, and `tail`. */
  ghost predicate EndsInNumber(text: bytes, digits: bytes, tail: bytes) {
    && digits != []
    && All(IsDigit, digits)
    && DecimalValue(digits) <= U32_MAX
    && HasSuffix(text, [LBRACE] + digits + tail)
  }

  function AnnouncementTail(mode: LiteralMode): bytes {
    if mode.NonSync? then [PLUS, RBRACE] else [RBRACE]
  }

  /** The bytes of an announcement with its line end. */
  function AnnouncementBytes(digits: bytes, mode: LiteralMode): bytes {
    [LBRACE] + digits + AnnouncementTail(mode) + [CR, LF]
  }

  ghost predicate Announces(text: bytes, a: LiteralAnnouncement) {
    exists digits ::
      EndsInNumber(text, digits, AnnouncementTail(a.mode)) && DecimalValue(digits) == a.length
  }

  function EndsWithCr(text: bytes): bool {
    text != [] && text[|text| - 1] == CR
  }

  function StripCr(text: bytes): bytes {
    if EndsWithCr(text) then text[..|text| - 1] else text
  }

  // ----- The automaton decides the language -----

  lemma {:induction false} RunConcat(latest: LatestByte, a: bytes, b: bytes)
    ensures Run(latest, a + b) == Run(Run(latest, a), b)
  {
    if b == [] {
      assert a + b == a;
    } else {
      var init := b[..|b| - 1];
      RunConcat(latest, a, init);
      assert (a + b)[..|a + b| - 1] == a + init;
    }
  }

  lemma RunStep(latest: LatestByte, text: bytes, next: byte)
    ensures Run(latest, text + [next]) == Advance(Run(latest, text), next)
  {
    assert (text + [next])[..|text|] == text;
  }

  lemma SuffixGrows(text: bytes, suffix: bytes, next: byte)
    requires HasSuffix(text, suffix)
    ensures HasSuffix(text + [next], suffix + [next])
  {
    assert (text + [next])[|text| - |suffix|..] == text[|text| - |suffix|..] + [next];
  }

  lemma NumberGrows(text: bytes, digits: bytes, tail: bytes, next: byte)
    requires EndsInNumber(text, digits, tail)
    ensures EndsInNumber(text + [next], digits, tail + [next])
  {
    SuffixGrows(text, [LBRACE] + digits + tail, next);
    assert [LBRACE] + digits + tail + [next] == [LBRACE] + digits + (tail + [next]);
  }

  lemma DigitGrows(text: bytes, digits: bytes, next: byte)
    requires digits != [] ==> EndsInNumber(text, digits, [])
    requires digits == [] ==> HasSuffix(text, [LBRACE])
    requires IsDigit(next)
    requires 10 * DecimalValue(digits) + DigitValue(next) <= U32_MAX
    ensures EndsInNumber(text + [next], digits + [next], [])
    ensures DecimalValue(digits + [next]) == 10 * DecimalValue(digits) + DigitValue(next)
  {
    assert (digits + [next])[..|digits|] == digits;
    assert [LBRACE] + digits + [] == [LBRACE] + digits;
    SuffixGrows(text, [LBRACE] + digits, next);
    assert [LBRACE] + digits + [next] == [LBRACE] + (digits + [next]) + [];
  }

  /** What a state that is inside or right after an announcement says about the text. */
  ghost predicate Explains(text: bytes, digits: bytes, s: LatestByte) {
    match s
    case OpeningBracket => HasSuffix(text, [LBRACE])
    case Digit(n) => EndsInNumber(text, digits, []) && DecimalValue(digits) == n
    case Plus(n) => EndsInNumber(text, digits, [PLUS]) && DecimalValue(digits) == n
    case ClosingBracket(a) =>
      EndsInNumber(text, digits, AnnouncementTail(a.mode)) && DecimalValue(digits) == a.length
    case _ => true
  }

  lemma ExplainsStep(text: bytes, digits: bytes, s: LatestByte, next: byte) returns (after: bytes)
    requires Explains(text, digits, s)
    ensures Explains(text + [next], after, Advance(s, next))
  {
    after := digits;
    match Advance(s, next)
    case OpeningBracket =>
    case Digit(n) =>
      if s.OpeningBracket? {
        DigitGrows(text, [], next);
        assert [] + [next] == [next];
        after := [next];
      } else {
        DigitGrows(text, digits, next);
        after := digits + [next];
      }
    case Plus(n) =>
      NumberGrows(text, digits, [], next);
      assert [] + [next] == [PLUS];
    case ClosingBracket(a) =>
      var tail := if s.Plus? then [PLUS] else [];
      NumberGrows(text, digits, tail, next);
      assert tail + [next] == AnnouncementTail(a.mode);
    case _ =>
  }

  /** The digits behind a state that is inside or right after an announcement. */
  lemma {:induction false} Origin(text: bytes) returns (digits: bytes)
    ensures Explains(text, digits, Run(Other, text))
  {
    digits := [];
    if text != [] {
      var init, next := text[..|text| - 1], text[|text| - 1];
      assert text == init + [next];
      var before := Origin(init);
      digits := ExplainsStep(init, before, Run(Other, init), next);
    }
  }

  lemma {:induction false} RunNumber(before: bytes, digits: bytes)
    requires digits != []
    requires All(IsDigit, digits)
    requires DecimalValue(digits) <= U32_MAX
    ensures Run(Other, before + [LBRACE] + digits) == Digit(DecimalValue(digits))
    decreases |digits|
  {
    var init, last := digits[..|digits| - 1], digits[|digits| - 1];
    assert before + [LBRACE] + digits == (before + [LBRACE] + init) + [last];
    RunStep(Other, before + [LBRACE] + init, last);
    assert IsDigit(last);
    if init == [] {
      assert before + [LBRACE] + init == before + [LBRACE];
      RunStep(Other, before, LBRACE);
    } else {
      PrefixValue(digits, |init|);
      RunNumber(before, init);
    }
  }

  lemma RunAnnouncement(before: bytes, digits: bytes, mode: LiteralMode)
    requires digits != []
    requires All(IsDigit, digits)
    requires DecimalValue(digits) <= U32_MAX
    ensures Run(Other, before + [LBRACE] + digits + AnnouncementTail(mode))
         == ClosingBracket(LiteralAnnouncement(mode, DecimalValue(digits)))
  {
    RunNumber(before, digits);
    var text := before + [LBRACE] + digits;
    if mode == Sync {
      RunStep(Other, text, RBRACE);
    } else {
      RunStep(Other, text, PLUS);
      RunStep(Other, text + [PLUS], RBRACE);
      assert text + AnnouncementTail(mode) == (text + [PLUS]) + [RBRACE];
    }
  }

  /** A state is "right after an announcement" exactly when the text ends in one. */
  lemma ClosingBracketMeaning(text: bytes, a: LiteralAnnouncement)
    ensures Run(Other, text) == ClosingBracket(a) <==> Announces(text, a)
  {
    var origin := Origin(text);
    if Announces(text, a) {
      var digits :|
        EndsInNumber(text, digits, AnnouncementTail(a.mode)) && DecimalValue(digits) == a.length;
      var suffix := [LBRACE] + digits + AnnouncementTail(a.mode);
      var before := text[..|text| - |suffix|];
      assert text == before + [LBRACE] + digits + AnnouncementTail(a.mode);
      RunAnnouncement(before, digits, a.mode);
    }
  }

  /** The line automaton decides the announcement language and the line ending:
      `text` is a line without its line feed. */
  lemma LineMeaning(text: bytes, a: LiteralAnnouncement)
    ensures AnnouncementAt(Run(Other, text)) == Some(a) <==> Announces(StripCr(text), a)
    ensures EndingAt(Run(Other, text)) == CrLf <==> EndsWithCr(text)
  {
    if EndsWithCr(text) {
      ClosingBracketMeaning(StripCr(text), a);
    } else {
      ClosingBracketMeaning(text, a);
    }
  }

  /** At most one announcement fits a line. */
  lemma AnnouncementIsUnique(text: bytes, a: LiteralAnnouncement, b: LiteralAnnouncement)
    requires Announces(text, a) && Announces(text, b)
    ensures a == b
  {
    ClosingBracketMeaning(text, a);
    ClosingBracketMeaning(text, b);
  }

  ghost function AnnouncementOf(text: bytes): Option<LiteralAnnouncement> {
    if exists a :: Announces(text, a) then
      var a :| Announces(text, a);
      Some(a)
    else None
  }

  /** What the automaton reports for a line is what the line announces. */
  lemma LineVerdict(text: bytes)
    ensures AnnouncementAt(Run(Other, text)) == AnnouncementOf(StripCr(text))
    ensures EndingAt(Run(Other, text)) == if EndsWithCr(text) then CrLf else Lf
  {
    LineMeaning(text, LiteralAnnouncement(Sync, 0));
    var seen, meant := AnnouncementAt(Run(Other, text)), AnnouncementOf(StripCr(text));
    if seen.Some? {
      LineMeaning(text, seen.value);
      AnnouncementIsUnique(StripCr(text), seen.value, meant.value);
    }
    if meant.Some? {
      LineMeaning(text, meant.value);
    }
  }
}
