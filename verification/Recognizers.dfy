/** Two recognizers of literal announcements: the line automaton that splits a stream, and the
    literal reader of the grammar. */
module Recognizers {
  import opened Octets
  import opened Nom
  import opened Strings
  import opened Announcements
  import FragmentizerModel

  /** What was taken and what was left make up the input. */
  lemma {:induction false} TakeWhileSplits(p: byte -> bool, i: Wire)
    ensures var (text, rest) := TakeWhile(p, i);
            Bytes(i) == text + Bytes(rest) && (rest.Byte? ==> !p(rest.head))
  {
    if i.Byte? && p(i.head) {
      TakeWhileSplits(p, i.tail);
    }
  }

  /** The text of an announcement followed by `rest`. */
  function PutAnnouncement(digits: bytes, mode: LiteralMode, rest: Wire): Wire {
    Byte(LBRACE, Feed(digits, PutTail(mode, Byte(CR, Byte(LF, rest)))))
  }

  lemma AnnouncementText(digits: bytes, mode: LiteralMode)
    ensures Bytes(PutAnnouncement(digits, mode, End)) == AnnouncementBytes(digits, mode)
  {
    var crlf := Byte(CR, Byte(LF, End));
    assert Bytes(Byte(LF, End)) == [LF];
    assert Bytes(crlf) == [CR, LF];
    assert Bytes(Byte(RBRACE, crlf)) == [RBRACE, CR, LF];
    assert Bytes(PutTail(mode, crlf)) == AnnouncementTail(mode) + [CR, LF];
    BytesFrom(digits, 0, PutTail(mode, crlf));
  }

  lemma AnnouncementStops(digits: bytes, mode: LiteralMode)
    requires digits != [] && All(IsDigit, digits)
    requires DecimalValue(digits) <= U32_MAX
    ensures ReadLiteral(PutAnnouncement(digits, mode, End)) == Failure(LiteralFound(DecimalValue(digits), mode))
  {
    TakeWhile1Reads(IsDigit, digits, PutTail(mode, Byte(CR, Byte(LF, End))));
  }

  lemma StopTail(i: Wire, mode: LiteralMode)
    requires i.Byte?
    requires var plus := Opt(Char(PLUS, i), i);
             && plus.Ok? && mode == (if plus.value.Some? then NonSync else Sync)
             && Char(RBRACE, plus.rest).Ok? && Crlf(Char(RBRACE, plus.rest).rest) == Ok(End, ())
    ensures i == PutTail(mode, Byte(CR, Byte(LF, End)))
  {
    var j := Opt(Char(PLUS, i), i).rest;
    assert j == Byte(RBRACE, j.tail);
    assert j.tail == Byte(CR, Byte(LF, End));
  }

  lemma PrefixNeverFails(i: Wire)
    ensures !ReadPrefix(i).Failure?
  {
  }

  lemma {:induction false} TakeNeverFails(n: nat, i: Wire)
    ensures !Take(n, i).Failure?
    decreases n
  {
    if n > 0 && i.Byte? {
      TakeNeverFails(n - 1, i.tail);
    }
  }

  lemma StopsAfterPrefix(w: Wire, length: nat, mode: LiteralMode)
    requires ReadLiteral(w) == Failure(LiteralFound(length, mode))
    ensures ReadPrefix(w) == Ok(End, (length, mode))
  {
    PrefixNeverFails(w);
    if ReadPrefix(w).Ok? {
      TakeNeverFails(ReadPrefix(w).value.0, ReadPrefix(w).rest);
    }
  }

  lemma PrefixParts(w: Wire, length: nat, mode: LiteralMode) returns (digits: bytes)
    requires ReadPrefix(w) == Ok(End, (length, mode))
    ensures w.Byte? && w.head == LBRACE && ReadNumber(w.tail).Ok?
    ensures TakeWhile(IsDigit, w.tail) == (digits, PutTail(mode, Byte(CR, Byte(LF, End))))
    ensures digits != [] && DecimalValue(digits) == length <= U32_MAX
  {
    var rest := ReadNumber(w.tail).rest;
    digits := TakeWhile(IsDigit, w.tail).0;
    StopTail(rest, mode);
  }

  /** The reader only stops for literal data at the end of an announcement. */
  lemma StopMeansAnnouncement(w: Wire, length: nat, mode: LiteralMode) returns (digits: bytes)
    requires ReadLiteral(w) == Failure(LiteralFound(length, mode))
    ensures digits != [] && All(IsDigit, digits) && DecimalValue(digits) == length <= U32_MAX
    ensures Bytes(w) == AnnouncementBytes(digits, mode)
  {
    StopsAfterPrefix(w, length, mode);
    digits := PrefixParts(w, length, mode);
    TakeWhileSplits(IsDigit, w.tail);
    TakeWhileTakes(IsDigit, w.tail);
    AnnouncementText(digits, mode);
    BytesFrom(digits, 0, PutTail(mode, Byte(CR, Byte(LF, End))));
  }

  /** Some suffix of the line makes the literal reader stop with this announcement. */
  ghost predicate StopsReader(text: bytes, a: LiteralAnnouncement) {
    exists k: nat ::
      k <= |text| && ReadLiteral(FeedFrom(text + [CR, LF], k, End)) == Failure(LiteralFound(a.length, a.mode))
  }

  lemma AnnouncesMeansStops(text: bytes, a: LiteralAnnouncement)
    requires Announces(text, a)
    ensures StopsReader(text, a)
  {
    var digits :| EndsInNumber(text, digits, AnnouncementTail(a.mode)) && DecimalValue(digits) == a.length;
    var suffix := [LBRACE] + digits + AnnouncementTail(a.mode);
    var k: nat := |text| - |suffix|;
    var line := text + [CR, LF];
    BytesFrom(line, k, End);
    assert line[k..] == suffix + [CR, LF];
    AnnouncementText(digits, a.mode);
    assert line[k..] + [] == line[k..];
    BytesDetermine(FeedFrom(line, k, End), PutAnnouncement(digits, a.mode, End));
    AnnouncementStops(digits, a.mode);
  }

  lemma StopsMeansAnnounces(text: bytes, a: LiteralAnnouncement)
    requires StopsReader(text, a)
    ensures Announces(text, a)
  {
    var line := text + [CR, LF];
    var k: nat :| k <= |text| && ReadLiteral(FeedFrom(line, k, End)) == Failure(LiteralFound(a.length, a.mode));
    var digits := StopMeansAnnouncement(FeedFrom(line, k, End), a.length, a.mode);
    BytesFrom(line, k, End);
    assert line[k..] + [] == line[k..];
    var suffix := [LBRACE] + digits + AnnouncementTail(a.mode);
    assert line[k..] == suffix + [CR, LF];
    assert line[k..] == text[k..] + [CR, LF];
    assert text[k..] == line[k..][..|line[k..]| - 2];
    assert |text| - |suffix| == k;
  }

  /** On a line that ends in CRLF, the line automaton announces a literal exactly when the
      literal reader stops for one on some suffix of the line. */
  lemma RecognizersAgree(text: bytes, a: LiteralAnnouncement)
    ensures AnnouncementAt(Run(Other, text + [CR])) == Some(a) <==> StopsReader(text, a)
    ensures EndingAt(Run(Other, text + [CR])) == CrLf
  {
    LineMeaning(text + [CR], a);
    assert StripCr(text + [CR]) == text;
    if Announces(text, a) {
      AnnouncesMeansStops(text, a);
    }
    if StopsReader(text, a) {
      StopsMeansAnnounces(text, a);
    }
  }

  // ----- Tags -----

  lemma {:induction false} TagRun(message: bytes, k: nat)
    requires k <= |message|
    ensures var n := FragmentizerModel.TagLength(message, k);
            TakeWhile(IsTagChar, FeedFrom(message, k, End)) == (message[k..n], FeedFrom(message, n, End))
    decreases |message| - k
  {
    var n := FragmentizerModel.TagLength(message, k);
    if k < |message| && IsTagChar(message[k]) {
      TagRun(message, k + 1);
      assert message[k..n] == [message[k]] + message[k + 1..n];
    } else {
      assert message[k..n] == [];
    }
  }

  /** The tag that is looked up in a message that could not be parsed is the one the grammar
      reads there, provided a space follows it. */
  lemma TagRecognizersAgree(message: bytes, tag: bytes)
    ensures FragmentizerModel.TagOf(message) == Some(tag)
       <==> exists rest :: ReadTag(Feed(message, End)) == Ok(Byte(SP, rest), tag)
  {
    TagRun(message, 0);
    var n := FragmentizerModel.TagLength(message, 0);
    assert message[0..n] == message[..n];
    if n < |message| {
      assert FeedFrom(message, n, End) == Byte(message[n], FeedFrom(message, n + 1, End));
    }
  }
}
