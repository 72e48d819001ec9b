/** What the fragments of a byte stream are: once as a declaration about the whole stream,
    once as what a parser that stopped anywhere still has to report. */
module Fragments {
  import opened Octets
  import opened Announcements

  datatype FragmentInfo =
    | Line(start: nat, end: nat, announcement: Option<LiteralAnnouncement>, ending: LineEnding)
    | Literal(start: nat, end: nat)

  /** Where the parser for the next fragment stands. */
  datatype Parser =
    | AtLine(start: nat, end: nat, latest: LatestByte)
    | AtLiteral(start: nat, end: nat, remaining: nat)

  const START := AtLine(0, 0, Other)

  /** The index of the first line feed at or after `from`, or the length of the text. */
  function LfFrom(s: bytes, from: nat): (k: nat)
    requires from <= |s|
    ensures from <= k <= |s|
    decreases |s| - from
  {
    if from == |s| || s[from] == LF then from else LfFrom(s, from + 1)
  }

  lemma {:induction false} LfFromMeaning(s: bytes, from: nat)
    requires from <= |s|
    ensures LfFrom(s, from) < |s| ==> s[LfFrom(s, from)] == LF
    ensures forall j | from <= j < LfFrom(s, from) :: s[j] != LF
    decreases |s| - from
  {
    if from < |s| && s[from] != LF {
      LfFromMeaning(s, from + 1);
    }
  }

  lemma {:induction false} LfFromExtends(s: bytes, q: bytes, from: nat)
    requires from <= |s|
    ensures LfFrom(s + q, from)
         == if LfFrom(s, from) < |s| then LfFrom(s, from) else |s| + LfFrom(q, 0)
    decreases |s| - from
  {
    if from == |s| {
      LfFromShifted(s, q, 0);
    } else if s[from] != LF {
      LfFromExtends(s, q, from + 1);
    }
  }

  lemma {:induction false} LfFromShifted(s: bytes, q: bytes, from: nat)
    requires from <= |q|
    ensures LfFrom(s + q, |s| + from) == |s| + LfFrom(q, from)
    decreases |q| - from
  {
    if from < |q| && q[from] != LF {
      LfFromShifted(s, q, from + 1);
    }
  }

  /** The automaton after the bytes of `s` between two indices. */
  function RunOver(latest: LatestByte, s: bytes, from: nat, upto: nat): LatestByte
    requires from <= upto <= |s|
    decreases upto
  {
    if from == upto then latest else Advance(RunOver(latest, s, from, upto - 1), s[upto - 1])
  }

  lemma {:induction false} RunOverIsRun(latest: LatestByte, s: bytes, from: nat, upto: nat)
    requires from <= upto <= |s|
    ensures RunOver(latest, s, from, upto) == Run(latest, s[from..upto])
    decreases upto
  {
    if from < upto {
      RunOverIsRun(latest, s, from, upto - 1);
      assert s[from..upto] == s[from..upto - 1] + [s[upto - 1]];
      RunStep(latest, s[from..upto - 1], s[upto - 1]);
    }
  }

  lemma {:induction false} RunOverSplits(latest: LatestByte, s: bytes, from: nat, mid: nat, upto: nat)
    requires from <= mid <= upto <= |s|
    ensures RunOver(latest, s, from, upto) == RunOver(RunOver(latest, s, from, mid), s, mid, upto)
    decreases upto
  {
    if mid < upto {
      RunOverSplits(latest, s, from, mid, upto - 1);
    }
  }

  lemma {:induction false} RunOverShifts(latest: LatestByte, a: bytes, s: bytes, q: bytes, from: nat, upto: nat)
    requires from <= upto <= |s|
    ensures RunOver(latest, a + s + q, |a| + from, |a| + upto) == RunOver(latest, s, from, upto)
    decreases upto
  {
    if from < upto {
      RunOverShifts(latest, a, s, q, from, upto - 1);
    }
  }

  /** The parser that follows a fragment; none after the last line of a message. */
  function After(fragment: FragmentInfo): Option<Parser> {
    match fragment
    case Line(_, _, None, _) => None
    case Line(_, end, Some(a), _) => Some(AtLiteral(end, end, a.length))
    case Literal(_, end) => Some(AtLine(end, end, Other))
  }

  /** One attempt to find the next fragment in the bytes of `s` from index `from` on:
      index reached, parser left behind, fragment. */
  function ParseNext(p: Parser, s: bytes, from: nat): (r: (nat, Parser, Option<FragmentInfo>))
    requires from <= |s|
    ensures from <= r.0 <= |s|
    ensures r.2.None? ==> r.0 == |s| && !(r.1.AtLiteral? && r.1.remaining == 0)
    ensures r.2.Some? ==> r.0 > from || (p.AtLiteral? && p.remaining == 0)
  {
    match p
    case AtLine(start, end, latest) =>
      var k := LfFrom(s, from);
      var seen := RunOver(latest, s, from, k);
      if k == |s| then
        (k, AtLine(start, end + k - from, seen), None)
      else
        var upto := end + k + 1 - from;
        (k + 1, AtLine(start, upto, Other),
         Some(Line(start, upto, AnnouncementAt(seen), EndingAt(seen))))
    case AtLiteral(start, end, remaining) =>
      if |s| - from < remaining then
        (|s|, AtLiteral(start, end + |s| - from, remaining - (|s| - from)), None)
      else
        var upto := end + remaining;
        (from + remaining, AtLiteral(start, upto, 0), Some(Literal(start, upto)))
  }

  function Rank(p: Option<Parser>): nat {
    match p
    case None => 1
    case Some(AtLine(_, _, _)) => 0
    case Some(AtLiteral(_, _, _)) => 2
  }

  /** All fragments that a parser standing at `p` finds in `s` from index `from` on. */
  function Residual(p: Option<Parser>, s: bytes, from: nat): seq<FragmentInfo>
    requires from <= |s|
    decreases |s| - from, Rank(p)
  {
    match p
    case None => Residual(Some(START), s, from)
    case Some(parser) =>
      var (next, _, fragment) := ParseNext(parser, s, from);
      match fragment
      case None => []
      case Some(f) => [f] + Residual(After(f), s, next)
  }

  /** The parser left behind when `s` is used up. */
  function Drained(p: Option<Parser>, s: bytes, from: nat): Parser
    requires from <= |s|
    decreases |s| - from, Rank(p)
  {
    match p
    case None => Drained(Some(START), s, from)
    case Some(parser) =>
      var (next, left, fragment) := ParseNext(parser, s, from);
      match fragment
      case None => left
      case Some(f) => Drained(After(f), s, next)
  }

  // ----- The declaration -----

  /** What there is to say about a line: what it announces and how it ends. */
  datatype Verdict = Verdict(announcement: Option<LiteralAnnouncement>, ending: LineEnding)

  /** Reads lines, given by the index of their first byte and of their line feed. */
  type Reader = (nat, nat) -> Verdict

  /** The reading of the lines of `s` by the announcement language. */
  ghost function Declared(s: bytes): Reader {
    (from: nat, upto: nat) =>
      if from <= upto <= |s| then
        Verdict(AnnouncementOf(StripCr(s[from..upto])), if EndsWithCr(s[from..upto]) then CrLf else Lf)
      else Verdict(None, Lf)
  }

  /** A message is a chain of lines, each ended by the next line feed, and literals, each
      exactly as long as the line before it announces. */
  function Split(read: Reader, s: bytes, from: nat, at: nat, pending: Option<nat>): seq<FragmentInfo>
    requires from <= |s|
    decreases |s| - from, if pending.Some? then 1 else 0
  {
    match pending
    case Some(length) =>
      if |s| - from < length then []
      else [Literal(at, at + length)] + Split(read, s, from + length, at + length, None)
    case None =>
      var k := LfFrom(s, from);
      if k == |s| then []
      else
        var line := LineAt(read, from, k, at);
        [line] +
        match line.announcement
        case None => Split(read, s, k + 1, 0, None)
        case Some(x) => Split(read, s, k + 1, line.end, Some(x.length))
  }

  function LineAt(read: Reader, from: nat, k: nat, at: nat): (line: FragmentInfo)
    requires from <= k
    ensures line.Line?
  {
    Line(at, at + k + 1 - from, read(from, k).announcement, read(from, k).ending)
  }

  /** The fragments of a byte stream, as declared. */
  ghost function FragmentsOf(s: bytes): seq<FragmentInfo> {
    Split(Declared(s), s, 0, 0, None)
  }

  function Fresh(at: nat, pending: Option<nat>): Parser {
    match pending
    case None => AtLine(at, at, Other)
    case Some(length) => AtLiteral(at, at, length)
  }

  ghost predicate ReadsLikeAutomaton(read: Reader, s: bytes) {
    forall from: nat, upto: nat | from <= upto <= |s| ::
      var seen := RunOver(Other, s, from, upto);
      read(from, upto) == Verdict(AnnouncementAt(seen), EndingAt(seen))
  }

  lemma DeclaredReadsLikeAutomaton(s: bytes)
    ensures ReadsLikeAutomaton(Declared(s), s)
  {
    forall from: nat, upto: nat | from <= upto <= |s|
      ensures var seen := RunOver(Other, s, from, upto);
              Declared(s)(from, upto) == Verdict(AnnouncementAt(seen), EndingAt(seen))
    {
      LineVerdict(s[from..upto]);
      RunOverIsRun(Other, s, from, upto);
    }
  }

  lemma ParsesReadLine(read: Reader, s: bytes, from: nat, at: nat)
    requires from <= |s| && LfFrom(s, from) < |s|
    requires ReadsLikeAutomaton(read, s)
    ensures var (next, _, line) := ParseNext(AtLine(at, at, Other), s, from);
            next == LfFrom(s, from) + 1 && line == Some(LineAt(read, from, LfFrom(s, from), at))
  {
  }

  lemma ResidualUnfolds(p: Parser, s: bytes, from: nat, next: nat, f: FragmentInfo)
    requires from <= |s|
    requires ParseNext(p, s, from).0 == next && ParseNext(p, s, from).2 == Some(f)
    ensures Residual(Some(p), s, from) == [f] + Residual(After(f), s, next)
  {
  }

  lemma {:induction false} ResidualIsSplit(read: Reader, s: bytes, from: nat, at: nat, pending: Option<nat>)
    requires from <= |s|
    requires ReadsLikeAutomaton(read, s)
    ensures Same(Residual(Some(Fresh(at, pending)), s, from), Split(read, s, from, at, pending))
    decreases |s| - from, if pending.Some? then 2 else 1, 0
  {
    match pending
    case Some(length) =>
      if length <= |s| - from {
        LiteralResidualIsSplit(read, s, from, at, length);
      }
    case None =>
      if LfFrom(s, from) < |s| {
        LineResidualIsSplit(read, s, from, at);
      }
  }

  lemma {:induction false} LiteralResidualIsSplit(read: Reader, s: bytes, from: nat, at: nat, length: nat)
    requires from + length <= |s|
    requires ReadsLikeAutomaton(read, s)
    ensures Same(Residual(Some(AtLiteral(at, at, length)), s, from), Split(read, s, from, at, Some(length)))
    decreases |s| - from, 1, 1
  {
    var f := Literal(at, at + length);
    ResidualUnfolds(AtLiteral(at, at, length), s, from, from + length, f);
    ResidualIsSplit(read, s, from + length, f.end, None);
    assert After(f) == Some(Fresh(f.end, None));
  }

  lemma {:induction false} LineResidualIsSplit(read: Reader, s: bytes, from: nat, at: nat)
    requires from <= |s| && LfFrom(s, from) < |s|
    requires ReadsLikeAutomaton(read, s)
    ensures Same(Residual(Some(AtLine(at, at, Other)), s, from), Split(read, s, from, at, None))
    decreases |s| - from, 0, 0
  {
    var k := LfFrom(s, from);
    var line := LineAt(read, from, k, at);
    ParsesReadLine(read, s, from, at);
    ResidualUnfolds(AtLine(at, at, Other), s, from, k + 1, line);
    match line.announcement
    case None =>
      ResidualIsSplit(read, s, k + 1, 0, None);
      assert Residual(None, s, k + 1) == Residual(Some(START), s, k + 1);
    case Some(x) =>
      ResidualIsSplit(read, s, k + 1, line.end, Some(x.length));
  }

  /** A parser at the start of a message finds exactly the declared fragments. */
  lemma ResidualIsFragmentsOf(s: bytes)
    ensures Residual(Some(START), s, 0) == FragmentsOf(s)
  {
    DeclaredReadsLikeAutomaton(s);
    ResidualIsSplit(Declared(s), s, 0, 0, None);
  }

  // ----- Stopping and resuming -----

  lemma ParseNextExtends(p: Parser, s: bytes, q: bytes, from: nat)
    requires from <= |s|
    ensures var (next, left, fragment) := ParseNext(p, s, from);
            ParseNext(p, s + q, from) ==
            if fragment.Some? then (next, left, fragment) else ParseNext(left, s + q, |s|)
  {
    if p.AtLine? {
      LfFromExtends(s, q, from);
      LfFromExtends(s, q, |s|);
      var k, m := LfFrom(s, from), LfFrom(s + q, from);
      RunOverShifts(p.latest, [], s, q, from, k);
      assert [] + s + q == s + q;
      if k == |s| {
        RunOverSplits(p.latest, s + q, from, k, m);
      }
    }
  }

  /** Parsing may stop after any byte and resume: nothing is lost, reordered or re-read. */
  lemma {:induction false} ResidualConcat(p: Option<Parser>, s: bytes, q: bytes, from: nat)
    requires from <= |s|
    ensures Residual(p, s + q, from)
         == Residual(p, s, from) + Residual(Some(Drained(p, s, from)), s + q, |s|)
    ensures Drained(p, s + q, from) == Drained(Some(Drained(p, s, from)), s + q, |s|)
    decreases |s| - from, Rank(p)
  {
    match p
    case None => ResidualConcat(Some(START), s, q, from);
    case Some(parser) =>
      ParseNextExtends(parser, s, q, from);
      var (next, left, fragment) := ParseNext(parser, s, from);
      if fragment.Some? {
        ResidualConcat(After(fragment.value), s, q, next);
      }
  }

  lemma ParseNextShifts(p: Parser, a: bytes, s: bytes, from: nat)
    requires from <= |s|
    ensures var (next, left, fragment) := ParseNext(p, s, from);
            ParseNext(p, a + s, |a| + from) == (|a| + next, left, fragment)
  {
    if p.AtLine? {
      LfFromShifted(a, s, from);
      var k := LfFrom(s, from);
      RunOverShifts(p.latest, a, s, [], from, k);
      assert a + s + [] == a + s;
    }
  }

  /** What was read before does not matter once the parser is known. */
  lemma {:induction false} ResidualShifts(p: Option<Parser>, a: bytes, s: bytes, from: nat)
    requires from <= |s|
    ensures Residual(p, a + s, |a| + from) == Residual(p, s, from)
    ensures Drained(p, a + s, |a| + from) == Drained(p, s, from)
    decreases |s| - from, Rank(p)
  {
    match p
    case None => ResidualShifts(Some(START), a, s, from);
    case Some(parser) =>
      ParseNextShifts(parser, a, s, from);
      var (next, left, fragment) := ParseNext(parser, s, from);
      if fragment.Some? {
        ResidualShifts(After(fragment.value), a, s, next);
      }
  }

  // ----- The shape of a fragment sequence -----

  /** A fragment that may come at an offset of a message, after an announcement or not. */
  predicate Opens(f: FragmentInfo, at: nat, pending: Option<nat>) {
    match (f, pending)
    case (Literal(start, end), Some(length)) => start == at && end == at + length
    case (Line(start, end, a, _), None) =>
      start == at < end && (a.Some? ==> a.value.length <= U32_MAX)
    case _ => false
  }

  /** Fragments of one message start at 0, touch each other, alternate between lines and
      literals, each literal is as long as announced, and a line that announces nothing ends
      the message. */
  predicate Succeeds(f: FragmentInfo, previous: FragmentInfo) {
    match previous
    case Line(_, _, None, _) => Opens(f, 0, None)
    case Line(_, end, Some(a), _) => Opens(f, end, Some(a.length))
    case Literal(_, end) => Opens(f, end, None)
  }

  ghost predicate Tiled(fs: seq<FragmentInfo>, at: nat, pending: Option<nat>) {
    && (fs != [] ==> Opens(fs[0], at, pending))
    && (forall k | 1 <= k < |fs| :: Succeeds(fs[k], fs[k - 1]))
  }

  lemma TiledCons(f: FragmentInfo, fs: seq<FragmentInfo>, at: nat, pending: Option<nat>)
    requires Opens(f, at, pending)
    requires Tiled(fs, if f.Line? && f.announcement.None? then 0 else f.end,
                   if f.Line? && f.announcement.Some? then Some(f.announcement.value.length) else None)
    ensures Tiled([f] + fs, at, pending)
  {
    var all := [f] + fs;
    forall k | 1 <= k < |all|
      ensures Succeeds(all[k], all[k - 1])
    {
      assert all[k] == fs[k - 1] && (k > 1 ==> all[k - 1] == fs[k - 2]);
    }
  }

  ghost predicate FitsU32(read: Reader) {
    forall f: nat, t: nat ::
      read(f, t).announcement.Some? ==> read(f, t).announcement.value.length <= U32_MAX
  }

  lemma {:induction false} SplitIsTiled(read: Reader, s: bytes, from: nat, at: nat, pending: Option<nat>)
    requires from <= |s|
    requires FitsU32(read)
    ensures Tiled(Split(read, s, from, at, pending), at, pending)
    decreases |s| - from, if pending.Some? then 3 else 1
  {
    match pending
    case Some(length) =>
      if length <= |s| - from {
        LiteralSplitIsTiled(read, s, from, at, length);
      }
    case None =>
      if LfFrom(s, from) < |s| {
        LineSplitIsTiled(read, s, from, at);
      }
  }

  lemma {:induction false} LiteralSplitIsTiled(read: Reader, s: bytes, from: nat, at: nat, length: nat)
    requires from <= |s| && length <= |s| - from
    requires FitsU32(read)
    ensures Tiled(Split(read, s, from, at, Some(length)), at, Some(length))
    decreases |s| - from, 2
  {
    var later := Split(read, s, from + length, at + length, None);
    SplitIsTiled(read, s, from + length, at + length, None);
    TiledCons(Literal(at, at + length), later, at, Some(length));
  }

  lemma {:induction false} LineSplitIsTiled(read: Reader, s: bytes, from: nat, at: nat)
    requires from <= |s| && LfFrom(s, from) < |s|
    requires FitsU32(read)
    ensures Tiled(Split(read, s, from, at, None), at, None)
    decreases |s| - from, 0
  {
    var k := LfFrom(s, from);
    var line := LineAt(read, from, k, at);
    assert read(from, k).announcement == line.announcement;
    match line.announcement
    case None =>
      SplitIsTiled(read, s, k + 1, 0, None);
      TiledCons(line, Split(read, s, k + 1, 0, None), at, None);
    case Some(x) =>
      SplitIsTiled(read, s, k + 1, line.end, Some(x.length));
      TiledCons(line, Split(read, s, k + 1, line.end, Some(x.length)), at, None);
  }

  lemma FragmentsAreTiled(s: bytes)
    ensures Tiled(FragmentsOf(s), 0, None)
  {
    SplitIsTiled(Declared(s), s, 0, 0, None);
  }

  function Width(f: FragmentInfo): int {
    f.end - f.start
  }

  function TotalWidth(fs: seq<FragmentInfo>): int {
    if fs == [] then 0 else Width(fs[0]) + TotalWidth(fs[1..])
  }

  /** Conservation: every byte is in a fragment or still with the parser. */
  lemma {:induction false} EveryByteIsAccountedFor(p: Option<Parser>, s: bytes, from: nat)
    requires from <= |s|
    ensures var held := if p.Some? then p.value.end - p.value.start else 0;
            var left := Drained(p, s, from);
            held + |s| - from == TotalWidth(Residual(p, s, from)) + (left.end - left.start)
    decreases |s| - from, Rank(p)
  {
    match p
    case None => EveryByteIsAccountedFor(Some(START), s, from);
    case Some(parser) =>
      var (next, left, fragment) := ParseNext(parser, s, from);
      if fragment.Some? {
        EveryByteIsAccountedFor(After(fragment.value), s, next);
      }
  }

  lemma TotalWidthCons(f: FragmentInfo, fs: seq<FragmentInfo>, k: nat)
    requires 0 < k <= |fs| + 1
    ensures TotalWidth(([f] + fs)[..k]) == Width(f) + TotalWidth(fs[..k - 1])
  {
    var all := ([f] + fs)[..k];
    assert all[0] == f && all[1..] == fs[..k - 1];
  }

  /** The bytes between two indices are a line: they end in a line feed and contain no other. */
  predicate IsLine(s: bytes, from: int, upto: int) {
    && 0 <= from < upto <= |s| && s[upto - 1] == LF
    && forall j | from <= j < upto - 1 :: s[j] != LF
  }

  /** If fragment `k` of a split is a line, then its bytes are. */
  ghost predicate EndsItsLine(s: bytes, from: nat, fs: seq<FragmentInfo>, k: nat)
    requires k < |fs|
  {
    var start := from + TotalWidth(fs[..k]);
    fs[k].Line? ==> IsLine(s, start, start + Width(fs[k]))
  }

  lemma EndsLater(s: bytes, from: nat, next: nat, f: FragmentInfo, fs: seq<FragmentInfo>, k: nat)
    requires 0 < k < |fs| + 1 && next == from + Width(f)
    requires EndsItsLine(s, next, fs, k - 1)
    ensures EndsItsLine(s, from, [f] + fs, k)
  {
    TotalWidthCons(f, fs, k);
  }

  lemma EndsFirst(read: Reader, s: bytes, from: nat, at: nat, fs: seq<FragmentInfo>)
    requires from <= |s| && LfFrom(s, from) < |s|
    requires fs != [] && fs[0] == LineAt(read, from, LfFrom(s, from), at)
    ensures EndsItsLine(s, from, fs, 0)
  {
    LfFromMeaning(s, from);
    assert fs[..0] == [];
  }

  lemma {:induction false} SplitEndsLines(
      read: Reader, s: bytes, from: nat, at: nat, pending: Option<nat>, k: nat)
    requires from <= |s|
    requires k < |Split(read, s, from, at, pending)|
    ensures EndsItsLine(s, from, Split(read, s, from, at, pending), k)
    decreases k, 1
  {
    match pending
    case Some(length) =>
      if k > 0 {
        var f := Literal(at, at + length);
        BehindEndsLines(read, s, from, Split(read, s, from, at, pending), f, from + length, f.end, None, k);
      }
    case None =>
      LineSplitEndsLines(read, s, from, at, k);
  }

  lemma {:induction false} LineSplitEndsLines(read: Reader, s: bytes, from: nat, at: nat, k: nat)
    requires from <= |s| && LfFrom(s, from) < |s|
    requires k < |Split(read, s, from, at, None)|
    ensures EndsItsLine(s, from, Split(read, s, from, at, None), k)
    decreases k, 0
  {
    var lf, fs := LfFrom(s, from), Split(read, s, from, at, None);
    var line := LineAt(read, from, lf, at);
    if k == 0 {
      EndsFirst(read, s, from, at, fs);
    } else {
      match line.announcement
      case None =>
        BehindEndsLines(read, s, from, fs, line, lf + 1, 0, None, k);
      case Some(x) =>
        BehindEndsLines(read, s, from, fs, line, lf + 1, line.end, Some(x.length), k);
    }
  }

  lemma {:induction false} BehindEndsLines(
      read: Reader, s: bytes, from: nat, fs: seq<FragmentInfo>, f: FragmentInfo, next: nat, at: nat,
      pending: Option<nat>, k: nat)
    requires next == from + Width(f) <= |s|
    requires Same(fs, [f] + Split(read, s, next, at, pending))
    requires 0 < k < |fs|
    ensures EndsItsLine(s, from, fs, k)
    decreases k - 1, 2
  {
    SplitEndsLines(read, s, next, at, pending, k - 1);
    EndsLater(s, from, next, f, Split(read, s, next, at, pending), k);
  }

  /** Every declared line reaches from the end of the fragment before it to the next line feed
      of the stream, and no further. */
  lemma LinesEndAtLf(s: bytes, k: nat)
    requires k < |FragmentsOf(s)| && FragmentsOf(s)[k].Line?
    ensures var fs := FragmentsOf(s);
            IsLine(s, TotalWidth(fs[..k]), TotalWidth(fs[..k]) + Width(fs[k]))
  {
    var fs := FragmentsOf(s);
    SplitEndsLines(Declared(s), s, 0, 0, None, k);
    assert EndsItsLine(s, 0, fs, k);
  }
}
