/** The encoder and the Fragmentizer agree on where the fragments of a message are. */
module Agreement {
  import opened Octets
  import opened Announcements
  import opened Fragments
  import opened Contexts

  /** What a Fragmentizer that follows the encoder would report as fragment `k`. */
  function InfoAt(items: seq<Fragment>, k: nat): FragmentInfo
    requires k < |items|
  {
    var start := |DataOf(items[..k])|;
    var end := start + |items[k].data|;
    match items[k]
    case LiteralFragment(_, _) => Literal(start, end)
    case LineFragment(_) =>
      Line(start, end,
        if k + 1 < |items| && items[k + 1].LiteralFragment? then
          Some(LiteralAnnouncement(items[k + 1].mode, |items[k + 1].data|))
        else None,
        CrLf)
  }

  function Infos(items: seq<Fragment>): (fs: seq<FragmentInfo>)
    ensures |fs| == |items|
  {
    seq(|items|, k requires 0 <= k < |items| => InfoAt(items, k))
  }

  // ----- One line -----

  lemma {:induction false} LfFound(s: bytes, from: nat, k: nat)
    requires from <= k < |s| && s[k] == LF
    requires forall j | from <= j < k :: s[j] != LF
    ensures LfFrom(s, from) == k
    decreases k - from
  {
    if from < k {
      LfFound(s, from + 1, k);
    }
  }

  /** A parser at the start of a line reads it up to its line feed. */
  lemma LineIsParsed(n: nat, text: bytes, s: bytes)
    requires |text| < |s| && s[..|text|] == text && s[|text|] == LF
    requires forall k | 0 <= k < |text| :: text[k] != LF
    ensures var seen, upto := Run(Other, text), n + |text| + 1;
            ParseNext(AtLine(n, n, Other), s, 0)
              == (|text| + 1, AtLine(n, upto, Other), Some(Line(n, upto, AnnouncementAt(seen), EndingAt(seen))))
  {
    forall j | 0 <= j < |text| ensures s[j] != LF {
      assert s[j] == s[..|text|][j];
    }
    LfFound(s, 0, |text|);
    RunOverIsRun(Other, s, 0, |text|);
    assert s[0..|text|] == s[..|text|];
  }

  lemma AnnouncementHasNoLf(digits: bytes, mode: LiteralMode)
    requires All(IsDigit, digits)
    ensures var t := [LBRACE] + digits + AnnouncementTail(mode) + [CR];
            forall k | 0 <= k < |t| :: t[k] != LF
  {
    assert forall k | 0 <= k < |digits| :: IsDigit(digits[k]);
  }

  /** The line that leads to a literal, without its line feed. */
  function LeadText(text: bytes, l: Fragment): bytes
    requires l.LiteralFragment?
  {
    text + ([LBRACE] + ShowNat(|l.data|) + AnnouncementTail(l.mode) + [CR])
  }

  lemma LeadIsText(text: bytes, l: Fragment)
    requires l.LiteralFragment?
    ensures text + Announcer(l) == LeadText(text, l) + [LF]
    ensures StripCr(LeadText(text, l)) == text + [LBRACE] + ShowNat(|l.data|) + AnnouncementTail(l.mode)
    ensures EndsWithCr(LeadText(text, l))
  {
    var whole := text + [LBRACE] + ShowNat(|l.data|) + AnnouncementTail(l.mode);
    assert LeadText(text, l) == whole + [CR];
    assert StripCr(whole + [CR]) == whole;
  }

  lemma LeadHasNoLf(text: bytes, l: Fragment)
    requires l.LiteralFragment? && Neutral(text)
    ensures forall k | 0 <= k < |LeadText(text, l)| :: LeadText(text, l)[k] != LF
  {
    ShowNatReads(|l.data|);
    LfFreeMeaning(text);
    AnnouncementHasNoLf(ShowNat(|l.data|), l.mode);
  }

  lemma SuffixOf(text: bytes, digits: bytes, mode: LiteralMode)
    ensures HasSuffix(text + [LBRACE] + digits + AnnouncementTail(mode), [LBRACE] + digits + AnnouncementTail(mode))
  {
    assert text + [LBRACE] + digits + AnnouncementTail(mode) == text + ([LBRACE] + digits + AnnouncementTail(mode));
  }

  /** An announcement is recognized exactly when its length fits 32 bits. */
  lemma LeadIsRecognized(text: bytes, l: Fragment)
    requires l.LiteralFragment?
    ensures var seen := Run(Other, LeadText(text, l));
            && EndingAt(seen) == CrLf
            && AnnouncementAt(seen)
               == if |l.data| <= U32_MAX then Some(LiteralAnnouncement(l.mode, |l.data|)) else None
  {
    var digits := ShowNat(|l.data|);
    var announced := text + [LBRACE] + digits + AnnouncementTail(l.mode);
    ShowNatReads(|l.data|);
    LeadIsText(text, l);
    LineVerdict(LeadText(text, l));
    LineMeaning(LeadText(text, l), LiteralAnnouncement(l.mode, |l.data|));
    if |l.data| <= U32_MAX {
      RunAnnouncement(text, digits, l.mode);
      ClosingBracketMeaning(announced, LiteralAnnouncement(l.mode, |l.data|));
    } else {
      var seen := AnnouncementAt(Run(Other, LeadText(text, l)));
      if seen.Some? {
        LineMeaning(LeadText(text, l), seen.value);
        SuffixOf(text, digits, l.mode);
        SuffixEndsAt(announced, digits, l.mode);
        AnnouncedNumber(announced, digits, l.mode,
          |announced| - 1 - |digits| - |AnnouncementTail(l.mode)|, seen.value);
      }
    }
  }

  /** `whole` ends in an opening brace at `p`, digits, and a tail. */
  ghost predicate EndsAt(whole: bytes, digits: bytes, mode: LiteralMode, p: int) {
    && 0 <= p
    && All(IsDigit, digits)
    && |whole| == p + 1 + |digits| + |AnnouncementTail(mode)|
    && whole[p] == LBRACE
    && (forall j | 0 <= j < |digits| :: whole[p + 1 + j] == digits[j])
    && (forall j | 0 <= j < |AnnouncementTail(mode)| :: whole[p + 1 + |digits| + j] == AnnouncementTail(mode)[j])
  }

  lemma SuffixEndsAt(whole: bytes, digits: bytes, mode: LiteralMode)
    requires All(IsDigit, digits)
    requires HasSuffix(whole, [LBRACE] + digits + AnnouncementTail(mode))
    ensures EndsAt(whole, digits, mode, |whole| - 1 - |digits| - |AnnouncementTail(mode)|)
  {
    var suffix := [LBRACE] + digits + AnnouncementTail(mode);
    var p := |whole| - |suffix|;
    forall j | 0 <= j < |suffix| ensures whole[p + j] == suffix[j] {
      assert whole[p..][j] == whole[p + j];
    }
    assert whole[p + 0] == suffix[0];
    forall j | 0 <= j < |digits| ensures whole[p + 1 + j] == digits[j] {
      assert whole[p + (1 + j)] == suffix[1 + j];
    }
    forall j | 0 <= j < |AnnouncementTail(mode)|
      ensures whole[p + 1 + |digits| + j] == AnnouncementTail(mode)[j]
    {
      assert whole[p + (1 + |digits| + j)] == suffix[1 + |digits| + j];
    }
  }

  /** Behind the brace stands none. */
  lemma BraceOnlyAt(whole: bytes, digits: bytes, mode: LiteralMode, p: int)
    requires EndsAt(whole, digits, mode, p)
    ensures forall j | p < j < |whole| :: whole[j] != LBRACE
  {
    forall j | p < j < |whole| ensures whole[j] != LBRACE {
      if j - p - 1 < |digits| {
        assert whole[p + 1 + (j - p - 1)] == digits[j - p - 1];
      } else {
        assert whole[p + 1 + |digits| + (j - p - 1 - |digits|)] == AnnouncementTail(mode)[j - p - 1 - |digits|];
      }
    }
  }

  lemma TailIsNoDigit(whole: bytes, digits: bytes, mode: LiteralMode, p: int)
    requires EndsAt(whole, digits, mode, p)
    ensures !IsDigit(whole[p + 1 + |digits|])
  {
    assert whole[p + 1 + |digits| + 0] == AnnouncementTail(mode)[0];
  }

  lemma NextIsDigit(whole: bytes, digits: bytes, mode: LiteralMode, p: int, j: nat)
    requires EndsAt(whole, digits, mode, p) && j < |digits|
    ensures IsDigit(whole[p + 1 + j])
  {
    assert whole[p + 1 + j] == digits[j];
  }

  /** The digits of one reading end where those of another do. */
  lemma DigitsReach(whole: bytes, digits: bytes, mode: LiteralMode, found: bytes, other: LiteralMode, p: int)
    requires EndsAt(whole, digits, mode, p) && EndsAt(whole, found, other, p)
    ensures |found| <= |digits|
  {
    TailIsNoDigit(whole, digits, mode, p);
    if |digits| < |found| {
      NextIsDigit(whole, found, other, p, |digits|);
    }
  }

  lemma SameDigits(whole: bytes, digits: bytes, mode: LiteralMode, p: int, found: bytes, other: LiteralMode, q: int)
    requires EndsAt(whole, digits, mode, p) && EndsAt(whole, found, other, q)
    ensures digits == found
  {
    BraceOnlyAt(whole, digits, mode, p);
    BraceOnlyAt(whole, found, other, q);
    assert p == q;
    DigitsReach(whole, digits, mode, found, other, p);
    DigitsReach(whole, found, other, digits, mode, p);
  }

  lemma AnnouncedDigits(whole: bytes, a: LiteralAnnouncement) returns (found: bytes, q: int)
    requires Announces(whole, a)
    ensures EndsAt(whole, found, a.mode, q)
    ensures DecimalValue(found) == a.length <= U32_MAX
  {
    found :| EndsInNumber(whole, found, AnnouncementTail(a.mode)) && DecimalValue(found) == a.length;
    SuffixEndsAt(whole, found, a.mode);
    q := |whole| - 1 - |found| - |AnnouncementTail(a.mode)|;
  }

  /** What a text that ends in an announcement announces is the number that stands there. */
  lemma AnnouncedNumber(whole: bytes, digits: bytes, mode: LiteralMode, p: int, a: LiteralAnnouncement)
    requires EndsAt(whole, digits, mode, p)
    requires Announces(whole, a)
    ensures DecimalValue(digits) == a.length <= U32_MAX
  {
    var found, q := AnnouncedDigits(whole, a);
    SameDigits(whole, digits, mode, p, found, a.mode, q);
  }

  // ----- A line with its literal -----

  function LeadInfo(n: nat, length: nat, l: Fragment): FragmentInfo
    requires l.LiteralFragment?
  {
    Line(n, n + length, if |l.data| <= U32_MAX then Some(LiteralAnnouncement(l.mode, |l.data|)) else None, CrLf)
  }

  lemma PrefixOfPrefix(s: bytes, line: bytes, lead: bytes)
    requires |line| <= |s| && s[..|line|] == line
    requires line == lead + [LF]
    ensures s[..|lead|] == lead && s[|lead|] == LF
  {
    assert s[|lead|] == s[..|line|][|lead|];
    assert s[..|lead|] == s[..|line|][..|lead|];
  }

  /** At the end of the input there is nothing to find. */
  lemma NothingLeft(n: nat, s: bytes)
    ensures Residual(Some(AtLine(n, n, Other)), s, |s|) == []
    ensures Drained(Some(AtLine(n, n, Other)), s, |s|) == AtLine(n, n, Other)
  {
    assert LfFrom(s, |s|) == |s|;
    assert RunOver(Other, s, |s|, |s|) == Other;
    assert ParseNext(AtLine(n, n, Other), s, |s|) == (|s|, AtLine(n, n, Other), None);
  }

  /** `lead` is a line without its line feed that announces the literal if it can be announced. */
  ghost predicate IsLead(lead: bytes, line: Fragment, l: Fragment)
    requires l.LiteralFragment?
  {
    && line.data == lead + [LF]
    && (forall k | 0 <= k < |lead| :: lead[k] != LF)
    && EndingAt(Run(Other, lead)) == CrLf
    && AnnouncementAt(Run(Other, lead))
       == if |l.data| <= U32_MAX then Some(LiteralAnnouncement(l.mode, |l.data|)) else None
  }

  lemma LeadOf(line: Fragment, l: Fragment) returns (lead: bytes)
    requires Leads(line, l)
    ensures IsLead(lead, line, l)
  {
    var text :| line.data == text + Announcer(l) && Neutral(text);
    lead := LeadText(text, l);
    LeadIsText(text, l);
    LeadHasNoLf(text, l);
    LeadIsRecognized(text, l);
  }

  lemma LeadIsParsed(n: nat, line: Fragment, l: Fragment, s: bytes)
    requires Leads(line, l)
    requires |line.data| <= |s| && s[..|line.data|] == line.data
    ensures var (next, _, f) := ParseNext(AtLine(n, n, Other), s, 0);
            next == |line.data| && f == Some(LeadInfo(n, |line.data|, l))
  {
    var lead := LeadOf(line, l);
    PrefixOfPrefix(s, line.data, lead);
    LineIsParsed(n, lead, s);
  }

  lemma LiteralIsParsed(n: nat, length: nat, s: bytes, from: nat)
    requires from + length == |s|
    ensures Residual(Some(AtLiteral(n, n, length)), s, from) == [Literal(n, n + length)]
    ensures Drained(Some(AtLiteral(n, n, length)), s, from) == AtLine(n + length, n + length, Other)
  {
    var f, next := Literal(n, n + length), AtLine(n + length, n + length, Other);
    ResidualUnfolds(AtLiteral(n, n, length), s, from, |s|, f);
    NothingLeft(n + length, s);
  }

  lemma PairIsParsed(n: nat, line: Fragment, l: Fragment)
    requires Leads(line, l) && |l.data| <= U32_MAX
    ensures var s, m := line.data + l.data, n + |line.data|;
            && Residual(Some(AtLine(n, n, Other)), s, 0) == [LeadInfo(n, |line.data|, l), Literal(m, m + |l.data|)]
            && Drained(Some(AtLine(n, n, Other)), s, 0) == AtLine(m + |l.data|, m + |l.data|, Other)
  {
    var s, m := line.data + l.data, n + |line.data|;
    LeadIsParsed(n, line, l, s);
    ResidualUnfolds(AtLine(n, n, Other), s, 0, |line.data|, LeadInfo(n, |line.data|, l));
    LiteralIsParsed(m, |l.data|, s, |line.data|);
  }

  // ----- All lines and literals -----

  lemma InfoAtPrefix(items: seq<Fragment>, more: seq<Fragment>, k: nat)
    requires k < |items|
    requires k + 1 < |items| || items[k].LiteralFragment?
    ensures InfoAt(items + more, k) == InfoAt(items, k)
  {
    assert (items + more)[..k] == items[..k];
  }

  lemma InfosPrefix(items: seq<Fragment>, more: seq<Fragment>)
    requires Paired(items)
    ensures Infos(items + more)[..|items|] == Infos(items)
  {
    LastIsLiteral(items);
    forall k | 0 <= k < |items| ensures InfoAt(items + more, k) == InfoAt(items, k) {
      InfoAtPrefix(items, more, k);
    }
  }

  lemma InfoOfPair(items: seq<Fragment>, line: Fragment, l: Fragment)
    requires line.LineFragment? && l.LiteralFragment?
    requires |l.data| <= U32_MAX
    ensures var all, n, m := items + [line, l], |DataOf(items)|, |DataOf(items)| + |line.data|;
            && InfoAt(all, |items|) == LeadInfo(n, |line.data|, l)
            && InfoAt(all, |items| + 1) == Literal(m, m + |l.data|)
  {
    var all := items + [line, l];
    assert all[..|items|] == items;
    assert all[..|items| + 1] == items + [line];
    DataOfAppend(items, line);
  }

  lemma InfosAppend(items: seq<Fragment>, line: Fragment, l: Fragment)
    requires Paired(items) && Leads(line, l)
    requires |l.data| <= U32_MAX
    ensures var n, m := |DataOf(items)|, |DataOf(items)| + |line.data|;
            Infos(items + [line, l]) == Infos(items) + [LeadInfo(n, |line.data|, l), Literal(m, m + |l.data|)]
  {
    var all := Infos(items + [line, l]);
    InfosPrefix(items, [line, l]);
    InfoOfPair(items, line, l);
    LastTwo(all, |items|);
  }

  lemma LastTwo<T>(a: seq<T>, n: nat)
    requires |a| == n + 2
    ensures a == a[..n] + [a[n], a[n + 1]]
  {
  }

  lemma LastIsLiteral(items: seq<Fragment>)
    requires Paired(items)
    ensures items != [] ==> items[|items| - 1].LiteralFragment?
  {
  }

  /** What is found behind `s` is found by the parser that `s` leaves behind. */
  lemma Behind(s: bytes, q: bytes, left: Parser)
    requires Drained(Some(START), s, 0) == left
    ensures Residual(Some(START), s + q, 0) == Residual(Some(START), s, 0) + Residual(Some(left), q, 0)
    ensures Drained(Some(START), s + q, 0) == Drained(Some(left), q, 0)
  {
    ResidualConcat(Some(START), s, q, 0);
    ResidualShifts(Some(left), s, q, 0);
  }

  /** Every fragment so far is found, and the parser stands at the start of a line. */
  ghost predicate Follows(items: seq<Fragment>, s: bytes) {
    && Residual(Some(START), s, 0) == Infos(items)
    && Drained(Some(START), s, 0) == AtLine(|s|, |s|, Other)
  }

  lemma FollowsPair(items: seq<Fragment>, line: Fragment, l: Fragment)
    requires Paired(items) && Leads(line, l) && |l.data| <= U32_MAX
    requires Follows(items, DataOf(items))
    ensures Follows(items + [line, l], DataOf(items) + (line.data + l.data))
  {
    var s := DataOf(items);
    InfosAppend(items, line, l);
    PairIsParsed(|s|, line, l);
    FollowsBehind(items, items + [line, l], s, line.data + l.data);
  }

  lemma FollowsBehind(items: seq<Fragment>, all: seq<Fragment>, s: bytes, q: bytes)
    requires Follows(items, s)
    requires Infos(all) == Infos(items) + Residual(Some(AtLine(|s|, |s|, Other)), q, 0)
    requires Drained(Some(AtLine(|s|, |s|, Other)), q, 0) == AtLine(|s| + |q|, |s| + |q|, Other)
    ensures Follows(all, s + q)
  {
    Behind(s, q, AtLine(|s|, |s|, Other));
  }

  lemma Unpair(items: seq<Fragment>) returns (before: seq<Fragment>, line: Fragment, l: Fragment)
    requires Paired(items) && items != []
    ensures items == before + [line, l] && Paired(before) && Leads(line, l)
    ensures DataOf(items) == DataOf(before) + (line.data + l.data)
    ensures Announceable(items) <==> Announceable(before) && |l.data| <= U32_MAX
  {
    before, line, l := items[..|items| - 2], items[|items| - 2], items[|items| - 1];
    LastTwo(items, |before|);
    JoinPair(items, before, line, l);
  }

  lemma JoinPair(items: seq<Fragment>, before: seq<Fragment>, line: Fragment, l: Fragment)
    requires items == before + [line, l]
    requires Paired(before) && Leads(line, l)
    ensures DataOf(items) == DataOf(before) + (line.data + l.data)
    ensures Announceable(items) <==> Announceable(before) && |l.data| <= U32_MAX
  {
    PairedAppend(before, line, l);
    Associate(DataOf(before), line.data, l.data);
  }

  /** As long as every literal can be announced, the Fragmentizer reports what the encoder cut. */
  lemma {:induction false} InStep(items: seq<Fragment>)
    requires Paired(items) && Announceable(items)
    ensures Follows(items, DataOf(items))
    decreases |items|
  {
    if items == [] {
      NothingLeft(0, DataOf(items));
    } else {
      var before, line, l := Unpair(items);
      InStep(before);
      FollowsPair(before, line, l);
    }
  }

  /** The Fragmentizer finds a line that announces nothing where the encoder has a literal. */
  ghost predicate Misses(items: seq<Fragment>, s: bytes, k: nat) {
    && k + 1 < |items| && items[k].LineFragment? && items[k + 1].LiteralFragment?
    && k < |Residual(Some(START), s, 0)|
    && Residual(Some(START), s, 0)[k].Line? && Residual(Some(START), s, 0)[k].announcement == None
  }

  lemma MissesHere(items: seq<Fragment>, line: Fragment, l: Fragment, q: bytes)
    requires Paired(items) && Announceable(items)
    requires Leads(line, l) && |l.data| > U32_MAX
    ensures Misses(items + [line, l], DataOf(items) + (line.data + (l.data + q)), |items|)
  {
    var s, q' := DataOf(items), line.data + (l.data + q);
    var p := AtLine(|s|, |s|, Other);
    InStep(items);
    Behind(s, q', p);
    LeadIsParsed(|s|, line, l, q');
    ResidualUnfolds(p, q', 0, |line.data|, LeadInfo(|s|, |line.data|, l));
  }

  lemma Regroup(a: bytes, b: bytes, c: bytes, d: bytes)
    ensures (a + (b + c)) + d == a + (b + (c + d))
  {
  }

  /** At the first literal that cannot be announced, the Fragmentizer sees the message end. */
  lemma {:induction false} Diverges(items: seq<Fragment>, q: bytes) returns (k: nat)
    requires Paired(items) && !Announceable(items)
    ensures Misses(items, DataOf(items) + q, k)
    decreases |items|
  {
    var before, line, l := Unpair(items);
    Regroup(DataOf(before), line.data, l.data, q);
    if Announceable(before) {
      k := |before|;
      MissesHere(before, line, l, q);
    } else {
      k := Diverges(before, line.data + (l.data + q));
    }
  }

  // ----- A whole message -----

  /** The fragments of an encoding that ends in a line of neutral text. */
  function Finished(items: seq<Fragment>, text: bytes): seq<Fragment> {
    items + [LineFragment(text + [CR, LF])]
  }

  lemma LastLine(n: nat, line: bytes, s: bytes)
    requires |s| == |line| + 1 && s[..|line|] == line && s[|line|] == LF
    requires forall k | 0 <= k < |line| :: line[k] != LF
    requires Run(Other, line) == Cr(None)
    ensures Residual(Some(AtLine(n, n, Other)), s, 0) == [Line(n, n + |s|, None, CrLf)]
    ensures Drained(Some(AtLine(n, n, Other)), s, 0) == START
  {
    LineIsParsed(n, line, s);
    ResidualUnfolds(AtLine(n, n, Other), s, 0, |s|, Line(n, n + |s|, None, CrLf));
    NothingLeft(0, s);
    EndOfMessage(s);
  }

  lemma LastLineIsParsed(n: nat, text: bytes, s: bytes)
    requires Neutral(text) && s == text + [CR, LF]
    ensures Residual(Some(AtLine(n, n, Other)), s, 0) == [Line(n, n + |s|, None, CrLf)]
    ensures Drained(Some(AtLine(n, n, Other)), s, 0) == START
  {
    var line := text + [CR];
    RunStep(Other, text, CR);
    LfFreeMeaning(text);
    WithoutLf(text, line, s);
    LastLine(n, line, s);
  }

  lemma WithoutLf(text: bytes, line: bytes, s: bytes)
    requires line == text + [CR] && s == text + [CR, LF]
    requires forall k | 0 <= k < |text| :: text[k] != LF
    ensures |s| == |line| + 1 && s[..|line|] == line && s[|line|] == LF
    ensures forall k | 0 <= k < |line| :: line[k] != LF
  {
  }

  lemma EndOfMessage(s: bytes)
    requires Residual(Some(START), s, |s|) == [] && Drained(Some(START), s, |s|) == START
    ensures Residual(None, s, |s|) == [] && Drained(None, s, |s|) == START
  {
  }

  lemma InfosFinish(items: seq<Fragment>, text: bytes)
    requires Paired(items)
    ensures var n := |DataOf(items)|; Infos(Finished(items, text)) == Infos(items) + [Line(n, n + |text| + 2, None, CrLf)]
  {
    var all := Finished(items, text);
    InfosPrefix(items, [LineFragment(text + [CR, LF])]);
    assert all[..|items|] == items;
    assert Infos(all) == Infos(all)[..|items|] + [Infos(all)[|items|]];
  }

  lemma DataOfFinished(items: seq<Fragment>, text: bytes)
    ensures DataOf(Finished(items, text)) == DataOf(items) + (text + [CR, LF])
    ensures Announceable(Finished(items, text)) <==> Announceable(items)
  {
    var last := LineFragment(text + [CR, LF]);
    DataOfAppend(items, last);
    AnnounceableAppend(items, last);
  }

  /** A complete message: everything behind it is parsed as by a parser that starts anew. */
  lemma Agrees(items: seq<Fragment>, text: bytes, last: bytes, q: bytes)
    requires Paired(items) && Announceable(items) && Neutral(text)
    requires last == text + [CR, LF]
    ensures Residual(Some(START), DataOf(items) + last + q, 0)
         == Infos(Finished(items, text)) + Residual(Some(START), q, 0)
  {
    var s := DataOf(items);
    InStep(items);
    Behind(s, last, AtLine(|s|, |s|, Other));
    LastLineIsParsed(|s|, text, last);
    InfosFinish(items, text);
    Behind(s + last, q, START);
  }

  /** With a literal that cannot be announced, some fragment differs, whatever comes behind. */
  lemma Disagrees(items: seq<Fragment>, text: bytes, last: bytes, q: bytes) returns (k: nat)
    requires Paired(items) && !Announceable(items)
    requires last == text + [CR, LF]
    ensures var found := Residual(Some(START), DataOf(items) + last + q, 0);
            k < |items| && k < |found| && found[k] != InfoAt(Finished(items, text), k)
  {
    k := Diverges(items, last + q);
    assert DataOf(items) + last + q == DataOf(items) + (last + q);
    var all := Finished(items, text);
    assert all[k] == items[k] && all[k + 1] == items[k + 1];
  }

  /** Whatever comes behind a message, its bytes are split into the encoder's fragments if and only
      if all its literals can be announced, and then what comes behind is split as if it stood
      alone. */
  lemma MessageInStream(items: seq<Fragment>, text: bytes, q: bytes)
    requires Paired(items) && Neutral(text)
    ensures var all := Finished(items, text);
            && (Infos(all) <= FragmentsOf(DataOf(all) + q) <==> Announceable(all))
            && (Announceable(all) ==> FragmentsOf(DataOf(all) + q) == Infos(all) + FragmentsOf(q))
  {
    var all, last := Finished(items, text), text + [CR, LF];
    DataOfFinished(items, text);
    ResidualIsFragmentsOf(DataOf(all) + q);
    if Announceable(items) {
      ResidualIsFragmentsOf(q);
      Agrees(items, text, last, q);
    } else {
      var k := Disagrees(items, text, last, q);
      assert Infos(all)[k] == InfoAt(all, k);
    }
  }

  lemma NoFragments(q: bytes)
    requires |q| == 0
    ensures FragmentsOf(q) == []
  {
    ResidualIsFragmentsOf(q);
    NothingLeft(0, q);
  }

  lemma AloneInStream(s: bytes, q: bytes, fs: seq<FragmentInfo>)
    requires |q| == 0
    requires fs <= FragmentsOf(s + q) ==> FragmentsOf(s + q) == fs + FragmentsOf(q)
    ensures FragmentsOf(s) == fs <==> fs <= FragmentsOf(s + q)
  {
    NoFragments(q);
    assert s + q == s;
  }

  /** The Fragmentizer splits the dumped bytes of a message into exactly the fragments that the
      encoder made, with the same modes and lengths, if and only if the length of every literal
      fits 32 bits. */
  lemma EncoderAndFragmentizerAgree(items: seq<Fragment>, text: bytes)
    requires Paired(items) && Neutral(text)
    ensures var all := Finished(items, text); FragmentsOf(DataOf(all)) == Infos(all) <==> Announceable(all)
  {
    var all := Finished(items, text);
    MessageInStream(items, text, text[..0]);
    AloneInStream(DataOf(all), text[..0], Infos(all));
  }

  /** Every fragment but the last leaves the message open, and the last one completes it. */
  lemma OneMessage(items: seq<Fragment>, text: bytes)
    requires Paired(items)
    ensures var fs := Infos(Finished(items, text));
            && fs != [] && After(fs[|fs| - 1]) == None
            && forall k | 0 <= k < |fs| - 1 :: After(fs[k]).Some?
  {
    var all := Finished(items, text);
    forall k | 0 <= k < |items| ensures After(InfoAt(all, k)).Some? {
      Alternates(items, k);
    }
  }

  lemma {:induction false} Alternates(items: seq<Fragment>, k: nat)
    requires Paired(items) && k < |items|
    ensures items[k].LineFragment? ==> k + 1 < |items| && items[k + 1].LiteralFragment?
    decreases |items|
  {
    if k < |items| - 2 {
      Alternates(items[..|items| - 2], k);
    }
  }

  /** The bytes of a fragment stand behind those of the fragments before it. */
  lemma SameBytes(items: seq<Fragment>, k: nat)
    requires k < |items|
    ensures var n, data := |DataOf(items[..k])|, items[k].data;
            n + |data| <= |DataOf(items)| && DataOf(items)[n..n + |data|] == data
  {
    var before, after := items[..k], items[k + 1..];
    assert items == (before + [items[k]]) + after;
    DataOfConcat(before + [items[k]], after);
    DataOfAppend(before, items[k]);
    MiddlePart(DataOf(before), items[k].data, DataOf(after));
  }

  lemma MiddlePart(a: bytes, b: bytes, c: bytes)
    ensures ((a + b) + c)[|a|..|a| + |b|] == b
  {
  }
}
