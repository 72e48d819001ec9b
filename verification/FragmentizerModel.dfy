/** The Fragmentizer as a state machine on values, and what holds of all its runs. */
module FragmentizerModel {
  import opened Octets
  import opened Fragments

  datatype State = State(
    unparsed: bytes,
    maxMessageSize: Option<nat>,
    exceeded: bool,
    poisoned: bool,
    buffer: bytes,
    parser: Option<Parser>)

  function Initial(maxMessageSize: Option<nat>): State {
    State([], maxMessageSize, false, false, [], Some(START))
  }

  // ----- Operations -----

  function Enqueue(st: State, data: bytes): State {
    st.(unparsed := st.unparsed + data)
  }

  function Poison(st: State): State {
    st.(poisoned := true)
  }

  function Skip(st: State): State {
    st.(exceeded := false, poisoned := false, buffer := [], parser := Some(START))
  }

  /** A complete message is cleared away before the next one starts. */
  function Continue(st: State): (r: State)
    ensures r.parser.Some?
  {
    if st.parser.None? then Skip(st) else st
  }

  /** How many of `count` parsed bytes still fit the message buffer. */
  function Storable(st: State, count: nat): (kept: nat)
    requires WithinLimit(st)
    ensures kept <= count
  {
    match st.maxMessageSize
    case Some(size) => if size - |st.buffer| < count then size - |st.buffer| else count
    case None => count
  }

  /** Parsed bytes leave the unparsed buffer even if they are not stored. */
  function Dequeue(st: State, count: nat): (r: State)
    requires count <= |st.unparsed|
    requires WithinLimit(st)
    ensures WithinLimit(r)
  {
    var kept := Storable(st, count);
    st.(unparsed := st.unparsed[count..],
        buffer := st.buffer + st.unparsed[..kept],
        exceeded := st.exceeded || kept < count)
  }

  /** The remaining size never underflows. */
  predicate WithinLimit(st: State) {
    st.maxMessageSize.Some? ==> |st.buffer| <= st.maxMessageSize.value
  }

  function Progress(st: State): (r: (State, Option<FragmentInfo>))
    requires WithinLimit(st)
    ensures WithinLimit(r.0)
  {
    var current := Continue(st);
    var (count, left, fragment) := ParseNext(current.parser.value, current.unparsed, 0);
    var parser := if fragment.Some? then After(fragment.value) else Some(left);
    (Dequeue(current, count).(parser := parser), fragment)
  }

  // ----- Runs -----

  datatype Op = EnqueueOp(data: bytes) | ProgressOp | PoisonOp | SkipOp

  function Step(st: State, op: Op): (r: (State, seq<FragmentInfo>))
    requires WithinLimit(st)
    ensures WithinLimit(r.0)
  {
    match op
    case EnqueueOp(data) => (Enqueue(st, data), [])
    case PoisonOp => (Poison(st), [])
    case SkipOp => (Skip(st), [])
    case ProgressOp =>
      var (next, fragment) := Progress(st);
      (next, Listed(fragment))
  }

  /** The state after a sequence of calls, and the fragments they reported. */
  function Run(st: State, ops: seq<Op>): (r: (State, seq<FragmentInfo>))
    requires WithinLimit(st)
    ensures WithinLimit(r.0)
    decreases ops
  {
    if ops == [] then (st, [])
    else
      var (next, out) := Step(st, ops[0]);
      var (last, more) := Run(next, ops[1..]);
      (last, out + more)
  }

  function Enqueued(ops: seq<Op>): bytes {
    if ops == [] then []
    else Added(ops[0]) + Enqueued(ops[1..])
  }

  predicate SkipFree(ops: seq<Op>) {
    forall op | op in ops :: !op.SkipOp?
  }

  // ----- Chunking independence -----

  lemma DropParsed(p: Option<Parser>, u: bytes, q: bytes, count: nat)
    requires count <= |u|
    ensures Residual(p, u + q, count) == Residual(p, u[count..] + q, 0)
  {
    assert u[..count] + (u[count..] + q) == u + q;
    ResidualShifts(p, u[..count], u[count..] + q, 0);
  }

  function Listed(fragment: Option<FragmentInfo>): seq<FragmentInfo> {
    if fragment.Some? then [fragment.value] else []
  }

  lemma ParseTakesFirst(p: Parser, u: bytes, q: bytes)
    ensures var (count, left, fragment) := ParseNext(p, u, 0);
            var next := if fragment.Some? then After(fragment.value) else Some(left);
            Residual(Some(p), u + q, 0) == Listed(fragment) + Residual(next, u + q, count)
  {
    ParseNextExtends(p, u, q, 0);
  }

  /** What a call reports, it takes from the fragments that were still to come. */
  lemma ProgressTakesFirst(st: State, q: bytes)
    requires WithinLimit(st)
    ensures var (next, fragment) := Progress(st);
            && next.unparsed == st.unparsed[ParseNext(Continue(st).parser.value, st.unparsed, 0).0..]
            && Residual(st.parser, st.unparsed + q, 0)
               == Listed(fragment) + Residual(next.parser, next.unparsed + q, 0)
  {
    var parser := Continue(st).parser.value;
    ParseTakesFirst(parser, st.unparsed, q);
    DropParsed(Progress(st).0.parser, st.unparsed, q, ParseNext(parser, st.unparsed, 0).0);
  }

  function Added(op: Op): bytes {
    if op.EnqueueOp? then op.data else []
  }

  lemma StepTakesPrefix(st: State, op: Op, q: bytes)
    requires WithinLimit(st)
    requires !op.SkipOp?
    ensures var (next, out) := Step(st, op);
            Residual(st.parser, st.unparsed + (Added(op) + q), 0)
            == out + Residual(next.parser, next.unparsed + q, 0)
  {
    match op
    case EnqueueOp(data) =>
      assert st.unparsed + (data + q) == (st.unparsed + data) + q;
    case PoisonOp =>
      assert [] + q == q;
    case ProgressOp =>
      assert [] + q == q;
      ProgressTakesFirst(st, q);
  }

  /** Whatever calls are made, the fragments reported so far followed by the fragments still
      to come are those of the whole stream, however it is continued. */
  lemma {:induction false} RunTakesPrefix(st: State, ops: seq<Op>, q: bytes)
    requires WithinLimit(st)
    requires SkipFree(ops)
    ensures var (last, out) := Run(st, ops);
            Residual(st.parser, st.unparsed + (Enqueued(ops) + q), 0)
            == out + Residual(last.parser, last.unparsed + q, 0)
    decreases ops
  {
    if ops == [] {
      assert Enqueued(ops) + q == q;
    } else {
      var next := Step(st, ops[0]).0;
      StepTakesPrefix(st, ops[0], Enqueued(ops[1..]) + q);
      RunTakesPrefix(next, ops[1..], q);
      assert Enqueued(ops) + q == Added(ops[0]) + (Enqueued(ops[1..]) + q);
    }
  }

  /** No byte that could complete a fragment is left over. */
  predicate IsDrained(st: State) {
    Residual(st.parser, st.unparsed, 0) == []
  }

  lemma ProgressNoneDrains(st: State)
    requires WithinLimit(st)
    ensures Progress(st).1.None? <==> IsDrained(st)
    ensures Progress(st).1.None? ==> |Progress(st).0.unparsed| == 0 && IsDrained(Progress(st).0)
  {
    ProgressTakesFirst(st, []);
    assert st.unparsed + [] == st.unparsed;
  }

  /** Without skips, what is reported is the beginning of the declared fragments of the stream,
      however it goes on. */
  lemma ReportedSoFar(limit: Option<nat>, ops: seq<Op>, q: bytes)
    requires SkipFree(ops)
    ensures var (last, out) := Run(Initial(limit), ops);
            FragmentsOf(Enqueued(ops) + q) == out + Residual(last.parser, last.unparsed + q, 0)
  {
    RunTakesPrefix(Initial(limit), ops, q);
    assert [] + (Enqueued(ops) + q) == Enqueued(ops) + q;
    ResidualIsFragmentsOf(Enqueued(ops) + q);
  }

  /** Chunking independence: the reported fragments are the declared fragments of the stream,
      as far as they were asked for, no matter how the stream was cut into pieces, when
      progress was called, and what the size limit is. */
  lemma ChunkingIndependence(limit: Option<nat>, ops: seq<Op>)
    requires SkipFree(ops)
    ensures var (last, out) := Run(Initial(limit), ops);
            && FragmentsOf(Enqueued(ops)) == out + Residual(last.parser, last.unparsed, 0)
            && (IsDrained(last) ==> out == FragmentsOf(Enqueued(ops)))
  {
    ReportedSoFar(limit, ops, []);
    var last := Run(Initial(limit), ops).0;
    assert Enqueued(ops) + [] == Enqueued(ops) && last.unparsed + [] == last.unparsed;
  }

  // ----- What was parsed -----

  /** All bytes parsed so far, kept in full: those of earlier messages, completed or skipped,
      and those of the current one. */
  datatype History = History(done: bytes, message: bytes) {
    function Close(): History {
      History(done + message, [])
    }

    function Extend(parsed: bytes): History {
      History(done, message + parsed)
    }
  }

  const NOTHING := History([], [])

  /** The bytes that a call to progress parses. */
  function Parsed(st: State): bytes {
    st.unparsed[..ParseNext(Continue(st).parser.value, st.unparsed, 0).0]
  }

  function Record(st: State, h: History, op: Op): History {
    match op
    case ProgressOp => (if st.parser.None? then h.Close() else h).Extend(Parsed(st))
    case SkipOp => h.Close()
    case _ => h
  }

  function HistoryOf(st: State, h: History, ops: seq<Op>): History
    requires WithinLimit(st)
    decreases ops
  {
    if ops == [] then h
    else HistoryOf(Step(st, ops[0]).0, Record(st, h, ops[0]), ops[1..])
  }

  /** The bytes parsed for the current message. */
  function MessageOf(limit: Option<nat>, ops: seq<Op>): bytes {
    HistoryOf(Initial(limit), NOTHING, ops).message
  }

  /** The bytes parsed for earlier messages. */
  function DoneOf(limit: Option<nat>, ops: seq<Op>): bytes {
    HistoryOf(Initial(limit), NOTHING, ops).done
  }

  lemma StepKeepsStream(st: State, h: History, op: Op, q: bytes)
    requires WithinLimit(st)
    ensures var next, h' := Step(st, op).0, Record(st, h, op);
            h'.done + h'.message + (next.unparsed + q) == h.done + h.message + (st.unparsed + (Added(op) + q))
  {
    match op
    case EnqueueOp(data) =>
      assert (st.unparsed + data) + q == st.unparsed + (data + q);
    case ProgressOp =>
      var closed := if st.parser.None? then h.Close() else h;
      ProgressKeepsStream(st, closed.done, closed.message, q);
      assert [] + q == q;
      assert (h.done + h.message) + [] == h.done + h.message;
    case _ =>
      assert [] + q == q;
      assert (h.done + h.message) + [] == h.done + h.message;
  }

  lemma ProgressKeepsStream(st: State, done: bytes, m: bytes, q: bytes)
    requires WithinLimit(st)
    ensures done + (m + Parsed(st)) + (Progress(st).0.unparsed + q) == done + m + (st.unparsed + q)
  {
    var left := Progress(st).0.unparsed;
    assert Parsed(st) + left == st.unparsed;
    Regroup(done, m, Parsed(st), left, q);
  }

  lemma Regroup(a: bytes, b: bytes, c: bytes, d: bytes, e: bytes)
    ensures a + (b + c) + (d + e) == a + b + ((c + d) + e)
  {
  }

  /** No byte is lost, repeated or reordered in any run, skips included: what was parsed for
      earlier messages and for the current one, followed by what is still unparsed, is the
      stream. */
  lemma {:induction false} RunKeepsStream(st: State, h: History, ops: seq<Op>)
    requires WithinLimit(st)
    ensures var h' := HistoryOf(st, h, ops);
            h'.done + h'.message + Run(st, ops).0.unparsed == h.done + h.message + (st.unparsed + Enqueued(ops))
    decreases ops
  {
    if ops == [] {
      assert st.unparsed + [] == st.unparsed;
    } else {
      StepKeepsStream(st, h, ops[0], Enqueued(ops[1..]));
      RunKeepsStream(Step(st, ops[0]).0, Record(st, h, ops[0]), ops[1..]);
    }
  }

  lemma StreamIsKept(limit: Option<nat>, ops: seq<Op>)
    ensures DoneOf(limit, ops) + MessageOf(limit, ops) + Run(Initial(limit), ops).0.unparsed == Enqueued(ops)
  {
    RunKeepsStream(Initial(limit), NOTHING, ops);
    assert [] + [] + ([] + Enqueued(ops)) == Enqueued(ops);
  }

  /** The bytes of an unfinished fragment. */
  function Held(st: State): int {
    if st.parser.Some? then st.parser.value.end - st.parser.value.start else 0
  }

  lemma {:induction false} TotalWidthConcat(a: seq<FragmentInfo>, b: seq<FragmentInfo>)
    ensures TotalWidth(a + b) == TotalWidth(a) + TotalWidth(b)
  {
    if a == [] {
      assert a + b == b;
    } else {
      TotalWidthConcat(a[1..], b);
      assert (a + b)[1..] == a[1..] + b;
    }
  }

  lemma StepWidths(st: State, h: History, op: Op)
    requires WithinLimit(st)
    requires !op.SkipOp?
    ensures var (next, out) := Step(st, op);
            var h' := Record(st, h, op);
            |h'.done| + |h'.message| - Held(next) == |h.done| + |h.message| - Held(st) + TotalWidth(out)
  {
    if op.ProgressOp? {
      var fragment := Progress(st).1;
      if fragment.Some? {
        assert [fragment.value][1..] == [];
      }
    }
  }

  /** Without skips, the bytes parsed are those of the reported fragments and of the unfinished
      one. */
  lemma {:induction false} RunWidths(st: State, h: History, ops: seq<Op>)
    requires WithinLimit(st)
    requires SkipFree(ops)
    ensures var (last, out) := Run(st, ops);
            var h' := HistoryOf(st, h, ops);
            |h'.done| + |h'.message| - Held(last) == |h.done| + |h.message| - Held(st) + TotalWidth(out)
    decreases ops
  {
    if ops != [] {
      var (next, out) := Step(st, ops[0]);
      StepWidths(st, h, ops[0]);
      RunWidths(next, Record(st, h, ops[0]), ops[1..]);
      TotalWidthConcat(out, Run(next, ops[1..]).1);
    }
  }

  // ----- The size limit -----

  function Truncate(m: bytes, limit: Option<nat>): bytes {
    if limit.Some? && limit.value < |m| then m[..limit.value] else m
  }

  /** The buffer is the beginning of the message, and the flag says whether that is all. */
  predicate Stores(st: State, m: bytes) {
    && st.buffer == Truncate(m, st.maxMessageSize)
    && (st.exceeded <==> st.maxMessageSize.Some? && st.maxMessageSize.value < |m|)
    && (st.parser.Some? ==> st.parser.value.start <= st.parser.value.end == |m|)
  }

  lemma DequeueStores(st: State, m: bytes, count: nat)
    requires count <= |st.unparsed|
    requires WithinLimit(st)
    requires st.buffer == Truncate(m, st.maxMessageSize)
    requires st.exceeded <==> st.maxMessageSize.Some? && st.maxMessageSize.value < |m|
    ensures var next, m' := Dequeue(st, count), m + st.unparsed[..count];
            && next.buffer == Truncate(m', st.maxMessageSize)
            && (next.exceeded <==> st.maxMessageSize.Some? && st.maxMessageSize.value < |m'|)
  {
    var parsed := st.unparsed[..count];
    if st.maxMessageSize.Some? && st.maxMessageSize.value < |m| + count {
      var size := st.maxMessageSize.value;
      if |m| <= size {
        assert (m + parsed)[..size] == m + st.unparsed[..size - |m|];
      } else {
        assert (m + parsed)[..size] == m[..size];
        assert m[..size] + st.unparsed[..0] == m[..size];
      }
    }
  }

  /** Positions advance by the number of bytes parsed. */
  lemma ProgressMoves(st: State)
    requires WithinLimit(st)
    ensures var p, (next, fragment) := Continue(st).parser.value, Progress(st);
            var end := p.end + |Parsed(st)|;
            match fragment
            case None => next.parser.Some? && next.parser.value.start == p.start && next.parser.value.end == end
            case Some(f) =>
              && f.start == p.start && f.end == end
              && (next.parser.Some? ==> next.parser.value.start == next.parser.value.end == end)
  {
  }

  lemma ProgressStores(st: State, m: bytes)
    requires WithinLimit(st) && st.parser.Some? && Stores(st, m)
    ensures Stores(Progress(st).0, m + Parsed(st))
  {
    DequeueStores(st, m, |Parsed(st)|);
    ProgressMoves(st);
  }

  lemma StepStores(st: State, h: History, op: Op)
    requires WithinLimit(st) && Stores(st, h.message)
    ensures Stores(Step(st, op).0, Record(st, h, op).message)
  {
    if op.ProgressOp? {
      ProgressStores(Continue(st), if st.parser.None? then [] else h.message);
    }
  }

  lemma {:induction false} RunStores(st: State, h: History, ops: seq<Op>)
    requires WithinLimit(st) && Stores(st, h.message)
    ensures Stores(Run(st, ops).0, HistoryOf(st, h, ops).message)
    decreases ops
  {
    if ops != [] {
      StepStores(st, h, ops[0]);
      RunStores(Step(st, ops[0]).0, Record(st, h, ops[0]), ops[1..]);
    }
  }

  /** In every reachable state the buffer holds the first bytes of the current message up to
      the limit, and the exceeded flag is set exactly when bytes were dropped. */
  lemma SizeLimit(limit: Option<nat>, ops: seq<Op>)
    ensures var st, m := Run(Initial(limit), ops).0, MessageOf(limit, ops);
            && st.maxMessageSize == limit
            && st.buffer == Truncate(m, limit)
            && (st.exceeded <==> limit.Some? && limit.value < |m|)
            && (st.parser.Some? ==> st.parser.value.start <= st.parser.value.end == |m|)
  {
    RunStores(Initial(limit), NOTHING, ops);
    LimitIsKept(Initial(limit), ops);
  }

  lemma {:induction false} LimitIsKept(st: State, ops: seq<Op>)
    requires WithinLimit(st)
    ensures Run(st, ops).0.maxMessageSize == st.maxMessageSize
    decreases ops
  {
    if ops != [] {
      LimitIsKept(Step(st, ops[0]).0, ops[1..]);
    }
  }

  /** Two states that differ at most in what they store. */
  predicate SameControl(a: State, b: State) {
    a.unparsed == b.unparsed && a.parser == b.parser && a.poisoned == b.poisoned
  }

  lemma StepIgnoresLimit(a: State, b: State, h: History, op: Op)
    requires WithinLimit(a) && WithinLimit(b) && SameControl(a, b)
    ensures SameControl(Step(a, op).0, Step(b, op).0)
    ensures Step(a, op).1 == Step(b, op).1
    ensures Record(a, h, op) == Record(b, h, op)
  {
  }

  /** The limit changes neither the fragments nor the messages they belong to, so an oversized
      message cannot throw off the messages after it. */
  lemma {:induction false} LimitIndependence(a: State, b: State, h: History, ops: seq<Op>)
    requires WithinLimit(a) && WithinLimit(b) && SameControl(a, b)
    ensures SameControl(Run(a, ops).0, Run(b, ops).0)
    ensures Run(a, ops).1 == Run(b, ops).1
    ensures HistoryOf(a, h, ops) == HistoryOf(b, h, ops)
    decreases ops
  {
    if ops != [] {
      StepIgnoresLimit(a, b, h, ops[0]);
      LimitIndependence(Step(a, ops[0]).0, Step(b, ops[0]).0, Record(a, h, ops[0]), ops[1..]);
    }
  }

  // ----- The bytes of a fragment -----

  /** The bytes of a fragment that are still in the buffer. */
  function StoredBytes(st: State, f: FragmentInfo): bytes
    requires f.start <= f.end
  {
    var n := |st.buffer|;
    st.buffer[(if f.start < n then f.start else n)..(if f.end < n then f.end else n)]
  }

  /** What a limit leaves of bytes that begin at an offset of the message. */
  function Clip(data: bytes, at: nat, limit: Option<nat>): bytes {
    if limit.None? then data
    else Truncate(data, Some(if at < limit.value then limit.value - at else 0))
  }

  lemma TruncateSlice(m: bytes, limit: Option<nat>, start: nat, end: nat)
    requires start <= end <= |m|
    ensures var b := Truncate(m, limit);
            var n := |b|;
            b[(if start < n then start else n)..(if end < n then end else n)] == Clip(m[start..end], start, limit)
  {
  }

  lemma SliceBehind(a: bytes, m: bytes, u: bytes, start: nat, end: nat)
    requires start <= end <= |m|
    ensures (a + m + u)[|a| + start..|a| + end] == m[start..end]
  {
  }

  /** The data are the stream's bytes between the positions of a fragment, for a message that
      begins at offset `n` of the stream, as far as the limit keeps them. */
  predicate CutFrom(data: bytes, f: FragmentInfo, stream: bytes, n: int, limit: Option<nat>) {
    && f.start <= f.end && 0 <= n && n + f.end <= |stream|
    && data == Clip(stream[n + f.start..n + f.end], f.start, limit)
  }

  lemma StoredIsHistory(st: State, h: History, f: FragmentInfo, stream: bytes)
    requires Stores(st, h.message)
    requires f.start <= f.end <= |h.message|
    requires stream == h.done + h.message + st.unparsed
    ensures CutFrom(StoredBytes(st, f), f, stream, |h.done|, st.maxMessageSize)
  {
    TruncateSlice(h.message, st.maxMessageSize, f.start, f.end);
    SliceBehind(h.done, h.message, st.unparsed, f.start, f.end);
  }

  /** In every reachable state, skips included, the bytes handed out for a piece of what was
      parsed of the current message are those of the stream, as far as the limit kept them. */
  lemma StoredIsStream(limit: Option<nat>, ops: seq<Op>, f: FragmentInfo)
    requires f.start <= f.end <= |MessageOf(limit, ops)|
    ensures CutFrom(StoredBytes(Run(Initial(limit), ops).0, f), f, Enqueued(ops), |DoneOf(limit, ops)|, limit)
  {
    RunStores(Initial(limit), NOTHING, ops);
    LimitIsKept(Initial(limit), ops);
    StreamIsKept(limit, ops);
    StoredIsHistory(Run(Initial(limit), ops).0, HistoryOf(Initial(limit), NOTHING, ops), f, Enqueued(ops));
  }

  /** A reported fragment reaches to the end of what was parsed of its message. */
  lemma ReportedEnd(st: State, h: History)
    requires WithinLimit(st) && Stores(st, h.message)
    requires Progress(st).1.Some?
    ensures var f, h' := Progress(st).1.value, Record(st, h, ProgressOp);
            && f.start <= f.end == |h'.message|
            && |h'.done| + f.start == |h.done| + |h.message| - Held(st)
  {
  }

  /** The bytes before the message that the next call to progress works on. */
  function DoneBefore(limit: Option<nat>, ops: seq<Op>): bytes {
    Record(Run(Initial(limit), ops).0, HistoryOf(Initial(limit), NOTHING, ops), ProgressOp).done
  }

  lemma ReportedFrom(st: State, h: History, next: State, f: FragmentInfo, stream: bytes)
    requires WithinLimit(st) && Stores(st, h.message)
    requires Progress(st) == (next, Some(f))
    requires stream == h.done + h.message + st.unparsed
    ensures f.start <= f.end
    ensures CutFrom(StoredBytes(next, f), f, stream, |Record(st, h, ProgressOp).done|, st.maxMessageSize)
  {
    ReportedEnd(st, h);
    StepStores(st, h, ProgressOp);
    StepKeepsStream(st, h, ProgressOp, []);
    assert st.unparsed + [] == st.unparsed && next.unparsed + [] == next.unparsed;
    StoredIsHistory(next, Record(st, h, ProgressOp), f, stream);
  }

  /** In every run, skips included: the bytes handed out for the fragment just reported are the
      stream's bytes between its positions, counted from the beginning of its message, and only
      the limit cuts them short. */
  lemma ReportedBytes(limit: Option<nat>, ops: seq<Op>, next: State, f: FragmentInfo)
    requires Progress(Run(Initial(limit), ops).0) == (next, Some(f))
    ensures f.start <= f.end && CutFrom(StoredBytes(next, f), f, Enqueued(ops), |DoneBefore(limit, ops)|, limit)
  {
    RunStores(Initial(limit), NOTHING, ops);
    LimitIsKept(Initial(limit), ops);
    StreamIsKept(limit, ops);
    ReportedFrom(Run(Initial(limit), ops).0, HistoryOf(Initial(limit), NOTHING, ops), next, f, Enqueued(ops));
  }

  lemma ReportedPosition(limit: Option<nat>, ops: seq<Op>, next: State, f: FragmentInfo)
    requires SkipFree(ops)
    requires Progress(Run(Initial(limit), ops).0) == (next, Some(f))
    ensures |DoneBefore(limit, ops)| + f.start == TotalWidth(Run(Initial(limit), ops).1)
  {
    RunStores(Initial(limit), NOTHING, ops);
    RunWidths(Initial(limit), NOTHING, ops);
    ReportedEnd(Run(Initial(limit), ops).0, HistoryOf(Initial(limit), NOTHING, ops));
  }

  /** Without skips, the fragment reported after `out` is the next declared fragment. */
  lemma ReportedNext(limit: Option<nat>, ops: seq<Op>, q: bytes, next: State, f: FragmentInfo)
    requires SkipFree(ops)
    requires Progress(Run(Initial(limit), ops).0) == (next, Some(f))
    ensures Run(Initial(limit), ops).1 + [f] <= FragmentsOf(Enqueued(ops) + q)
  {
    var (st, out) := Run(Initial(limit), ops);
    ReportedSoFar(limit, ops, q);
    ProgressTakesFirst(st, q);
    PrefixBy(FragmentsOf(Enqueued(ops) + q), out, f, Residual(next.parser, next.unparsed + q, 0));
  }

  /** Without skips, the fragment reported after `out` is the next declared fragment of the
      stream, however it goes on, and its bytes are the stream's bytes behind those of `out`. */
  lemma ReportedFragment(limit: Option<nat>, ops: seq<Op>, q: bytes, next: State, f: FragmentInfo)
    requires SkipFree(ops)
    requires Progress(Run(Initial(limit), ops).0) == (next, Some(f))
    ensures Run(Initial(limit), ops).1 + [f] <= FragmentsOf(Enqueued(ops) + q)
    ensures f.start <= f.end
    ensures var out := Run(Initial(limit), ops).1;
            CutFrom(StoredBytes(next, f), f, Enqueued(ops) + q, TotalWidth(out) - f.start, limit)
  {
    ReportedNext(limit, ops, q, next, f);
    ReportedBytes(limit, ops, next, f);
    ReportedPosition(limit, ops, next, f);
    CutFromExtends(StoredBytes(next, f), f, Enqueued(ops), q, |DoneBefore(limit, ops)|, limit);
  }

  lemma CutFromExtends(data: bytes, f: FragmentInfo, stream: bytes, q: bytes, n: int, limit: Option<nat>)
    requires CutFrom(data, f, stream, n, limit)
    ensures CutFrom(data, f, stream + q, n, limit)
  {
    assert (stream + q)[n + f.start..n + f.end] == stream[n + f.start..n + f.end];
  }

  lemma PrefixBy(all: seq<FragmentInfo>, out: seq<FragmentInfo>, f: FragmentInfo, more: seq<FragmentInfo>)
    requires all == out + ([f] + more)
    ensures out + [f] <= all
  {
  }

  /** A complete message ends with the last fragment of `out`. */
  predicate EndsWith(st: State, h: History, out: seq<FragmentInfo>) {
    st.parser.None? ==>
      && out != []
      && After(out[|out| - 1]) == None
      && out[|out| - 1].end == |h.message|
  }

  lemma StepEnds(st: State, h: History, out: seq<FragmentInfo>, op: Op)
    requires WithinLimit(st) && Stores(st, h.message)
    requires EndsWith(st, h, out)
    ensures EndsWith(Step(st, op).0, Record(st, h, op), out + Step(st, op).1)
  {
    if op.ProgressOp? && Progress(st).1.Some? {
      ReportedEnd(st, h);
    } else {
      assert out + [] == out;
    }
  }

  lemma {:induction false} RunEnds(st: State, h: History, before: seq<FragmentInfo>, ops: seq<Op>)
    requires WithinLimit(st) && Stores(st, h.message)
    requires EndsWith(st, h, before)
    ensures EndsWith(Run(st, ops).0, HistoryOf(st, h, ops), before + Run(st, ops).1)
    decreases ops
  {
    if ops == [] {
      assert before + [] == before;
    } else {
      var (next, out) := Step(st, ops[0]);
      StepEnds(st, h, before, ops[0]);
      StepStores(st, h, ops[0]);
      RunEnds(next, Record(st, h, ops[0]), before + out, ops[1..]);
      assert before + (out + Run(next, ops[1..]).1) == (before + out) + Run(next, ops[1..]).1;
    }
  }

  /** When a message is complete, it ends with the last fragment reported. */
  lemma CompleteMessage(limit: Option<nat>, ops: seq<Op>)
    requires Run(Initial(limit), ops).0.parser.None?
    ensures var out := Run(Initial(limit), ops).1;
            && out != [] && After(out[|out| - 1]) == None
            && out[|out| - 1].end == |MessageOf(limit, ops)|
            && (SkipFree(ops) ==> |DoneOf(limit, ops)| + |MessageOf(limit, ops)| == TotalWidth(out))
  {
    RunEnds(Initial(limit), NOTHING, [], ops);
    assert [] + Run(Initial(limit), ops).1 == Run(Initial(limit), ops).1;
    if SkipFree(ops) {
      RunWidths(Initial(limit), NOTHING, ops);
    }
  }

  /** Every call to progress that finds a fragment uses up bytes or an empty literal. */
  lemma ProgressShrinks(st: State)
    requires WithinLimit(st)
    requires Progress(st).1.Some?
    ensures var next := Progress(st).0;
            || |next.unparsed| < |st.unparsed|
            || (|next.unparsed| == |st.unparsed| && Rank(next.parser) < Rank(st.parser))
  {
  }

  /** No byte is left over. */
  ghost predicate UsedUp(s: bytes) {
    forall b :: b !in s
  }

  function Coming(st: State): seq<FragmentInfo> {
    Residual(st.parser, st.unparsed, 0)
  }

  /** One step of draining: what is reported comes off the front of what is to come. */
  lemma DrainStep(st: State, reported: seq<FragmentInfo>)
    requires WithinLimit(st)
    ensures var (next, fragment) := Progress(st);
            && reported + Coming(st) == reported + Listed(fragment) + Coming(next)
            && (fragment.None? ==> |next.unparsed| == 0 && Coming(next) == [])
            && (fragment.Some? ==>
                  || |next.unparsed| < |st.unparsed|
                  || (|next.unparsed| == |st.unparsed| && Rank(next.parser) < Rank(st.parser)))
  {
    var (next, fragment) := Progress(st);
    ProgressTakesFirst(st, []);
    assert st.unparsed + [] == st.unparsed && next.unparsed + [] == next.unparsed;
    ProgressNoneDrains(st);
    if fragment.Some? {
      ProgressShrinks(st);
    }
  }

  // ----- Message isolation -----

  /** Calls that neither parse nor skip. */
  predicate IsPassive(ops: seq<Op>) {
    forall op | op in ops :: op.EnqueueOp? || op.PoisonOp?
  }

  function FreshFor(limit: Option<nat>, unparsed: bytes): State {
    Initial(limit).(unparsed := unparsed)
  }

  lemma {:induction false} PassiveRun(st: State, ops: seq<Op>)
    requires WithinLimit(st) && IsPassive(ops)
    ensures var (last, out) := Run(st, ops);
            && out == []
            && last == st.(unparsed := st.unparsed + Enqueued(ops), poisoned := last.poisoned)
    decreases ops
  {
    if ops == [] {
      assert st.unparsed + [] == st.unparsed;
    } else {
      PassiveStep(st, ops[0], Enqueued(ops[1..]));
      PassiveRun(Step(st, ops[0]).0, ops[1..]);
    }
  }

  lemma PassiveStep(st: State, op: Op, q: bytes)
    requires WithinLimit(st)
    requires op.EnqueueOp? || op.PoisonOp?
    ensures Step(st, op).1 == []
    ensures Step(st, op).0.unparsed + q == st.unparsed + (Added(op) + q)
  {
    assert (st.unparsed + Added(op)) + q == st.unparsed + (Added(op) + q);
    assert st.unparsed + [] == st.unparsed;
  }

  lemma RunCons(st: State, op: Op, ops: seq<Op>)
    requires WithinLimit(st)
    ensures var (next, out) := Step(st, op);
            Run(st, [op] + ops) == (Run(next, ops).0, out + Run(next, ops).1)
  {
    assert ([op] + ops)[0] == op && ([op] + ops)[1..] == ops;
  }

  lemma {:induction false} RunInTwo(st: State, first: seq<Op>, second: seq<Op>)
    requires WithinLimit(st)
    ensures var (mid, out) := Run(st, first);
            Run(st, first + second) == (Run(mid, second).0, out + Run(mid, second).1)
    decreases first
  {
    if first == [] {
      assert first + second == second;
      assert [] + Run(st, second).1 == Run(st, second).1;
    } else {
      var (next, out) := Step(st, first[0]);
      assert first + second == [first[0]] + (first[1..] + second);
      RunCons(st, first[0], first[1..] + second);
      RunInTwo(next, first[1..], second);
      var (mid, more) := Run(next, first[1..]);
      assert out + (more + Run(mid, second).1) == (out + more) + Run(mid, second).1;
    }
  }

  /** Once a message is complete, the next call to progress, and with it every call after
      it, behaves as on a new Fragmentizer that was given only the unparsed bytes. Whatever
      was done to the complete message before that call, poisoning included, is forgotten. */
  lemma CompletionIsolates(st: State, passive: seq<Op>, ops: seq<Op>)
    requires WithinLimit(st)
    requires st.parser.None?
    requires IsPassive(passive)
    ensures Run(st, passive + ([ProgressOp] + ops))
         == Run(FreshFor(st.maxMessageSize, st.unparsed + Enqueued(passive)), [ProgressOp] + ops)
  {
    PassiveRun(st, passive);
    RunInTwo(st, passive, [ProgressOp] + ops);
    var mid := Run(st, passive).0;
    var clean := FreshFor(st.maxMessageSize, mid.unparsed);
    assert Step(mid, ProgressOp) == Step(clean, ProgressOp) by {
      assert Continue(mid) == clean == Continue(clean);
    }
    RunCons(mid, ProgressOp, ops);
    RunCons(clean, ProgressOp, ops);
    var rest := [ProgressOp] + ops;
    assert [] + Run(mid, rest).1 == Run(mid, rest).1;
  }

  /** Skipping forgets the current message at once. */
  lemma SkipIsolates(st: State, ops: seq<Op>)
    requires WithinLimit(st)
    ensures Run(st, [SkipOp] + ops) == Run(FreshFor(st.maxMessageSize, st.unparsed), ops)
  {
    var clean := FreshFor(st.maxMessageSize, st.unparsed);
    assert Step(st, SkipOp) == (clean, []);
    RunCons(st, SkipOp, ops);
    assert [] + Run(clean, ops).1 == Run(clean, ops).1;
  }

  // ----- Decoding -----

  datatype Decoded<+M, +E> = DecodeOk(remainder: bytes, message: M) | DecodeErr(error: E)

  datatype DecodeMessageError<+M, +E> =
    | DecodingFailure(error: E)
    | DecodingRemainder(message: M, remainder: bytes)
    | MessageTooLong(initial: bytes)
    | MessagePoisoned(discarded: bytes)

  datatype DecodeResult<+M, +E> = Decoded(message: M) | Rejected(reason: DecodeMessageError<M, E>)

  function DecodeMessage<M, E>(st: State, decoder: bytes -> Decoded<M, E>): DecodeResult<M, E> {
    if st.exceeded then Rejected(MessageTooLong(st.buffer))
    else if st.poisoned then Rejected(MessagePoisoned(st.buffer))
    else
      match decoder(st.buffer)
      case DecodeErr(error) => Rejected(DecodingFailure(error))
      case DecodeOk(remainder, message) =>
        if remainder != [] then Rejected(DecodingRemainder(message, remainder))
        else Decoded(message)
  }

  /** Whether the current message was poisoned. */
  function PoisonedAfter(st: State, marked: bool, op: Op): bool {
    match op
    case PoisonOp => true
    case SkipOp => false
    case ProgressOp => st.parser.Some? && marked
    case EnqueueOp(_) => marked
  }

  function PoisonedIn(st: State, marked: bool, ops: seq<Op>): bool
    requires WithinLimit(st)
    decreases ops
  {
    if ops == [] then marked
    else PoisonedIn(Step(st, ops[0]).0, PoisonedAfter(st, marked, ops[0]), ops[1..])
  }

  lemma {:induction false} PoisonedFlag(st: State, ops: seq<Op>)
    requires WithinLimit(st)
    ensures Run(st, ops).0.poisoned == PoisonedIn(st, st.poisoned, ops)
    decreases ops
  {
    if ops != [] {
      PoisonedFlag(Step(st, ops[0]).0, ops[1..]);
    }
  }

  /** A decoder gets to see only bytes of a message from which none were dropped and which was
      not poisoned: in every reachable state, whether the message is complete or not, decoding
      succeeds exactly when the bytes parsed so far fit the limit, the message was not poisoned,
      and the decoder uses up all of these bytes. */
  lemma DecodesOnlyWholeMessages<M, E>(
      limit: Option<nat>, ops: seq<Op>, decoder: bytes -> Decoded<M, E>, message: M)
    ensures var st, m := Run(Initial(limit), ops).0, MessageOf(limit, ops);
            DecodeMessage(st, decoder) == Decoded(message)
            <==> && !(limit.Some? && limit.value < |m|)
                 && !PoisonedIn(Initial(limit), false, ops)
                 && decoder(m) == DecodeOk([], message)
  {
    SizeLimit(limit, ops);
    PoisonedFlag(Initial(limit), ops);
  }

  predicate TooLong(m: bytes, limit: Option<nat>) {
    limit.Some? && limit.value < |m|
  }

  /** What decoding the bytes `m` of a message comes to: first the limit counts, then the poison,
      then the decoder, which must not leave a remainder. A refusal carries what is left of the
      message, or what the decoder made of it. */
  ghost predicate SaysWhy<M, E>(
      o: DecodeResult<M, E>, m: bytes, limit: Option<nat>, poisoned: bool, decoder: bytes -> Decoded<M, E>,
      b: bytes, e: E, x: M, r: bytes)
  {
    var decoded := !TooLong(m, limit) && !poisoned;
    && (o == Rejected(MessageTooLong(b)) <==> TooLong(m, limit) && b == m[..limit.value])
    && (o == Rejected(MessagePoisoned(b)) <==> !TooLong(m, limit) && poisoned && b == m)
    && (o == Rejected(DecodingFailure(e)) <==> decoded && decoder(m) == DecodeErr(e))
    && (o == Rejected(DecodingRemainder(x, r)) <==> decoded && decoder(m) == DecodeOk(r, x) && r != [])
    && (o == Decoded(x) <==> decoded && decoder(m) == DecodeOk([], x))
  }

  /** In every reachable state each outcome has its one reason. */
  lemma DecodeOutcomes<M, E>(
      limit: Option<nat>, ops: seq<Op>, decoder: bytes -> Decoded<M, E>, b: bytes, e: E, x: M, r: bytes)
    ensures SaysWhy(DecodeMessage(Run(Initial(limit), ops).0, decoder), MessageOf(limit, ops), limit,
                    PoisonedIn(Initial(limit), false, ops), decoder, b, e, x, r)
  {
    SizeLimit(limit, ops);
    PoisonedFlag(Initial(limit), ops);
  }

  // ----- Tags -----

  /** The bytes before the first space, if no line ends before it and they are a tag. */
  function TagOf(message: bytes): Option<bytes> {
    var n := TagLength(message, 0);
    if 0 < n < |message| && message[n] == SP then Some(message[..n]) else None
  }

  function TagLength(message: bytes, from: nat): (n: nat)
    requires from <= |message|
    ensures from <= n <= |message|
    decreases |message| - from
  {
    if from < |message| && IsTagChar(message[from]) then TagLength(message, from + 1) else from
  }

  lemma {:induction false} TagLengthMeaning(message: bytes, from: nat)
    requires from <= |message|
    ensures var n := TagLength(message, from);
            && (forall k | from <= k < n :: IsTagChar(message[k]))
            && (n < |message| ==> !IsTagChar(message[n]))
    decreases |message| - from
  {
    if from < |message| && IsTagChar(message[from]) {
      TagLengthMeaning(message, from + 1);
    }
  }

  lemma NoTag(message: bytes, i: nat)
    requires i <= |message|
    requires i < |message| ==> message[i] == LF
    requires forall j | 0 <= j < i :: message[j] != SP && message[j] != LF
    ensures TagOf(message) == None
  {
    TagLengthMeaning(message, 0);
    assert i < |message| ==> !IsTagChar(message[i]);
  }

  lemma TagOfMeaning(message: bytes, i: nat)
    requires i < |message| && message[i] == SP
    requires forall j | 0 <= j < i :: message[j] != SP && message[j] != LF
    ensures TagOf(message) == if i > 0 && ValidTag(message[..i]) then Some(message[..i]) else None
  {
    TagLengthMeaning(message, 0);
    var n := TagLength(message, 0);
    if n < i {
      assert message[..i][n] == message[n];
    }
  }
}
