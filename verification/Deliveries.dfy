/** From the encoder to the decoder: many messages, sent one after the other and received in
    any pieces. */
module Deliveries {
  import opened Octets
  import opened Fragments
  import opened Contexts
  import opened Agreement
  import opened FragmentizerModel

  // ----- Many messages -----

  /** The fragments of one complete message. */
  ghost predicate IsMessage(items: seq<Fragment>) {
    exists body, text :: Paired(body) && Neutral(text) && items == Finished(body, text)
  }

  type Messages = seq<seq<Fragment>>

  ghost predicate AreMessages(ms: Messages) {
    forall i {:trigger IsMessage(ms[i])} | 0 <= i < |ms| :: IsMessage(ms[i])
  }

  predicate AllAnnounceable(ms: Messages, n: nat)
    requires n <= |ms|
  {
    forall i | 0 <= i < n :: Announceable(ms[i])
  }

  /** The fragments of the first `n` messages. */
  function ItemsOf(ms: Messages, n: nat): seq<Fragment>
    requires n <= |ms|
  {
    if n == 0 then [] else ItemsOf(ms, n - 1) + ms[n - 1]
  }

  /** What is to be reported for them: positions count from the beginning of each message. */
  function InfosOf(ms: Messages, n: nat): seq<FragmentInfo>
    requires n <= |ms|
  {
    if n == 0 then [] else InfosOf(ms, n - 1) + Infos(ms[n - 1])
  }

  lemma {:induction false} MessageFirst(m: seq<Fragment>, q: bytes, more: seq<FragmentInfo>)
    requires IsMessage(m)
    ensures FragmentsOf(DataOf(m) + q) == Infos(m) + more <==> Announceable(m) && FragmentsOf(q) == more
  {
    var body, text :| Paired(body) && Neutral(text) && m == Finished(body, text);
    MessageInStream(body, text, q);
    if FragmentsOf(DataOf(m) + q) == Infos(m) + more {
      assert Infos(m) <= FragmentsOf(DataOf(m) + q);
      SameTail(Infos(m), FragmentsOf(q), more);
    }
  }

  lemma {:induction false} SameTail<T>(a: seq<T>, b: seq<T>, c: seq<T>)
    requires a + b == a + c
    ensures b == c
  {
    assert (a + b)[|a|..] == b && (a + c)[|a|..] == c;
  }

  lemma {:induction false} Reassociate<T>(a: seq<T>, b: seq<T>, c: seq<T>)
    ensures (a + b) + c == a + (b + c)
  {
  }

  /** Items, whatever comes behind, are split into their fragments exactly under a condition. */
  ghost predicate SplitIf(
      condition: bool, items: seq<Fragment>, fs: seq<FragmentInfo>, q: bytes, more: seq<FragmentInfo>)
  {
    Same(FragmentsOf(DataOf(items) + q), fs + more) <==> condition && Same(FragmentsOf(q), more)
  }

  /** A stream of messages, whatever comes behind, is split into the fragments of all of them if
      and only if every literal can be announced. */
  lemma {:induction false} MessagesInStream(ms: Messages, n: nat, q: bytes, more: seq<FragmentInfo>)
    requires n <= |ms| && AreMessages(ms)
    ensures SplitIf(AllAnnounceable(ms, n), ItemsOf(ms, n), InfosOf(ms, n), q, more)
    decreases n
  {
    if n == 0 {
      NoMessage(ItemsOf(ms, n), InfosOf(ms, n), q, more);
    } else {
      var m := ms[n - 1];
      MessagesInStream(ms, n - 1, DataOf(m) + q, Infos(m) + more);
      MessageNext(ms, n - 1, ItemsOf(ms, n - 1), InfosOf(ms, n - 1), q, more);
    }
  }

  lemma {:induction false} NoMessage(items: seq<Fragment>, fs: seq<FragmentInfo>, q: bytes, more: seq<FragmentInfo>)
    requires items == [] && fs == []
    ensures SplitIf(true, items, fs, q, more)
  {
    NothingBefore(DataOf(items), q);
    NothingBefore(fs, more);
  }

  lemma {:induction false} MessageNext(
      ms: Messages, n: nat, items: seq<Fragment>, fs: seq<FragmentInfo>, q: bytes, more: seq<FragmentInfo>)
    requires n < |ms| && AreMessages(ms)
    requires SplitIf(AllAnnounceable(ms, n), items, fs, DataOf(ms[n]) + q, Infos(ms[n]) + more)
    ensures SplitIf(AllAnnounceable(ms, n + 1), items + ms[n], fs + Infos(ms[n]), q, more)
  {
    MessageFirst(ms[n], q, more);
    DataOfConcat(items, ms[n]);
    Reassociate(DataOf(items), DataOf(ms[n]), q);
    Reassociate(fs, Infos(ms[n]), more);
    assert AllAnnounceable(ms, n + 1) <==> AllAnnounceable(ms, n) && Announceable(ms[n]);
  }

  lemma {:induction false} NothingBefore<T>(a: seq<T>, b: seq<T>)
    requires |a| == 0
    ensures a + b == b
  {
  }

  /** A stream of messages is split into the fragments of all of them if and only if every
      literal can be announced. */
  lemma {:induction false} MessagesAgree(ms: Messages)
    requires AreMessages(ms)
    ensures FragmentsOf(DataOf(ItemsOf(ms, |ms|))) == InfosOf(ms, |ms|) <==> AllAnnounceable(ms, |ms|)
  {
    var q, more := DataOf(ItemsOf(ms, 0)), InfosOf(ms, 0);
    MessagesInStream(ms, |ms|, q, more);
    NoFragments(q);
    NothingBehind(DataOf(ItemsOf(ms, |ms|)), q);
    NothingBehind(InfosOf(ms, |ms|), more);
  }

  lemma {:induction false} NothingBehind<T>(a: seq<T>, b: seq<T>)
    requires |b| == 0
    ensures a + b == a
  {
  }

  // ----- The bytes of each fragment -----

  /** Every fragment reported is as long as the one sent. */
  ghost predicate Aligned(fs: seq<FragmentInfo>, items: seq<Fragment>) {
    |fs| == |items| && forall k | 0 <= k < |fs| :: Width(fs[k]) == |items[k].data|
  }

  lemma {:induction false} MessagesAligned(ms: Messages, n: nat)
    requires n <= |ms|
    ensures Aligned(InfosOf(ms, n), ItemsOf(ms, n))
    decreases n
  {
    if n > 0 {
      MessagesAligned(ms, n - 1);
      AlignedConcat(InfosOf(ms, n - 1), ItemsOf(ms, n - 1), Infos(ms[n - 1]), ms[n - 1]);
    }
  }

  lemma {:induction false} AlignedConcat(
      fs: seq<FragmentInfo>, items: seq<Fragment>, gs: seq<FragmentInfo>, more: seq<Fragment>)
    requires Aligned(fs, items) && Aligned(gs, more)
    ensures Aligned(fs + gs, items + more)
  {
  }

  lemma {:induction false} TotalWidthOf(fs: seq<FragmentInfo>, items: seq<Fragment>, k: nat)
    requires Aligned(fs, items) && k <= |fs|
    ensures TotalWidth(fs[..k]) == |DataOf(items[..k])|
    decreases k
  {
    if k > 0 {
      TotalWidthOf(fs, items, k - 1);
      assert fs[..k] == fs[..k - 1] + [fs[k - 1]];
      assert items[..k] == items[..k - 1] + [items[k - 1]];
      TotalWidthSnoc(fs[..k - 1], fs[k - 1]);
      DataOfAppend(items[..k - 1], items[k - 1]);
    }
  }

  lemma {:induction false} TotalWidthSnoc(fs: seq<FragmentInfo>, f: FragmentInfo)
    ensures TotalWidth(fs + [f]) == TotalWidth(fs) + Width(f)
  {
    TotalWidthConcat(fs, [f]);
  }

  // ----- What arrives -----

  /** The messages are sent in full or in part, in any pieces, and none is skipped. */
  ghost predicate Delivers(ms: Messages, ops: seq<Op>, q: bytes) {
    && AreMessages(ms) && AllAnnounceable(ms, |ms|)
    && SkipFree(ops)
    && Enqueued(ops) + q == DataOf(ItemsOf(ms, |ms|))
  }

  /** However the dumped bytes of the messages arrive, in whatever pieces and with progress asked
      for at whatever times, a Fragmentizer with any size limit reports the encoder's fragments
      in order, and all of them once everything has arrived and it is drained. */
  lemma {:induction false} AnyDelivery(ms: Messages, limit: Option<nat>, ops: seq<Op>, q: bytes)
    requires Delivers(ms, ops, q)
    ensures var (last, out) := Run(Initial(limit), ops);
            && out <= InfosOf(ms, |ms|)
            && (|q| == 0 && IsDrained(last) ==> out == InfosOf(ms, |ms|))
  {
    MessagesAgree(ms);
    ReportedSoFar(limit, ops, q);
    if |q| == 0 {
      ChunkingIndependence(limit, ops);
      NothingBehind(Enqueued(ops), q);
    }
  }

  /** `f` and `data` are position and bytes of the k-th fragment sent; only a limit cuts the
      bytes short. */
  predicate IsSent(
      fs: seq<FragmentInfo>, items: seq<Fragment>, k: nat, f: FragmentInfo, data: bytes, limit: Option<nat>)
  {
    && k < |fs| == |items|
    && f == fs[k]
    && data == Clip(items[k].data, f.start, limit)
    && (limit.None? ==> data == items[k].data)
  }

  lemma {:induction false} CutAsSent(data: bytes, f: FragmentInfo, items: seq<Fragment>, k: nat, limit: Option<nat>)
    requires k < |items| && Width(f) == |items[k].data|
    requires CutFrom(data, f, DataOf(items), |DataOf(items[..k])| - f.start, limit)
    ensures data == Clip(items[k].data, f.start, limit)
  {
    SameBytes(items, k);
  }

  lemma {:induction false} NextOf(out: seq<FragmentInfo>, f: FragmentInfo, all: seq<FragmentInfo>)
    requires out + [f] <= all
    ensures |out| < |all| && all[|out|] == f && all[..|out|] == out
  {
    assert all[|out|] == (out + [f])[|out|];
    assert all[..|out|] == (out + [f])[..|out|];
  }

  lemma {:induction false} NextIsSent(
      fs: seq<FragmentInfo>, items: seq<Fragment>, out: seq<FragmentInfo>, f: FragmentInfo, data: bytes,
      limit: Option<nat>)
    requires Aligned(fs, items)
    requires out + [f] <= fs
    requires CutFrom(data, f, DataOf(items), TotalWidth(out) - f.start, limit)
    ensures IsSent(fs, items, |out|, f, data, limit)
  {
    NextOf(out, f, fs);
    NextIsSentAt(fs, items, |out|, data, limit);
  }

  lemma {:induction false} NextIsSentAt(fs: seq<FragmentInfo>, items: seq<Fragment>, k: nat, data: bytes, limit: Option<nat>)
    requires Aligned(fs, items) && k < |fs|
    requires CutFrom(data, fs[k], DataOf(items), TotalWidth(fs[..k]) - fs[k].start, limit)
    ensures IsSent(fs, items, k, fs[k], data, limit)
  {
    TotalWidthOf(fs, items, k);
    CutAsSent(data, fs[k], items, k, limit);
  }

  lemma {:induction false} ReportedIsSent(
      limit: Option<nat>, ops: seq<Op>, q: bytes, next: State, f: FragmentInfo,
      fs: seq<FragmentInfo>, items: seq<Fragment>, out: seq<FragmentInfo>, data: bytes)
    requires SkipFree(ops) && Enqueued(ops) + q == DataOf(items)
    requires FragmentsOf(DataOf(items)) == fs && Aligned(fs, items)
    requires FragmentizerModel.Progress(Run(Initial(limit), ops).0) == (next, Some(f))
    requires out == Run(Initial(limit), ops).1
    requires f.start <= f.end ==> data == StoredBytes(next, f)
    ensures f.start <= f.end && IsSent(fs, items, |out|, f, data, limit)
  {
    ReportedFragment(limit, ops, q, next, f);
    NextIsSent(fs, items, out, f, data, limit);
  }

  /** When the k-th fragment is reported, the bytes handed out for it are the bytes of the k-th
      fragment that the encoder made, and only a limit cuts them short. */
  lemma {:induction false} DeliveredBytes(
      ms: Messages, limit: Option<nat>, ops: seq<Op>, q: bytes, next: State, f: FragmentInfo)
    requires Delivers(ms, ops, q)
    requires FragmentizerModel.Progress(Run(Initial(limit), ops).0) == (next, Some(f))
    ensures f.start <= f.end
    ensures IsSent(InfosOf(ms, |ms|), ItemsOf(ms, |ms|), |Run(Initial(limit), ops).1|, f, StoredBytes(next, f), limit)
  {
    MessagesAgree(ms);
    MessagesAligned(ms, |ms|);
    var out, data := Run(Initial(limit), ops).1, if f.start <= f.end then StoredBytes(next, f) else [];
    ReportedIsSent(limit, ops, q, next, f, InfosOf(ms, |ms|), ItemsOf(ms, |ms|), out, data);
  }

  // ----- Whole messages -----

  lemma {:induction false} LastInfo(m: seq<Fragment>)
    requires IsMessage(m)
    ensures Infos(m) != [] && Infos(m)[|m| - 1].end == |DataOf(m)|
    ensures forall k | 0 <= k < |m| :: After(Infos(m)[k]).None? <==> k == |m| - 1
  {
    var body, text :| Paired(body) && Neutral(text) && m == Finished(body, text);
    OneMessage(body, text);
    InfosFinish(body, text);
    DataOfFinished(body, text);
  }

  /** A fragment that completes a message is the last one of a message sent. */
  lemma {:induction false} Boundary(ms: Messages, n: nat, out: seq<FragmentInfo>) returns (i: nat)
    requires n <= |ms| && AreMessages(ms)
    requires out != [] && out <= InfosOf(ms, n)
    requires After(out[|out| - 1]) == None
    ensures i < n
    ensures out == InfosOf(ms, i + 1)
    ensures out[|out| - 1].end == |DataOf(ms[i])|
    decreases n
  {
    var before := InfosOf(ms, n - 1);
    if |out| <= |before| {
      ShorterPrefix(out, before, Infos(ms[n - 1]));
      i := Boundary(ms, n - 1, out);
    } else {
      i := n - 1;
      LastInfo(ms[n - 1]);
      EndsInLast(out, before, Infos(ms[n - 1]));
    }
  }

  lemma {:induction false} ShorterPrefix<T>(a: seq<T>, b: seq<T>, c: seq<T>)
    requires a <= b + c && |a| <= |b|
    ensures a <= b
  {
    assert a == (b + c)[..|a|] == b[..|a|];
  }

  lemma {:induction false} EndsInLast(out: seq<FragmentInfo>, before: seq<FragmentInfo>, fs: seq<FragmentInfo>)
    requires out <= before + fs && |before| < |out|
    requires After(out[|out| - 1]) == None
    requires forall k | 0 <= k < |fs| :: After(fs[k]).None? <==> k == |fs| - 1
    ensures out == before + fs && out[|out| - 1] == fs[|fs| - 1]
  {
    var k := |out| - 1 - |before|;
    assert out[|out| - 1] == (before + fs)[|out| - 1] == fs[k];
  }

  lemma {:induction false} StreamSplits(ms: Messages, i: nat, n: nat) returns (after: bytes)
    requires i <= n <= |ms|
    ensures DataOf(ItemsOf(ms, n)) == DataOf(ItemsOf(ms, i)) + after
    decreases n - i
  {
    if i == n {
      after := [];
      NothingBehind(DataOf(ItemsOf(ms, i)), after);
    } else {
      var a := StreamSplits(ms, i, n - 1);
      after := a + DataOf(ms[n - 1]);
      DataOfConcat(ItemsOf(ms, n - 1), ms[n - 1]);
      Reassociate(DataOf(ItemsOf(ms, i)), a, DataOf(ms[n - 1]));
    }
  }

  lemma {:induction false} SameMiddle(a: bytes, b: bytes, c: bytes, a': bytes, b': bytes, c': bytes)
    requires (a + b) + c == (a' + b') + c'
    requires |b| == |b'| && |a| + |b| == |a'| + |b'|
    ensures b == b'
  {
    MiddlePart(a, b, c);
    MiddlePart(a', b', c');
  }

  lemma {:induction false} SentMessage(ms: Messages, i: nat, done: bytes, m: bytes, rest: bytes)
    requires i < |ms|
    requires (done + m) + rest == DataOf(ItemsOf(ms, |ms|))
    requires |m| == |DataOf(ms[i])|
    requires |done| + |m| == |DataOf(ItemsOf(ms, i + 1))|
    ensures m == DataOf(ms[i])
  {
    var after := StreamSplits(ms, i + 1, |ms|);
    DataOfConcat(ItemsOf(ms, i), ms[i]);
    SameMiddle(done, m, rest, DataOf(ItemsOf(ms, i)), DataOf(ms[i]), after);
  }

  lemma {:induction false} WidthOfMessages(ms: Messages, n: nat)
    requires n <= |ms|
    ensures TotalWidth(InfosOf(ms, n)) == |DataOf(ItemsOf(ms, n))|
  {
    var fs, items := InfosOf(ms, n), ItemsOf(ms, n);
    MessagesAligned(ms, n);
    TotalWidthOf(fs, items, |fs|);
    assert fs[..|fs|] == fs && items[..|items|] == items;
  }

  /** Whenever a message is complete, its bytes are those of a message sent, and it is the last
      one of those whose fragments were reported. */
  lemma {:induction false} DeliveredMessage(ms: Messages, limit: Option<nat>, ops: seq<Op>, q: bytes) returns (i: nat)
    requires Delivers(ms, ops, q)
    requires Run(Initial(limit), ops).0.parser.None?
    ensures i < |ms|
    ensures Run(Initial(limit), ops).1 == InfosOf(ms, i + 1)
    ensures MessageOf(limit, ops) == DataOf(ms[i])
  {
    var (last, out) := Run(Initial(limit), ops);
    AnyDelivery(ms, limit, ops, q);
    CompleteMessage(limit, ops);
    i := Boundary(ms, |ms|, out);
    WidthOfMessages(ms, i + 1);
    StreamIsKept(limit, ops);
    Reassociate(DoneOf(limit, ops) + MessageOf(limit, ops), last.unparsed, q);
    SentMessage(ms, i, DoneOf(limit, ops), MessageOf(limit, ops), last.unparsed + q);
  }

  /** From the encoder to the decoder: a complete message decodes to `x` exactly when the bytes
      of the message that was sent do, unless it exceeds the limit or was poisoned. */
  lemma {:induction false} DecodesWhatWasSent<M, E>(
      ms: Messages, limit: Option<nat>, ops: seq<Op>, q: bytes, decoder: bytes -> Decoded<M, E>, x: M)
      returns (i: nat)
    requires Delivers(ms, ops, q)
    requires Run(Initial(limit), ops).0.parser.None?
    ensures i < |ms|
    ensures Run(Initial(limit), ops).1 == InfosOf(ms, i + 1)
    ensures DecodeMessage(Run(Initial(limit), ops).0, decoder) == Decoded(x)
       <==> && !(limit.Some? && limit.value < |DataOf(ms[i])|)
            && !PoisonedIn(Initial(limit), false, ops)
            && decoder(DataOf(ms[i])) == DecodeOk([], x)
  {
    i := DeliveredMessage(ms, limit, ops, q);
    DecodesOnlyWholeMessages(limit, ops, decoder, x);
  }

  /** The reason of every refusal is one about the message that was sent. */
  lemma {:induction false} RefusesWhatWasSent<M, E>(
      ms: Messages, limit: Option<nat>, ops: seq<Op>, q: bytes, decoder: bytes -> Decoded<M, E>,
      b: bytes, e: E, x: M, r: bytes)
      returns (i: nat)
    requires Delivers(ms, ops, q)
    requires Run(Initial(limit), ops).0.parser.None?
    ensures i < |ms|
    ensures Run(Initial(limit), ops).1 == InfosOf(ms, i + 1)
    ensures SaysWhy(DecodeMessage(Run(Initial(limit), ops).0, decoder), DataOf(ms[i]), limit,
                    PoisonedIn(Initial(limit), false, ops), decoder, b, e, x, r)
  {
    i := DeliveredMessage(ms, limit, ops, q);
    DecodeOutcomes(limit, ops, decoder, b, e, x, r);
  }
}
