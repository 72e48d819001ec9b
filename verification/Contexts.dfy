/** The encoder's context: bytes are accumulated and cut into lines and literals. */
module Contexts {
  import opened Octets
  import opened Announcements

  /** What a peer sends in one go; a literal may have to wait for a continuation request. */
  datatype Fragment =
    | LineFragment(data: bytes)
    | LiteralFragment(data: bytes, mode: LiteralMode)

  /** The bytes of a sequence of fragments. */
  function DataOf(items: seq<Fragment>): bytes {
    if items == [] then []
    else DataOf(items[..|items| - 1]) + items[|items| - 1].data
  }

  // ----- How the fragments of an encoding are built -----

  /** Text that leaves the line automaton where it found it and ends no line. */
  ghost predicate Neutral(text: bytes) {
    Run(Other, text) == Other && LfFree(text)
  }

  predicate LfFree(text: bytes) {
    text == [] || (LfFree(text[..|text| - 1]) && text[|text| - 1] != LF)
  }

  lemma {:induction false} LfFreeMeaning(text: bytes)
    ensures LfFree(text) <==> forall k | 0 <= k < |text| :: text[k] != LF
  {
    if text != [] {
      var init := text[..|text| - 1];
      LfFreeMeaning(init);
      assert forall k | 0 <= k < |init| :: text[k] == init[k];
    }
  }

  /** What a line says about the literal behind it. */
  function Announcer(l: Fragment): bytes
    requires l.LiteralFragment?
  {
    AnnouncementBytes(ShowNat(|l.data|), l.mode)
  }

  /** A line of neutral text that ends in the announcement of a literal. */
  ghost predicate Leads(line: Fragment, literal: Fragment) {
    && line.LineFragment? && literal.LiteralFragment?
    && exists text :: line.data == text + Announcer(literal) && Neutral(text)
  }

  /** Lines and literals alternate, and each line leads to its literal. */
  ghost predicate Paired(items: seq<Fragment>) {
    items == [] ||
    (|items| >= 2 && Paired(items[..|items| - 2]) && Leads(items[|items| - 2], items[|items| - 1]))
  }

  /** The lengths of all literals are announced in 32 bits. */
  predicate Announceable(items: seq<Fragment>) {
    items == [] ||
    (Announceable(items[..|items| - 1]) && (items[|items| - 1].LiteralFragment? ==> |items[|items| - 1].data| <= U32_MAX))
  }

  lemma AnnounceableAppend(items: seq<Fragment>, f: Fragment)
    ensures Announceable(items + [f])
       <==> Announceable(items) && (f.LiteralFragment? ==> |f.data| <= U32_MAX)
  {
    assert (items + [f])[..|items|] == items;
  }

  lemma DataOfAppend(items: seq<Fragment>, f: Fragment)
    ensures DataOf(items + [f]) == DataOf(items) + f.data
  {
    assert (items + [f])[..|items|] == items;
  }

  lemma {:induction false} DataOfConcat(a: seq<Fragment>, b: seq<Fragment>)
    ensures DataOf(a + b) == DataOf(a) + DataOf(b)
    decreases |b|
  {
    if b == [] {
      assert a + b == a;
    } else {
      var init, last := b[..|b| - 1], b[|b| - 1];
      DataOfConcat(a, init);
      assert a + b == (a + init) + [last];
      DataOfLast(a, init, a + init, last);
    }
  }

  lemma DataOfLast(a: seq<Fragment>, b: seq<Fragment>, ab: seq<Fragment>, last: Fragment)
    requires DataOf(ab) == DataOf(a) + DataOf(b)
    ensures DataOf(ab + [last]) == DataOf(a) + DataOf(b + [last])
  {
    DataOfAppend(ab, last);
    DataOfAppend(b, last);
    Associate(DataOf(a), DataOf(b), last.data);
  }

  lemma Associate(a: bytes, b: bytes, c: bytes)
    ensures (a + b) + c == a + (b + c)
  {
  }

  lemma NeutralConcat(a: bytes, b: bytes)
    requires Neutral(a) && Neutral(b)
    ensures Neutral(a + b)
  {
    RunConcat(Other, a, b);
    LfFreeMeaning(a);
    LfFreeMeaning(b);
    LfFreeMeaning(a + b);
  }

  /** Bytes that have no part in announcements or line ends. */
  predicate IsPlain(b: byte) {
    b != LF && b != CR && b != LBRACE
  }

  lemma {:induction false} PlainIsNeutral(text: bytes)
    requires forall k | 0 <= k < |text| :: IsPlain(text[k])
    ensures Neutral(text)
  {
    if text != [] {
      var init := text[..|text| - 1];
      assert forall k | 0 <= k < |init| :: init[k] == text[k];
      PlainIsNeutral(init);
    }
  }

  /** Whatever a quoted string contains, its closing quote resets the automaton. */
  lemma QuotedIsNeutral(body: bytes)
    requires LfFree(body)
    ensures Neutral([DQUOTE] + body + [DQUOTE])
  {
    RunStep(Other, [DQUOTE] + body, DQUOTE);
    LfFreeMeaning(body);
    LfFreeMeaning([DQUOTE] + body + [DQUOTE]);
  }

  lemma PairedAppend(items: seq<Fragment>, line: Fragment, literal: Fragment)
    requires Paired(items) && Leads(line, literal)
    ensures Paired(items + [line, literal])
    ensures Announceable(items + [line, literal]) <==> Announceable(items) && |literal.data| <= U32_MAX
    ensures DataOf(items + [line, literal]) == DataOf(items) + line.data + literal.data
  {
    var all := items + [line, literal];
    assert all[..|all| - 2] == items;
    assert all == (items + [line]) + [literal];
    DataOfAppend(items + [line], literal);
    DataOfAppend(items, line);
    AnnounceableAppend(items + [line], literal);
    AnnounceableAppend(items, line);
  }

  class EncodeContext {
    var accumulator: bytes
    var items: seq<Fragment>

    constructor ()
      ensures accumulator == [] && items == []
    {
      accumulator, items := [], [];
    }

    /** Everything written so far. */
    function Dump(): bytes
      reads this
    {
      DataOf(items) + accumulator
    }

    /** All literals so far can be announced. */
    predicate Fits()
      reads this
    {
      Announceable(items)
    }

    ghost predicate Valid()
      reads this
    {
      Paired(items) && Neutral(accumulator)
    }

    method WriteAll(buf: bytes)
      modifies this
      ensures accumulator == old(accumulator) + buf && items == old(items)
    {
      accumulator := accumulator + buf;
    }

    method PushLine()
      modifies this
      ensures accumulator == [] && items == old(items) + [LineFragment(old(accumulator))]
    {
      items := items + [LineFragment(accumulator)];
      accumulator := [];
    }

    method PushLiteral(mode: LiteralMode)
      modifies this
      ensures accumulator == [] && items == old(items) + [LiteralFragment(old(accumulator), mode)]
    {
      items := items + [LiteralFragment(accumulator, mode)];
      accumulator := [];
    }

    /** The fragments, with a last line for what is left. */
    method IntoItems() returns (all: seq<Fragment>)
      ensures all == if accumulator == [] then items else items + [LineFragment(accumulator)]
      ensures DataOf(all) == Dump()
    {
      all := items;
      if |accumulator| != 0 {
        DataOfAppend(items, LineFragment(accumulator));
        all := all + [LineFragment(accumulator)];
      }
    }
  }

  /** Sends an encoding without regard to its fragments. */
  method DumpItems(items: seq<Fragment>) returns (out: bytes)
    ensures out == DataOf(items)
  {
    out := [];
    for k := 0 to |items|
      invariant out == DataOf(items[..k])
    {
      assert items[..k + 1] == items[..k] + [items[k]];
      DataOfAppend(items[..k], items[k]);
      out := out + items[k].data;
    }
    assert items[..|items|] == items;
  }
}
