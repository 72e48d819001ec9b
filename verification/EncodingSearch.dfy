/** Encoding of search keys. */
module EncodingSearch {
  import opened Octets
  import opened Nom
  import opened Strings
  import opened SequenceCodec
  import opened Dates
  import opened Keywords
  import opened Search
  import opened Contexts
  import opened Encoding

  lemma NameIsPlain(kw: Keyword)
    ensures PlainText(Name(kw))
  {
    NameIsUpperCase(kw);
    UpperCaseIsPlain(Name(kw));
  }

  lemma UpperCaseIsPlain(t: string)
    requires UpperCase(t)
    ensures PlainText(t)
  {
    forall k | 0 <= k < |t| ensures IsPlain(Octet(t[k])) {
      assert 'A' <= t[k] <= 'Z';
    }
  }

  method WriteWord(kw: Keyword, ctx: EncodeContext, ghost rest: Wire)
    requires ctx.Valid()
    modifies ctx
    ensures ctx.Valid()
    ensures Feed(ctx.Dump(), rest) == Feed(old(ctx.Dump()), Text(Name(kw), Byte(SP, rest)))
    ensures ctx.Fits() == old(ctx.Fits())
  {
    var name := Name(kw);
    NameIsPlain(kw);
    WriteText(name, ctx, Byte(SP, rest));
    WriteByte(SP, ctx, rest);
  }

  method EncodeHeader(name: AString, value: AString, ctx: EncodeContext, ghost rest: Wire)
    requires ctx.Valid()
    requires ValidAString(name) && ValidAString(value)
    modifies ctx
    ensures ctx.Valid()
    ensures Feed(ctx.Dump(), rest) == Feed(old(ctx.Dump()), PutAString(name, Byte(SP, PutAString(value, rest))))
    ensures ctx.Fits() == (old(ctx.Fits()) && FitsAString(name) && FitsAString(value))
  {
    EncodeAString(name, ctx, Byte(SP, PutAString(value, rest)));
    WriteByte(SP, ctx, PutAString(value, rest));
    EncodeAString(value, ctx, rest);
  }

  method EncodeKey(k: SearchKey, ctx: EncodeContext, ghost rest: Wire)
    requires ctx.Valid()
    requires ValidKey(k)
    modifies ctx
    ensures ctx.Valid()
    ensures Feed(ctx.Dump(), rest) == Feed(old(ctx.Dump()), PutKey(k, rest))
    ensures ctx.Fits() == (old(ctx.Fits()) && FitsKey(k))
    decreases k, 2
  {
    match k {
      case Flag(flag) =>
        NameIsPlain(flag);
        WriteText(Name(flag), ctx, rest);
      case Field(field, value) =>
        WriteWord(field, ctx, PutAString(value, rest));
        EncodeAString(value, ctx, rest);
      case Day(when, date) =>
        WriteWord(when, ctx, PutDate(date, rest));
        EncodeDate(date, ctx, rest);
      case Label(what, atom) =>
        WriteWord(what, ctx, Feed(atom, rest));
        EncodeAtom(atom, ctx, rest);
      case Sized(bound, octets) =>
        WriteWord(bound, ctx, PutNat(octets, rest));
        EncodeNumber(octets, ctx, rest);
      case Header(name, value) =>
        WriteWord(HEADER, ctx, PutAString(name, Byte(SP, PutAString(value, rest))));
        EncodeHeader(name, value, ctx, rest);
      case Not(key) =>
        WriteWord(NOT, ctx, PutKey(key, rest));
        EncodeKey(key, ctx, rest);
      case Or(left, right) =>
        EncodeOr(k, ctx, rest);
      case Uid(set_) =>
        WriteWord(UID, ctx, PutSequenceSet(set_, rest));
        EncodeSequenceSet(set_, ctx, rest);
      case SequenceSet(set_) =>
        EncodeSequenceSet(set_, ctx, rest);
      case And(keys) =>
        EncodeGroup(k, ctx, rest);
    }
  }

  method EncodeOr(k: SearchKey, ctx: EncodeContext, ghost rest: Wire)
    requires ctx.Valid()
    requires k.Or? && ValidKey(k)
    modifies ctx
    ensures ctx.Valid()
    ensures Feed(ctx.Dump(), rest) == Feed(old(ctx.Dump()), PutKey(k, rest))
    ensures ctx.Fits() == (old(ctx.Fits()) && FitsKey(k))
    decreases k, 1
  {
    ghost var right := PutKey(k.right, rest);
    WriteWord(OR, ctx, PutKey(k.left, Byte(SP, right)));
    EncodeKey(k.left, ctx, Byte(SP, right));
    WriteByte(SP, ctx, right);
    EncodeKey(k.right, ctx, rest);
  }

  method EncodeGroup(k: SearchKey, ctx: EncodeContext, ghost rest: Wire)
    requires ctx.Valid()
    requires k.And? && ValidKey(k)
    modifies ctx
    ensures ctx.Valid()
    ensures Feed(ctx.Dump(), rest) == Feed(old(ctx.Dump()), PutKey(k, rest))
    ensures ctx.Fits() == (old(ctx.Fits()) && FitsKey(k))
    decreases k, 1
  {
    ghost var row := Rows(k, Byte(RPAREN, rest));
    WriteByte(LPAREN, ctx, row(0));
    EncodeKeys(k, ctx, row, Byte(RPAREN, rest));
    WriteByte(RPAREN, ctx, rest);
  }

  /** What is written from key `j` on. */
  ghost predicate IsRow(row: nat -> Wire, k: SearchKey, j: nat, rest: Wire)
    requires k.And? && ValidKey(k) && j < |k.keys|
  {
    var next := PutKeys(k, j + 1, rest);
    row(j) == PutKey(k.keys[j], next)
    && next == if j + 1 < |k.keys| then Byte(SP, row(j + 1)) else rest
  }

  lemma RowAt(k: SearchKey, j: nat, rest: Wire)
    requires k.And? && ValidKey(k) && j < |k.keys|
    ensures IsRow(KeysFrom(k, rest), k, j, rest)
  {
    KeysTail(k, j + 1, rest);
  }

  ghost predicate AreRows(row: nat -> Wire, k: SearchKey, rest: Wire)
    requires k.And? && ValidKey(k)
  {
    forall j: nat | j < |k.keys| :: IsRow(row, k, j, rest)
  }

  lemma Rows(k: SearchKey, rest: Wire) returns (row: nat -> Wire)
    requires k.And? && ValidKey(k)
    ensures AreRows(row, k, rest)
    ensures row(0) == PutKey(k.keys[0], PutKeys(k, 1, rest))
  {
    row := KeysFrom(k, rest);
    forall j: nat | j < |k.keys| ensures IsRow(row, k, j, rest) {
      RowAt(k, j, rest);
    }
  }

  method EncodeOneKey(k: SearchKey, j: nat, ctx: EncodeContext, ghost row: nat -> Wire, ghost rest: Wire)
    requires ctx.Valid()
    requires k.And? && ValidKey(k) && j < |k.keys|
    requires AreRows(row, k, rest)
    modifies ctx
    ensures ctx.Valid()
    ensures Feed(ctx.Dump(), if j + 1 < |k.keys| then Byte(SP, row(j + 1)) else rest)
         == Feed(old(ctx.Dump()), row(j))
    ensures ctx.Fits() == (old(ctx.Fits()) && FitsKey(k.keys[j]))
    decreases k, 0, 0
  {
    assert IsRow(row, k, j, rest);
    EncodeKey(k.keys[j], ctx, PutKeys(k, j + 1, rest));
  }

  lemma AllFit(k: SearchKey)
    requires k.And?
    ensures FitsKey(k) == First(k.keys, |k.keys|, FitsKey)
  {
  }

  /** The keys of a conjunction, with spaces between them. */
  method EncodeKeys(k: SearchKey, ctx: EncodeContext, ghost row: nat -> Wire, ghost rest: Wire)
    requires ctx.Valid()
    requires k.And? && ValidKey(k)
    requires AreRows(row, k, rest)
    modifies ctx
    ensures ctx.Valid()
    ensures Feed(ctx.Dump(), rest) == Feed(old(ctx.Dump()), row(0))
    ensures ctx.Fits() == (old(ctx.Fits()) && FitsKey(k))
    decreases k, 0, 1
  {
    var last := |k.keys| - 1;
    for j := 0 to last
      invariant ctx.Valid()
      invariant Feed(ctx.Dump(), row(j)) == Feed(old(ctx.Dump()), row(0))
      invariant ctx.Fits() == (old(ctx.Fits()) && First(k.keys, j, FitsKey))
    {
      FirstNext(k.keys, j, FitsKey);
      EncodeOneKey(k, j, ctx, row, rest);
      WriteByte(SP, ctx, row(j + 1));
    }
    FirstNext(k.keys, last, FitsKey);
    AllFit(k);
    EncodeOneKey(k, last, ctx, row, rest);
  }
}
