/** Extension data of body structures: an optional tail of nested optional tails, ending in
    extension values that nest without bound but are read with a limit of eight levels. */
module BodyExtensions {
  import opened Octets
  import opened Nom
  import opened Strings

  datatype BodyExtension =
    | NStringExtension(nstring: NString)
    | NumberExtension(number: U32)
    | ListExtension(items: seq<BodyExtension>)

  const EXTENSION_LEVELS: nat := 8

  predicate GoodExtension(e: BodyExtension) {
    match e
    case NStringExtension(s) => GoodNString(s)
    case NumberExtension(_) => true
    case ListExtension(items) => items != [] && forall k | 0 <= k < |items| :: GoodExtension(items[k])
  }

  /** The value has at most `d` levels. */
  predicate ExtensionWithin(e: BodyExtension, d: nat) {
    d > 0 && (e.ListExtension? ==> forall k | 0 <= k < |e.items| :: ExtensionWithin(e.items[k], d - 1))
  }

  // ----- The grammar -----

  ghost predicate ExtensionText(e: BodyExtension, i: Wire, rest: Wire)
    decreases e, 1
  {
    match e
    case NStringExtension(s) => GoodNStringText(s, i, rest)
    case NumberExtension(n) => U32Text(n, i, rest)
    case ListExtension(items) =>
      && items != [] && Starts(i, LPAREN)
      && exists text: nat -> Wire :: ItemsStand(e, text, Byte(RPAREN, rest)) && text(0) == i.tail
  }

  /** The items of a list stand where `text` says, with spaces between them. */
  ghost predicate ItemsStand(e: BodyExtension, text: nat -> Wire, tail: Wire)
    requires e.ListExtension?
    decreases e, 0
  {
    forall m: nat {:trigger e.items[m]} | m < |e.items| ::
      ExtensionText(e.items[m], text(m), if m + 1 < |e.items| then Byte(SP, text(m + 1)) else tail)
  }

  // ----- Writing -----

  function PutExtension(e: BodyExtension, rest: Wire): Wire
    decreases e, 1
  {
    match e
    case NStringExtension(s) => PutNString(s, rest)
    case NumberExtension(n) => PutNat(n, rest)
    case ListExtension(items) =>
      Byte(LPAREN,
        if items == [] then Byte(RPAREN, rest)
        else PutExtension(items[0], PutExtensions(e, 1, Byte(RPAREN, rest))))
  }

  /** The items from index `k` on, each behind a space. */
  function PutExtensions(e: BodyExtension, k: nat, rest: Wire): Wire
    requires e.ListExtension? && k <= |e.items|
    decreases e, 0, |e.items| - k
  {
    if k == |e.items| then rest
    else Byte(SP, PutExtension(e.items[k], PutExtensions(e, k + 1, rest)))
  }

  // ----- Reading -----

  function ReadExtensionList(d: nat, i: Wire): (r: Outcome<seq<BodyExtension>>)
    ensures r.Consumes(i)
    ensures r.Ok? ==> r.value != []
    decreases d, 2, i
  {
    SeparatedList1(SP, ExtensionReader(d), i)
  }

  function ReadExtension(d: nat, i: Wire): (r: Outcome<BodyExtension>)
    ensures r.Consumes(i)
    decreases d, 0, i
  {
    if d == 0 then Failure(RecursionLimitExceeded)
    else
      Alt(ReadNStringExtension(i),
      Alt(ReadNumberExtension(i), ReadListExtension(d - 1, i)))
  }

  function ReadListExtension(d: nat, i: Wire): (r: Outcome<BodyExtension>)
    ensures r.Consumes(i)
    decreases d, 3, i
  {
    Enclosed((j: Wire) => ReadExtensionList(d, j), i).Map(items => ListExtension(items))
  }

  function ReadNStringExtension(i: Wire): (r: Outcome<BodyExtension>)
    ensures r.Consumes(i)
  {
    ReadNString(i).Map(s => NStringExtension(s))
  }

  function ReadNumberExtension(i: Wire): (r: Outcome<BodyExtension>)
    ensures r.Consumes(i)
  {
    var (rest, n) :- ReadNumber(i);
    Ok(rest, NumberExtension(n))
  }

  function ExtensionReader(d: nat): (p: Wire -> Outcome<BodyExtension>)
    ensures Consuming(p)
    ensures forall i {:trigger p(i)} :: p(i) == ReadExtension(d, i)
    decreases d, 1
  {
    (i: Wire) => ReadExtension(d, i)
  }

  // ----- Every text is read -----

  /** What follows a value. */
  predicate Ends(rest: Wire) {
    rest.Byte? && (rest.head == SP || rest.head == RPAREN)
  }

  /** A reader with a limit of `d` levels reads exactly the values within the limit. */
  lemma {:induction false} ExtensionReads(e: BodyExtension, d: nat, i: Wire, rest: Wire)
    requires ExtensionText(e, i, rest)
    requires Ends(rest)
    ensures ReadExtension(d, i) == Limited(ExtensionWithin(e, d), rest, e)
    decreases e, 2
  {
    if d > 0 {
      match e
      case NStringExtension(s) => NStringReads(s, i, rest);
      case NumberExtension(n) => NumberExtensionReads(n, d, i, rest);
      case ListExtension(items) =>
        var text: nat -> Wire :| ItemsStand(e, text, Byte(RPAREN, rest)) && text(0) == i.tail;
        EachItemReads(e, d - 1, text, Byte(RPAREN, rest));
        ItemListReads(e, d - 1, text, Byte(RPAREN, rest));
        ListReads(d, i, ExtensionWithin(e, d), rest, items);
    }
  }

  ghost predicate ReadsItems(e: BodyExtension, d: nat, text: nat -> Wire, tail: Wire)
    requires e.ListExtension?
  {
    forall m: nat {:trigger ExtensionReader(d)(text(m))} | m < |e.items| ::
      ExtensionReader(d)(text(m))
        == Limited(ExtensionWithin(e.items[m], d), if m + 1 < |e.items| then Byte(SP, text(m + 1)) else tail, e.items[m])
  }

  lemma {:induction false} EachItemReads(e: BodyExtension, d: nat, text: nat -> Wire, tail: Wire)
    requires e.ListExtension? && ItemsStand(e, text, tail)
    requires Ends(tail)
    ensures ReadsItems(e, d, text, tail)
    decreases e, 1
  {
    forall m: nat {:trigger ExtensionReader(d)(text(m))} | m < |e.items|
      ensures ExtensionReader(d)(text(m))
        == Limited(ExtensionWithin(e.items[m], d), if m + 1 < |e.items| then Byte(SP, text(m + 1)) else tail, e.items[m])
    {
      ExtensionReads(e.items[m], d, text(m), if m + 1 < |e.items| then Byte(SP, text(m + 1)) else tail);
    }
  }

  lemma WithinMeaning(e: BodyExtension, d: nat, fits: nat -> bool)
    requires e.ListExtension?
    requires forall m: nat | m < |e.items| :: fits(m) == ExtensionWithin(e.items[m], d)
    ensures ExtensionWithin(e, d + 1) <==> forall m: nat | m < |e.items| :: fits(m)
  {
    if forall m: nat | m < |e.items| :: fits(m) {
      assert forall k | 0 <= k < |e.items| :: ExtensionWithin(e.items[k], d);
    } else {
      var m: nat :| m < |e.items| && !fits(m);
      assert !ExtensionWithin(e.items[m], d);
    }
  }

  lemma ItemsRead(
      p: Wire -> Outcome<BodyExtension>, e: BodyExtension, d: nat, text: nat -> Wire, tail: Wire)
    requires Consuming(p)
    requires e.ListExtension? && e.items != []
    requires tail.Byte? && tail.head == RPAREN
    requires forall m: nat {:trigger p(text(m))} | m < |e.items| ::
      p(text(m))
        == Limited(ExtensionWithin(e.items[m], d), if m + 1 < |e.items| then Byte(SP, text(m + 1)) else tail, e.items[m])
    ensures SeparatedList1(SP, p, text(0)) == Limited(ExtensionWithin(e, d + 1), tail, e.items)
  {
    var fits := (m: nat) => m < |e.items| && ExtensionWithin(e.items[m], d);
    WithinMeaning(e, d, fits);
    SeparatedListJudged(SP, p, text, e.items, fits, RecursionLimitExceeded, tail);
  }

  lemma ItemListReads(e: BodyExtension, d: nat, text: nat -> Wire, tail: Wire)
    requires e.ListExtension? && e.items != []
    requires tail.Byte? && tail.head == RPAREN
    requires ReadsItems(e, d, text, tail)
    ensures ReadExtensionList(d, text(0)) == Limited(ExtensionWithin(e, d + 1), tail, e.items)
  {
    ItemsRead(ExtensionReader(d), e, d, text, tail);
  }

  lemma {:induction false} ListReads(d: nat, i: Wire, fits: bool, rest: Wire, items: seq<BodyExtension>)
    requires d > 0 && Starts(i, LPAREN)
    requires ReadExtensionList(d - 1, i.tail) == Limited(fits, Byte(RPAREN, rest), items)
    ensures ReadExtension(d, i) == Limited(fits, rest, ListExtension(items))
  {
    assert ReadNString(i) == Error;
  }

  lemma {:induction false} NumberExtensionReads(n: U32, d: nat, i: Wire, rest: Wire)
    requires U32Text(n, i, rest)
    requires Ends(rest) && d > 0
    ensures ReadExtension(d, i) == Ok(rest, NumberExtension(n))
  {
    NumberReads(n, i, rest);
    DigitIsNoNString(n, i, rest);
  }

  lemma {:induction false} DigitIsNoNString(n: nat, i: Wire, rest: Wire)
    requires NumberText(n, i, rest)
    ensures ReadNString(i) == Error
  {
    var digits :| IsNumeral(digits) && DecimalValue(digits) == n && i == Feed(digits, rest);
    assert i.Byte? && IsDigit(i.head);
    assert TagNoCase("NIL", i) == Error;
  }

  // ----- What is written is a text -----

  /** The text of a list's items from item `m` on. */
  function ItemsFrom(e: BodyExtension, tail: Wire): nat -> Wire
    requires e.ListExtension?
  {
    (m: nat) => if m < |e.items| then PutExtension(e.items[m], PutExtensions(e, m + 1, tail)) else tail
  }

  lemma {:induction false} PutExtensionIsText(e: BodyExtension, rest: Wire)
    requires GoodExtension(e)
    ensures ExtensionText(e, PutExtension(e, rest), rest)
    decreases e, 2
  {
    match e
    case NStringExtension(s) => PutNStringIsText(s, rest);
    case NumberExtension(n) => PutNatIsText(n, rest);
    case ListExtension(items) =>
      var text := PutItemsStand(e, Byte(RPAREN, rest));
      assert text(0) == PutExtension(e, rest).tail;
  }

  lemma {:induction false} PutItemsStand(e: BodyExtension, tail: Wire) returns (text: nat -> Wire)
    requires GoodExtension(e) && e.ListExtension?
    ensures ItemsStand(e, text, tail)
    ensures text(0) == PutExtension(e.items[0], PutExtensions(e, 1, tail))
    decreases e, 1
  {
    text := ItemsFrom(e, tail);
    forall m: nat {:trigger e.items[m]} | m < |e.items|
      ensures ExtensionText(e.items[m], text(m), if m + 1 < |e.items| then Byte(SP, text(m + 1)) else tail)
    {
      ItemStands(e, m, tail);
    }
  }

  lemma {:induction false} ItemStands(e: BodyExtension, m: nat, tail: Wire)
    requires GoodExtension(e) && e.ListExtension? && m < |e.items|
    ensures ExtensionText(e.items[m], ItemsFrom(e, tail)(m),
              if m + 1 < |e.items| then Byte(SP, ItemsFrom(e, tail)(m + 1)) else tail)
    decreases e, 0
  {
    PutExtensionIsText(e.items[m], PutExtensions(e, m + 1, tail));
  }

  // ----- Only texts are read -----

  lemma {:induction false} ExtensionsAreTexts(d: nat)
    ensures Accepts(ExtensionReader(d), ExtensionText)
    decreases d, 1
  {
    var p := ExtensionReader(d);
    forall i {:trigger p(i)} ensures p(i).Ok? ==> ExtensionText(p(i).value, i, p(i).rest) {
      ExtensionIsText(d, i);
    }
  }

  /** Whatever is read as an extension value is a text of it. */
  lemma {:induction false} ExtensionIsText(d: nat, i: Wire)
    ensures GivesText(ReadExtension(d, i), i)
    decreases d, 0
  {
    if d > 0 {
      ExtensionsAreTexts(d - 1);
      ListIsText(d - 1, i);
      FormsGiveText(d, i);
    }
  }

  lemma {:induction false} FormsGiveText(d: nat, i: Wire)
    requires d > 0 && GivesText(ReadListExtension(d - 1, i), i)
    ensures GivesText(ReadExtension(d, i), i)
  {
    NStringIsText(i);
    NumberIsText(i);
  }

  lemma {:induction false} ListOf(d: nat, i: Wire)
    requires ReadListExtension(d, i).Ok?
    ensures var r, list := ReadListExtension(d, i), SeparatedList1(SP, ExtensionReader(d), i.tail);
            && Starts(i, LPAREN) && list.Ok? && list.value != []
            && list.rest == Byte(RPAREN, r.rest) && r.value == ListExtension(list.value)
  {
  }

  lemma {:induction false} ListIsText(d: nat, i: Wire)
    requires Accepts(ExtensionReader(d), ExtensionText)
    ensures GivesText(ReadListExtension(d, i), i)
  {
    if ReadListExtension(d, i).Ok? {
      ListOf(d, i);
      ItemsGiveText(ExtensionReader(d), i, ReadListExtension(d, i).rest);
    }
  }

  lemma {:induction false} ItemsGiveText(p: Wire -> Outcome<BodyExtension>, i: Wire, rest: Wire)
    requires Consuming(p) && Accepts(p, ExtensionText)
    requires Starts(i, LPAREN)
    requires SeparatedList1(SP, p, i.tail).Ok? && SeparatedList1(SP, p, i.tail).rest == Byte(RPAREN, rest)
    ensures ExtensionText(ListExtension(SeparatedList1(SP, p, i.tail).value), i, rest)
  {
    var text := SeparatedListTexts(SP, p, i.tail);
    ItemsAreText(ListExtension(SeparatedList1(SP, p, i.tail).value), p, text, Byte(RPAREN, rest));
  }

  /** What was read, if anything, is a text that begins at `i`. */
  ghost predicate GivesText(o: Outcome<BodyExtension>, i: Wire) {
    o.Ok? ==> ExtensionText(o.value, i, o.rest)
  }

  lemma {:induction false} ItemsAreText(
      e: BodyExtension, p: Wire -> Outcome<BodyExtension>, text: nat -> Wire, tail: Wire)
    requires e.ListExtension? && Accepts(p, ExtensionText)
    requires ListText(SP, p, text, e.items, tail)
    ensures ItemsStand(e, text, tail)
  {
    forall m: nat {:trigger e.items[m]} | m < |e.items|
      ensures ExtensionText(e.items[m], text(m), if m + 1 < |e.items| then Byte(SP, text(m + 1)) else tail)
    {
      assert p(text(m)).Ok?;
    }
  }

  // ----- What is read is legal and within the limit -----

  predicate GoodWithin(e: BodyExtension, d: nat) {
    GoodExtension(e) && ExtensionWithin(e, d)
  }

  lemma {:induction false} ExtensionSound(d: nat)
    ensures Sound(ExtensionReader(d), (e: BodyExtension) => GoodWithin(e, d))
    decreases d
  {
    if d > 0 {
      ExtensionSound(d - 1);
    }
    forall i {:trigger ExtensionReader(d)(i)}
      ensures ExtensionReader(d)(i).Ok? ==> GoodWithin(ExtensionReader(d)(i).value, d)
    {
      if d > 0 {
        NStringIsGood(i);
        ListIsGood(d - 1, i);
      }
    }
  }

  lemma ListIsGood(d: nat, i: Wire)
    requires Sound(ExtensionReader(d), (e: BodyExtension) => GoodWithin(e, d))
    ensures ReadListExtension(d, i).Ok? ==> GoodWithin(ReadListExtension(d, i).value, d + 1)
  {
    if ReadListExtension(d, i).Ok? {
      SeparatedListSound(SP, ExtensionReader(d), i.tail, (e: BodyExtension) => GoodWithin(e, d));
    }
  }
}
