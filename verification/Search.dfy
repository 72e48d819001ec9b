/** Search keys: a recursive grammar with a limit on its nesting. */
module Search {
  import opened Octets
  import opened Nom
  import opened Strings
  import opened SequenceSets
  import opened SequenceCodec
  import opened Dates
  import opened Keywords

  type FlagWord = kw: Keyword | ShapeOf(kw) == NoArgument witness ALL
  type FieldWord = kw: Keyword | ShapeOf(kw) == AStringArgument witness BCC
  type DayWord = kw: Keyword | ShapeOf(kw) == DateArgument witness BEFORE
  type LabelWord = kw: Keyword | ShapeOf(kw) == AtomArgument witness KEYWORD
  type SizeWord = kw: Keyword | ShapeOf(kw) == NumberArgument witness LARGER

  /** The keys without arguments, with one string, one date, one atom and one number are
      grouped by their keyword. */
  datatype SearchKey =
    | Flag(flag: FlagWord)
    | Field(field: FieldWord, value: AString)
    | Day(when: DayWord, date: Date)
    | Label(what: LabelWord, atom: bytes)
    | Sized(bound: SizeWord, octets: U32)
    | Header(name: AString, value: AString)
    | Not(key: SearchKey)
    | Or(left: SearchKey, right: SearchKey)
    | Uid(set_: seq<Sequence>)
    | SequenceSet(set_: seq<Sequence>)
    | And(keys: seq<SearchKey>)

  /** What the types of the library guarantee. */
  predicate ValidKey(k: SearchKey) {
    match k
    case Flag(_) => true
    case Field(_, value) => ValidAString(value)
    case Day(_, date) => ValidDate(date)
    case Label(_, atom) => ValidAtom(atom)
    case Sized(_, _) => true
    case Header(name, value) => ValidAString(name) && ValidAString(value)
    case Not(key) => ValidKey(key)
    case Or(left, right) => ValidKey(left) && ValidKey(right)
    case Uid(set_) => set_ != []
    case SequenceSet(set_) => set_ != []
    case And(keys) => keys != [] && forall j | 0 <= j < |keys| :: ValidKey(keys[j])
  }

  /** Every literal in the key has a length of 32 bits. */
  predicate FitsKey(k: SearchKey) {
    match k
    case Field(_, value) => FitsAString(value)
    case Header(name, value) => FitsAString(name) && FitsAString(value)
    case Not(key) => FitsKey(key)
    case Or(left, right) => FitsKey(left) && FitsKey(right)
    case And(keys) => forall j | 0 <= j < |keys| :: FitsKey(keys[j])
    case _ => true
  }

  /** How deeply keys are nested. */
  function Depth(k: SearchKey): (d: nat)
    ensures d >= 1
    decreases k, 1
  {
    match k
    case Not(key) => 1 + Depth(key)
    case Or(left, right) => 1 + Max(Depth(left), Depth(right))
    case And(keys) => 1 + Deepest(k, |keys|)
    case _ => 1
  }

  /** The depth of the deepest of the first `n` keys of a conjunction. */
  function Deepest(k: SearchKey, n: nat): nat
    requires k.And? && n <= |k.keys|
    decreases k, 0, n
  {
    if n == 0 then 0 else Max(Deepest(k, n - 1), Depth(k.keys[n - 1]))
  }

  function Max(a: nat, b: nat): nat {
    if a < b then b else a
  }

  // ----- The grammar -----

  /** A keyword in any case of letters, a space, and its argument at `j`. */
  ghost predicate ArgumentAt(kw: Keyword, i: Wire, j: Wire) {
    WordText(Name(kw), i, Byte(SP, j))
  }

  /** `i` is a text of a search key, followed by `rest`. */
  ghost predicate KeyText(k: SearchKey, i: Wire, rest: Wire)
    decreases k, 1
  {
    match k
    case Flag(flag) => WordText(Name(flag), i, rest)
    case Field(field, value) => exists j :: ArgumentAt(field, i, j) && AStringText(value, j, rest)
    case Day(when, date) => exists j :: ArgumentAt(when, i, j) && DateForm(date, j, rest)
    case Label(what, atom) => exists j :: ArgumentAt(what, i, j) && AtomText(atom, j, rest)
    case Sized(bound, octets) => exists j :: ArgumentAt(bound, i, j) && NumberText(octets, j, rest)
    case Header(name, value) => exists j :: ArgumentAt(HEADER, i, j) && PairText(AStringText, AStringText, name, value, j, rest)
    case Not(key) => exists j :: ArgumentAt(NOT, i, j) && KeyText(key, j, rest)
    case Or(left, right) =>
      exists j, l :: ArgumentAt(OR, i, j) && KeyText(left, j, Byte(SP, l)) && KeyText(right, l, rest)
    case Uid(set_) => exists j :: ArgumentAt(UID, i, j) && SetText(set_, j, rest)
    case SequenceSet(set_) => SetText(set_, i, rest)
    case And(keys) =>
      && keys != [] && Starts(i, LPAREN)
      && exists text: nat -> Wire :: KeysStand(k, text, Byte(RPAREN, rest)) && text(0) == i.tail
  }

  /** The keys of a conjunction stand where `text` says, with spaces between them. */
  ghost predicate KeysStand(k: SearchKey, text: nat -> Wire, tail: Wire)
    requires k.And?
    decreases k, 0
  {
    forall m: nat {:trigger k.keys[m]} | m < |k.keys| ::
      KeyText(k.keys[m], text(m), if m + 1 < |k.keys| then Byte(SP, text(m + 1)) else tail)
  }

  // ----- Writing -----

  function PutKey(k: SearchKey, rest: Wire): Wire
    requires ValidKey(k)
    decreases k, 1
  {
    match k
    case Flag(flag) => Text(Name(flag), rest)
    case Field(field, value) => Text(Name(field), Byte(SP, PutAString(value, rest)))
    case Day(when, date) => Text(Name(when), Byte(SP, PutDate(date, rest)))
    case Label(what, atom) => Text(Name(what), Byte(SP, Feed(atom, rest)))
    case Sized(bound, octets) => Text(Name(bound), Byte(SP, PutNat(octets, rest)))
    case Header(name, value) =>
      Text(Name(HEADER), Byte(SP, PutAString(name, Byte(SP, PutAString(value, rest)))))
    case Not(key) => Text(Name(NOT), Byte(SP, PutKey(key, rest)))
    case Or(left, right) => Text(Name(OR), Byte(SP, PutKey(left, Byte(SP, PutKey(right, rest)))))
    case Uid(set_) => Text(Name(UID), Byte(SP, PutSequenceSet(set_, rest)))
    case SequenceSet(set_) => PutSequenceSet(set_, rest)
    case And(keys) => Byte(LPAREN, PutKey(keys[0], PutKeys(k, 1, Byte(RPAREN, rest))))
  }

  /** The keys of a conjunction from index `j` on, each behind a space. */
  function PutKeys(k: SearchKey, j: nat, rest: Wire): Wire
    requires k.And? && ValidKey(k) && j <= |k.keys|
    decreases k, 0, |k.keys| - j
  {
    if j == |k.keys| then rest
    else Byte(SP, PutKey(k.keys[j], PutKeys(k, j + 1, rest)))
  }

  // ----- Reading -----

  function ReadField(kw: FieldWord, i: Wire): (r: Outcome<SearchKey>)
    ensures r.Consumes(i)
  {
    ReadAString(i).Map(value => Field(kw, value))
  }

  function ReadDay(kw: DayWord, i: Wire): (r: Outcome<SearchKey>)
    ensures r.Consumes(i)
  {
    ReadDate(i).Map(date => Day(kw, date))
  }

  function ReadLabel(kw: LabelWord, i: Wire): (r: Outcome<SearchKey>)
    ensures r.Consumes(i)
  {
    ReadAtom(i).Map(atom => Label(kw, atom))
  }

  function ReadSized(kw: SizeWord, i: Wire): (r: Outcome<SearchKey>)
    ensures r.Consumes(i)
  {
    var (rest, octets) :- ReadNumber(i);
    Ok(rest, Sized(kw, octets))
  }

  function ReadHeader(i: Wire): (r: Outcome<SearchKey>)
    ensures r.Consumes(i)
  {
    var (i1, name) :- ReadAString(i);
    var (i2, _) :- Char(SP, i1);
    var (i3, value) :- ReadAString(i2);
    Ok(i3, Header(name, value))
  }

  function ReadNot(nested: Wire -> Outcome<SearchKey>, i: Wire): (r: Outcome<SearchKey>)
    requires Consuming(nested)
    ensures r.Consumes(i)
  {
    nested(i).Map(key => Not(key))
  }

  function ReadOr(nested: Wire -> Outcome<SearchKey>, i: Wire): (r: Outcome<SearchKey>)
    requires Consuming(nested)
    ensures r.Consumes(i)
  {
    var (i1, left) :- nested(i);
    var (i2, _) :- Char(SP, i1);
    var (i3, right) :- nested(i2);
    Ok(i3, Or(left, right))
  }

  function ReadUid(i: Wire): (r: Outcome<SearchKey>)
    ensures r.Consumes(i)
  {
    ReadSequenceSet(i).Map(set_ => Uid(set_))
  }

  function ReadArgument(kw: Keyword, nested: Wire -> Outcome<SearchKey>, i: Wire): (r: Outcome<SearchKey>)
    requires ShapeOf(kw) != NoArgument
    requires Consuming(nested)
    ensures r.Consumes(i)
  {
    match ShapeOf(kw)
    case AStringArgument => ReadField(kw, i)
    case DateArgument => ReadDay(kw, i)
    case AtomArgument => ReadLabel(kw, i)
    case NumberArgument => ReadSized(kw, i)
    case HeaderArguments => ReadHeader(i)
    case KeyArgument => ReadNot(nested, i)
    case TwoKeys => ReadOr(nested, i)
    case SetArgument => ReadUid(i)
  }

  function ReadArguments(kw: Keyword, nested: Wire -> Outcome<SearchKey>, i: Wire): (r: Outcome<SearchKey>)
    requires Consuming(nested)
    ensures r.Ok? ==> Size(r.rest) <= Size(i)
  {
    if ShapeOf(kw) == NoArgument then Ok(i, Flag(kw))
    else
      var (i1, _) :- Char(SP, i);
      ReadArgument(kw, nested, i1)
  }

  function ReadKeyword(kw: Keyword, nested: Wire -> Outcome<SearchKey>, i: Wire): (r: Outcome<SearchKey>)
    requires Consuming(nested)
    ensures r.Consumes(i)
  {
    var (i1, _) :- TagNoCase(Name(kw), i);
    ReadArguments(kw, nested, i1)
  }

  function ReadGroup(nested: Wire -> Outcome<SearchKey>, i: Wire): (r: Outcome<SearchKey>)
    requires Consuming(nested)
    ensures r.Consumes(i)
  {
    var (i1, _) :- Char(LPAREN, i);
    var (i2, keys) :- SeparatedList1(SP, nested, i1);
    var (i3, _) :- Char(RPAREN, i2);
    Ok(i3, And(keys))
  }

  /** What is tried when no keyword fits. */
  function ReadOther(nested: Wire -> Outcome<SearchKey>, i: Wire): (r: Outcome<SearchKey>)
    requires Consuming(nested)
    ensures r.Consumes(i)
  {
    Alt(ReadSequenceSet(i).Map(set_ => SequenceSet(set_)), ReadGroup(nested, i))
  }

  /** The alternatives from the one with keyword number `n` on. */
  function ReadFrom(n: nat, nested: Wire -> Outcome<SearchKey>, i: Wire): (r: Outcome<SearchKey>)
    requires n <= KEYWORDS
    requires Consuming(nested)
    ensures r.Consumes(i)
    decreases KEYWORDS - n, i
  {
    if n == KEYWORDS then ReadOther(nested, i)
    else Alt(ReadKeyword(KeywordAt(n), nested, i), ReadFrom(n + 1, nested, i))
  }

  /** A search key of at most `d` levels. */
  function ReadKey(d: nat, i: Wire): (r: Outcome<SearchKey>)
    ensures r.Consumes(i)
    decreases d, 0, i
  {
    if d == 0 then Failure(RecursionLimitExceeded)
    else ReadFrom(0, KeyReader(d - 1), i)
  }

  function KeyReader(d: nat): (p: Wire -> Outcome<SearchKey>)
    ensures Consuming(p)
    ensures forall i :: p(i) == ReadKey(d, i)
    decreases d, 1
  {
    (i: Wire) => ReadKey(d, i)
  }

  // ----- Reading what was written -----

  /** What a limit of `d` levels and 32-bit literal lengths make of a key, in reading order. */
  datatype Verdict = Fine | TooDeep | TooLong

  function Judge(k: SearchKey, d: nat): Verdict
    decreases k, 1
  {
    if d == 0 then TooDeep
    else
      match k
      case Not(key) => Judge(key, d - 1)
      case Or(left, right) => if Judge(left, d - 1).Fine? then Judge(right, d - 1) else Judge(left, d - 1)
      case And(keys) => JudgeFrom(k, 0, d - 1)
      case _ => if FitsKey(k) then Fine else TooLong
  }

  /** The first verdict other than `Fine` among the keys from index `j` on. */
  function JudgeFrom(k: SearchKey, j: nat, d: nat): Verdict
    requires k.And? && j <= |k.keys|
    decreases k, 0, |k.keys| - j
  {
    if j == |k.keys| then Fine
    else if Judge(k.keys[j], d).Fine? then JudgeFrom(k, j + 1, d)
    else Judge(k.keys[j], d)
  }

  function Judged(v: Verdict, k: SearchKey, rest: Wire): Outcome<SearchKey> {
    match v
    case Fine => Ok(rest, k)
    case TooDeep => Failure(RecursionLimitExceeded)
    case TooLong => Error
  }

  /** A key is read back exactly when it is not nested too deeply and its literals fit. */
  lemma {:induction false} JudgeMeaning(k: SearchKey, d: nat)
    ensures Judge(k, d) == Fine <==> Depth(k) <= d && FitsKey(k)
    ensures Depth(k) > d && FitsKey(k) ==> Judge(k, d) == TooDeep
    decreases k, 1
  {
    if d > 0 {
      match k
      case Not(key) => JudgeMeaning(key, d - 1);
      case Or(left, right) =>
        JudgeMeaning(left, d - 1);
        JudgeMeaning(right, d - 1);
      case And(keys) =>
        JudgeFromMeaning(k, 0, d - 1);
        DeepestMeaning(k, |keys|, d - 1);
      case _ =>
    }
  }

  lemma {:induction false} DeepestMeaning(k: SearchKey, n: nat, d: nat)
    requires k.And? && n <= |k.keys|
    ensures Deepest(k, n) <= d <==> forall m | 0 <= m < n :: Depth(k.keys[m]) <= d
    decreases n
  {
    if n > 0 {
      DeepestMeaning(k, n - 1, d);
    }
  }

  lemma {:induction false} JudgeFromMeaning(k: SearchKey, j: nat, d: nat)
    requires k.And? && j <= |k.keys|
    ensures JudgeFrom(k, j, d) == Fine
       <==> forall m | j <= m < |k.keys| :: Depth(k.keys[m]) <= d && FitsKey(k.keys[m])
    ensures (exists m | j <= m < |k.keys| :: Depth(k.keys[m]) > d) && FitsKey(k)
        ==> JudgeFrom(k, j, d) == TooDeep
    decreases k, 0, |k.keys| - j
  {
    if j < |k.keys| {
      JudgeMeaning(k.keys[j], d);
      JudgeFromMeaning(k, j + 1, d);
    }
  }

  predicate IsLetter(b: byte) {
    0x41 <= b <= 0x5A || 0x61 <= b <= 0x7A
  }

  lemma NameHead(kw: Keyword, i: Wire, w: Wire)
    requires WordText(Name(kw), i, w)
    ensures i.Byte? && IsLetter(i.head)
  {
    var name := Name(kw);
    NameIsUpperCase(kw);
    UpperCaseHead(name, i, w);
  }

  lemma KeywordRejects(kw: Keyword, nested: Wire -> Outcome<SearchKey>, i: Wire)
    requires Consuming(nested)
    requires i.Byte? && i.head < 0x41
    ensures ReadKeyword(kw, nested, i) == Error
  {
    var name := Name(kw);
    NameIsUpperCase(kw);
    UpperCaseRejects(name, i);
  }

  lemma KeywordReadsOther(other: Keyword, kw: Keyword, nested: Wire -> Outcome<SearchKey>, i: Wire, w: Wire)
    requires Consuming(nested)
    requires WordText(Name(kw), i, w)
    ensures ReadKeyword(other, nested, i) == if other == kw then ReadArguments(kw, nested, w) else Error
  {
    if other == kw {
      TagIsWord(Name(kw), i, w);
    } else {
      KeywordsClash(other, kw);
      WordRejects(Name(other), Name(kw), i, w);
    }
  }

  /** Neither sequence sets nor conjunctions begin with a letter. */
  lemma OtherRejects(nested: Wire -> Outcome<SearchKey>, i: Wire)
    requires Consuming(nested)
    requires i.Byte? && IsLetter(i.head)
    ensures ReadOther(nested, i) == Error
  {
    assert ReadSequence(i) == Error;
  }

  lemma {:induction false} NextKeyword(n: nat, kw: Keyword, nested: Wire -> Outcome<SearchKey>, i: Wire)
    requires n < KEYWORDS && kw == KeywordAt(n)
    requires Consuming(nested)
    ensures ReadFrom(n, nested, i) == Alt(ReadKeyword(kw, nested, i), ReadFrom(n + 1, nested, i))
  {
  }

  lemma {:induction false} StandsHere(kw: Keyword, at: nat, n: nat, other: Keyword)
    requires StandsAt(kw, at) && n < KEYWORDS && other == KeywordAt(n)
    ensures other == kw <==> n == at
  {
  }

  lemma {:induction false} KeywordStep(
      other: Keyword, kw: Keyword, nested: Wire -> Outcome<SearchKey>, i: Wire, w: Wire, later: Outcome<SearchKey>)
    requires Consuming(nested)
    requires WordText(Name(kw), i, w)
    ensures Alt(ReadKeyword(other, nested, i), later)
         == if other == kw then Alt(ReadArguments(kw, nested, w), later) else later
  {
    KeywordReadsOther(other, kw, nested, i, w);
  }

  lemma {:induction false} NoOther(n: nat, kw: Keyword, nested: Wire -> Outcome<SearchKey>, i: Wire, w: Wire)
    requires n == KEYWORDS && Consuming(nested)
    requires WordText(Name(kw), i, w)
    ensures ReadFrom(n, nested, i) == Error
  {
    NameHead(kw, i, w);
    OtherRejects(nested, i);
  }

  /** A keyword selects its own alternative, wherever it stands in the order. */
  lemma {:induction false} KeywordReads(
      n: nat, at: nat, kw: Keyword, nested: Wire -> Outcome<SearchKey>, i: Wire, w: Wire)
    requires n <= KEYWORDS && StandsAt(kw, at)
    requires Consuming(nested)
    requires WordText(Name(kw), i, w)
    ensures ReadFrom(n, nested, i) == if n <= at then ReadArguments(kw, nested, w) else Error
    decreases KEYWORDS - n
  {
    if n == KEYWORDS {
      NoOther(n, kw, nested, i, w);
    } else {
      var other := KeywordAt(n);
      NextKeyword(n, other, nested, i);
      StandsHere(kw, at, n, other);
      KeywordReads(n + 1, at, kw, nested, i, w);
      KeywordStep(other, kw, nested, i, w, ReadFrom(n + 1, nested, i));
    }
  }

  /** No keyword begins with anything but a letter. */
  lemma {:induction false} NoKeyword(n: nat, nested: Wire -> Outcome<SearchKey>, i: Wire)
    requires n <= KEYWORDS
    requires Consuming(nested)
    requires i.Byte? && i.head < 0x41
    ensures ReadFrom(n, nested, i) == ReadOther(nested, i)
    decreases KEYWORDS - n
  {
    if n < KEYWORDS {
      var kw := KeywordAt(n);
      NextKeyword(n, kw, nested, i);
      NoKeyword(n + 1, nested, i);
      KeywordRejects(kw, nested, i);
    }
  }

  lemma WordReads(kw: Keyword, nested: Wire -> Outcome<SearchKey>, i: Wire, w: Wire)
    requires Consuming(nested)
    requires WordText(Name(kw), i, w)
    ensures ReadFrom(0, nested, i) == ReadArguments(kw, nested, w)
  {
    Positions(kw);
    KeywordReads(0, Position(kw), kw, nested, i, w);
  }

  lemma AtArgument(kw: Keyword, nested: Wire -> Outcome<SearchKey>, i: Wire, j: Wire)
    requires Consuming(nested)
    requires ArgumentAt(kw, i, j) && ShapeOf(kw) != NoArgument
    ensures ReadFrom(0, nested, i) == ReadArgument(kw, nested, j)
  {
    WordReads(kw, nested, i, Byte(SP, j));
  }

  lemma {:induction false} HeaderReads(name: AString, value: AString, i: Wire, rest: Wire)
    requires PairText(AStringText, AStringText, name, value, i, rest)
    requires Delimited(rest)
    ensures ReadHeader(i) == if FitsAString(name) && FitsAString(value) then Ok(rest, Header(name, value)) else Error
  {
    var j :| AStringText(name, i, Byte(SP, j)) && AStringText(value, j, rest);
    AStringReads(name, i, Byte(SP, j));
    AStringReads(value, j, rest);
  }

  predicate IsLeaf(k: SearchKey) {
    !k.Not? && !k.Or? && !k.And?
  }

  /** What reading a key without nested keys comes to. */
  ghost predicate LeafReads(k: SearchKey, nested: Wire -> Outcome<SearchKey>, i: Wire, rest: Wire)
    requires Consuming(nested)
  {
    ReadFrom(0, nested, i) == if FitsKey(k) then Ok(rest, k) else Error
  }

  lemma FlagReads(k: SearchKey, nested: Wire -> Outcome<SearchKey>, i: Wire, rest: Wire)
    requires k.Flag? && KeyText(k, i, rest)
    requires Consuming(nested)
    ensures LeafReads(k, nested, i, rest)
  {
    WordReads(k.flag, nested, i, rest);
  }

  lemma {:induction false} FieldReads(k: SearchKey, nested: Wire -> Outcome<SearchKey>, i: Wire, rest: Wire)
    requires k.Field? && KeyText(k, i, rest)
    requires Consuming(nested)
    requires Delimited(rest)
    ensures LeafReads(k, nested, i, rest)
  {
    var j :| ArgumentAt(k.field, i, j) && AStringText(k.value, j, rest);
    AtArgument(k.field, nested, i, j);
    AStringReads(k.value, j, rest);
  }

  lemma {:induction false} DayReads(k: SearchKey, nested: Wire -> Outcome<SearchKey>, i: Wire, rest: Wire)
    requires k.Day? && KeyText(k, i, rest)
    requires Consuming(nested)
    ensures LeafReads(k, nested, i, rest)
  {
    var j :| ArgumentAt(k.when, i, j) && DateForm(k.date, j, rest);
    AtArgument(k.when, nested, i, j);
    DateReads(k.date, j, rest);
  }

  lemma {:induction false} LabelReads(k: SearchKey, nested: Wire -> Outcome<SearchKey>, i: Wire, rest: Wire)
    requires k.Label? && KeyText(k, i, rest)
    requires Consuming(nested)
    requires Delimited(rest)
    ensures LeafReads(k, nested, i, rest)
  {
    var j :| ArgumentAt(k.what, i, j) && AtomText(k.atom, j, rest);
    AtArgument(k.what, nested, i, j);
    AtomReads(k.atom, j, rest);
  }

  lemma {:induction false} SizedReads(k: SearchKey, nested: Wire -> Outcome<SearchKey>, i: Wire, rest: Wire)
    requires k.Sized? && KeyText(k, i, rest)
    requires Consuming(nested)
    requires Delimited(rest)
    ensures LeafReads(k, nested, i, rest)
  {
    var j :| ArgumentAt(k.bound, i, j) && NumberText(k.octets, j, rest);
    AtArgument(k.bound, nested, i, j);
    NumberReads(k.octets, j, rest);
  }

  lemma ArgumentReads(
      kw: Keyword, nested: Wire -> Outcome<SearchKey>, i: Wire, w: Wire, expected: Outcome<SearchKey>)
    requires Consuming(nested)
    requires ArgumentAt(kw, i, w)
    requires ShapeOf(kw) in {HeaderArguments, KeyArgument, TwoKeys, SetArgument}
    requires match ShapeOf(kw)
             case HeaderArguments => ReadHeader(w) == expected
             case KeyArgument => ReadNot(nested, w) == expected
             case TwoKeys => ReadOr(nested, w) == expected
             case _ => ReadUid(w) == expected
    ensures ReadFrom(0, nested, i) == expected
  {
    AtArgument(kw, nested, i, w);
  }

  lemma {:induction false} HeaderKeyReads(k: SearchKey, nested: Wire -> Outcome<SearchKey>, i: Wire, rest: Wire)
    requires k.Header? && KeyText(k, i, rest)
    requires Consuming(nested)
    requires Delimited(rest)
    ensures LeafReads(k, nested, i, rest)
  {
    var kw, j := HeaderAt(k, i, rest);
    HeaderReads(k.name, k.value, j, rest);
    ArgumentReads(kw, nested, i, j, if FitsKey(k) then Ok(rest, k) else Error);
  }

  lemma {:induction false} HeaderAt(k: SearchKey, i: Wire, rest: Wire) returns (kw: Keyword, j: Wire)
    requires k.Header? && KeyText(k, i, rest)
    ensures ShapeOf(kw) == HeaderArguments && ArgumentAt(kw, i, j)
    ensures PairText(AStringText, AStringText, k.name, k.value, j, rest)
  {
    kw := HEADER;
    j :| ArgumentAt(kw, i, j) && PairText(AStringText, AStringText, k.name, k.value, j, rest);
  }

  lemma UidArgument(set_: seq<Sequence>, i: Wire, rest: Wire)
    requires SetText(set_, i, rest) && Delimited(rest)
    ensures ReadUid(i) == Ok(rest, Uid(set_))
  {
    SetReads(set_, i, rest);
  }

  lemma {:induction false} UidReads(k: SearchKey, nested: Wire -> Outcome<SearchKey>, i: Wire, rest: Wire)
    requires k.Uid? && KeyText(k, i, rest)
    requires Consuming(nested)
    requires Delimited(rest)
    ensures LeafReads(k, nested, i, rest)
  {
    var kw, j := UidAt(k, i, rest);
    UidArgument(k.set_, j, rest);
    ArgumentReads(kw, nested, i, j, Ok(rest, k));
  }

  lemma {:induction false} UidAt(k: SearchKey, i: Wire, rest: Wire) returns (kw: Keyword, j: Wire)
    requires k.Uid? && KeyText(k, i, rest)
    ensures ShapeOf(kw) == SetArgument && ArgumentAt(kw, i, j) && SetText(k.set_, j, rest)
  {
    kw := UID;
    j :| ArgumentAt(UID, i, j) && SetText(k.set_, j, rest);
  }

  lemma NumberHead(n: nat, i: Wire, rest: Wire)
    requires NumberText(n, i, rest)
    ensures i.Byte? && IsDigit(i.head)
  {
    var digits :| IsNumeral(digits) && DecimalValue(digits) == n && i == Feed(digits, rest);
  }

  lemma SeqNumberHead(a: SeqOrUid, i: Wire, rest: Wire)
    requires SeqNumberText(a, i, rest)
    ensures i.Byte? && i.head < 0x41
  {
    if a.Value? {
      NumberHead(a.number, i, rest);
    }
  }

  /** Sequence sets begin with a digit or `*`. */
  lemma SetHead(set_: seq<Sequence>, i: Wire, rest: Wire)
    requires SetText(set_, i, rest)
    ensures i.Byte? && i.head < 0x41
  {
    var text: nat -> Wire :| StandsSeparated(COMMA, SequenceText, set_, text, rest) && text(0) == i;
    var next := if 1 < |set_| then Byte(COMMA, text(1)) else rest;
    assert SequenceText(set_[0], i, next);
    match set_[0]
    case Single(a) => SeqNumberHead(a, i, next);
    case Range(a, b) =>
      var j :| SeqNumberText(a, i, Byte(COLON, j)) && SeqNumberText(b, j, next);
      SeqNumberHead(a, i, Byte(COLON, j));
  }

  lemma {:induction false} SetKeyReads(k: SearchKey, nested: Wire -> Outcome<SearchKey>, i: Wire, rest: Wire)
    requires k.SequenceSet? && KeyText(k, i, rest)
    requires Consuming(nested)
    requires Delimited(rest)
    ensures LeafReads(k, nested, i, rest)
  {
    SetReads(k.set_, i, rest);
    SetHead(k.set_, i, rest);
    NoKeyword(0, nested, i);
  }

  lemma LeafRoundTrip(k: SearchKey, nested: Wire -> Outcome<SearchKey>, i: Wire, rest: Wire)
    requires IsLeaf(k) && KeyText(k, i, rest)
    requires Consuming(nested)
    requires Delimited(rest)
    ensures LeafReads(k, nested, i, rest)
  {
    match k
    case Flag(_) => FlagReads(k, nested, i, rest);
    case Field(_, _) => FieldReads(k, nested, i, rest);
    case Day(_, _) => DayReads(k, nested, i, rest);
    case Label(_, _) => LabelReads(k, nested, i, rest);
    case Sized(_, _) => SizedReads(k, nested, i, rest);
    case Header(_, _) => HeaderKeyReads(k, nested, i, rest);
    case Uid(_) => UidReads(k, nested, i, rest);
    case SequenceSet(_) => SetKeyReads(k, nested, i, rest);
  }

  /** What a reader with a limit of `d` levels makes of a text of a key. */
  ghost predicate ReadsKey(k: SearchKey, d: nat, i: Wire, rest: Wire) {
    ReadKey(d, i) == Judged(Judge(k, d), k, rest)
  }

  lemma NotArgument(
      k: SearchKey, v: Verdict, nested: Wire -> Outcome<SearchKey>, i: Wire, j: Wire, rest: Wire)
    requires k.Not?
    requires Consuming(nested)
    requires ArgumentAt(NOT, i, j)
    requires nested(j) == Judged(v, k.key, rest)
    ensures ReadFrom(0, nested, i) == Judged(v, k, rest)
  {
    ArgumentReads(NOT, nested, i, j, Judged(v, k, rest));
  }

  lemma OrArgument(
      k: SearchKey, v: Verdict, w: Verdict, nested: Wire -> Outcome<SearchKey>, i: Wire, j: Wire, l: Wire, rest: Wire)
    requires k.Or?
    requires Consuming(nested)
    requires ArgumentAt(OR, i, j)
    requires nested(j) == Judged(v, k.left, Byte(SP, l))
    requires nested(l) == Judged(w, k.right, rest)
    ensures ReadFrom(0, nested, i) == Judged(if v.Fine? then w else v, k, rest)
  {
    ArgumentReads(OR, nested, i, j, Judged(if v.Fine? then w else v, k, rest));
  }

  /** What is to come of a key of a conjunction. */
  function NextOutcome(k: SearchKey, d: nat, m: nat, text: nat -> Wire, tail: Wire): Outcome<SearchKey>
    requires k.And? && m < |k.keys|
  {
    Judged(Judge(k.keys[m], d), k.keys[m], if m + 1 < |k.keys| then Byte(SP, text(m + 1)) else tail)
  }

  /** How a reader takes each key of a conjunction. */
  ghost predicate ReadsEach(k: SearchKey, d: nat, nested: Wire -> Outcome<SearchKey>, text: nat -> Wire, tail: Wire)
    requires k.And?
  {
    forall m: nat {:trigger nested(text(m))} | m < |k.keys| :: nested(text(m)) == NextOutcome(k, d, m, text, tail)
  }

  /** The first key that is not fine decides. */
  lemma {:induction false} FirstBad(k: SearchKey, j: nat, d: nat) returns (bad: nat)
    requires k.And? && j <= |k.keys|
    ensures j <= bad <= |k.keys|
    ensures forall m: nat | j <= m < bad :: Judge(k.keys[m], d) == Fine
    ensures JudgeFrom(k, j, d) == if bad < |k.keys| then Judge(k.keys[bad], d) else Fine
    ensures bad < |k.keys| ==> JudgeFrom(k, j, d) != Fine
    decreases |k.keys| - j
  {
    bad := j;
    if j < |k.keys| && Judge(k.keys[j], d).Fine? {
      bad := FirstBad(k, j + 1, d);
    }
  }

  lemma KeysRead(k: SearchKey, d: nat, nested: Wire -> Outcome<SearchKey>, text: nat -> Wire, tail: Wire)
    requires k.And? && k.keys != []
    requires Consuming(nested)
    requires tail.Byte? && tail.head != SP
    requires ReadsEach(k, d, nested, text, tail)
    ensures var r := SeparatedList1(SP, nested, text(0));
            match JudgeFrom(k, 0, d)
            case Fine => r == Ok(tail, k.keys)
            case TooDeep => r == Failure(RecursionLimitExceeded)
            case TooLong => r == Error || (r.Ok? && r.rest.Byte? && r.rest.head == SP)
  {
    var bad := FirstBad(k, 0, d);
    if bad == |k.keys| {
      SeparatedListReads(SP, nested, text, k.keys, tail);
    } else {
      assert nested(text(bad)) == Judged(Judge(k.keys[bad], d), k.keys[bad],
               if bad + 1 < |k.keys| then Byte(SP, text(bad + 1)) else tail);
      if Judge(k.keys[bad], d).TooDeep? {
        SeparatedListFails(SP, nested, text, k.keys, bad, RecursionLimitExceeded);
      } else {
        SeparatedListStops(SP, nested, text, k.keys, bad);
      }
    }
  }

  lemma {:induction false} GroupReads(k: SearchKey, d: nat, nested: Wire -> Outcome<SearchKey>, text: nat -> Wire, rest: Wire)
    requires k.And? && k.keys != []
    requires Consuming(nested)
    requires ReadsEach(k, d, nested, text, Byte(RPAREN, rest))
    ensures ReadGroup(nested, Byte(LPAREN, text(0))) == Judged(JudgeFrom(k, 0, d), k, rest)
  {
    KeysRead(k, d, nested, text, Byte(RPAREN, rest));
  }

  /** Nothing but a conjunction begins with a parenthesis. */
  lemma {:induction false} GroupDecides(nested: Wire -> Outcome<SearchKey>, i: Wire)
    requires Consuming(nested)
    ensures ReadFrom(0, nested, Byte(LPAREN, i)) == ReadGroup(nested, Byte(LPAREN, i))
  {
    NoKeyword(0, nested, Byte(LPAREN, i));
  }

  lemma {:induction false} AndGroup(k: SearchKey, d: nat, nested: Wire -> Outcome<SearchKey>, text: nat -> Wire, rest: Wire)
    requires k.And? && k.keys != []
    requires Consuming(nested)
    requires ReadsEach(k, d, nested, text, Byte(RPAREN, rest))
    ensures ReadFrom(0, nested, Byte(LPAREN, text(0))) == Judged(JudgeFrom(k, 0, d), k, rest)
  {
    GroupReads(k, d, nested, text, rest);
    GroupDecides(nested, text(0));
  }

  /** The outcome on any text of a key, whatever follows it that cannot continue its last token:
      the key itself, or the first thing wrong with it. */
  lemma {:induction false} KeyReads(k: SearchKey, d: nat, i: Wire, rest: Wire)
    requires KeyText(k, i, rest)
    requires Delimited(rest)
    ensures ReadsKey(k, d, i, rest)
    decreases k, 3
  {
    if d > 0 {
      if k.Not? {
        NotReads(k, d, i, rest);
      } else if k.Or? {
        OrReads(k, d, i, rest);
      } else if k.And? {
        AndReads(k, d, i, rest);
      } else {
        LeafKeyReads(k, d, i, rest);
      }
    }
  }

  lemma {:induction false} LeafKeyReads(k: SearchKey, d: nat, i: Wire, rest: Wire)
    requires IsLeaf(k) && KeyText(k, i, rest) && d > 0
    requires Delimited(rest)
    ensures ReadsKey(k, d, i, rest)
  {
    LeafRoundTrip(k, KeyReader(d - 1), i, rest);
  }

  lemma {:induction false} NotReads(k: SearchKey, d: nat, i: Wire, rest: Wire)
    requires k.Not? && KeyText(k, i, rest) && d > 0
    requires Delimited(rest)
    ensures ReadsKey(k, d, i, rest)
    decreases k, 2
  {
    var j :| ArgumentAt(NOT, i, j) && KeyText(k.key, j, rest);
    KeyReads(k.key, d - 1, j, rest);
    NotArgument(k, Judge(k.key, d - 1), KeyReader(d - 1), i, j, rest);
  }

  lemma {:induction false} OrReads(k: SearchKey, d: nat, i: Wire, rest: Wire)
    requires k.Or? && KeyText(k, i, rest) && d > 0
    requires Delimited(rest)
    ensures ReadsKey(k, d, i, rest)
    decreases k, 2
  {
    var j, l :| ArgumentAt(OR, i, j) && KeyText(k.left, j, Byte(SP, l)) && KeyText(k.right, l, rest);
    KeyReads(k.left, d - 1, j, Byte(SP, l));
    KeyReads(k.right, d - 1, l, rest);
    OrArgument(k, Judge(k.left, d - 1), Judge(k.right, d - 1), KeyReader(d - 1), i, j, l, rest);
  }

  lemma {:induction false} AndReads(k: SearchKey, d: nat, i: Wire, rest: Wire)
    requires k.And? && KeyText(k, i, rest) && d > 0
    requires Delimited(rest)
    ensures ReadsKey(k, d, i, rest)
    decreases k, 2
  {
    var text: nat -> Wire :| KeysStand(k, text, Byte(RPAREN, rest)) && text(0) == i.tail;
    EachKeyReads(k, d - 1, text, Byte(RPAREN, rest));
    AndGroup(k, d - 1, KeyReader(d - 1), text, rest);
    assert i == Byte(LPAREN, text(0));
  }

  lemma {:induction false} EachKeyReads(k: SearchKey, d: nat, text: nat -> Wire, tail: Wire)
    requires k.And? && KeysStand(k, text, tail)
    requires Delimited(tail)
    ensures ReadsEach(k, d, KeyReader(d), text, tail)
    decreases k, 1
  {
    forall m: nat | m < |k.keys|
      ensures KeyReader(d)(text(m)) == NextOutcome(k, d, m, text, tail)
    {
      NextKeyReads(k, d, m, text, tail);
    }
  }

  lemma {:induction false} NextKeyReads(k: SearchKey, d: nat, m: nat, text: nat -> Wire, tail: Wire)
    requires k.And? && KeysStand(k, text, tail)
    requires Delimited(tail) && m < |k.keys|
    ensures KeyReader(d)(text(m)) == NextOutcome(k, d, m, text, tail)
    decreases k, 0
  {
    var p, key, i, next := KeyReader(d), k.keys[m], text(m), if m + 1 < |k.keys| then Byte(SP, text(m + 1)) else tail;
    assert p(i) == ReadKey(d, i);
    KeyReads(key, d, i, next);
  }

  // ----- What is written is a text -----

  /** The text of a conjunction's keys from key `m` on. */
  function KeysFrom(k: SearchKey, tail: Wire): nat -> Wire
    requires k.And? && ValidKey(k)
  {
    (m: nat) => if m < |k.keys| then PutKey(k.keys[m], PutKeys(k, m + 1, tail)) else tail
  }

  lemma KeysTail(k: SearchKey, j: nat, tail: Wire)
    requires k.And? && ValidKey(k) && j <= |k.keys|
    ensures PutKeys(k, j, tail) == if j < |k.keys| then Byte(SP, KeysFrom(k, tail)(j)) else tail
  {
  }

  lemma {:induction false} PutKeyIsText(k: SearchKey, rest: Wire)
    requires ValidKey(k)
    ensures KeyText(k, PutKey(k, rest), rest)
    decreases k, 2
  {
    match k
    case Not(key) =>
      PutKeyIsText(key, rest);
      TextIsWord(Name(NOT), Byte(SP, PutKey(key, rest)));
      assert ArgumentAt(NOT, PutKey(k, rest), PutKey(key, rest));
    case Or(left, right) =>
      var l := PutKey(right, rest);
      PutKeyIsText(right, rest);
      PutKeyIsText(left, Byte(SP, l));
      TextIsWord(Name(OR), Byte(SP, PutKey(left, Byte(SP, l))));
      assert ArgumentAt(OR, PutKey(k, rest), PutKey(left, Byte(SP, l)));
    case And(_) =>
      var text := PutKeysStand(k, Byte(RPAREN, rest));
      assert text(0) == PutKey(k, rest).tail;
    case _ => PutLeafIsText(k, rest);
  }

  lemma {:induction false} PutKeysStand(k: SearchKey, tail: Wire) returns (text: nat -> Wire)
    requires k.And? && ValidKey(k)
    ensures KeysStand(k, text, tail)
    ensures text(0) == PutKey(k.keys[0], PutKeys(k, 1, tail))
    decreases k, 1
  {
    text := KeysFrom(k, tail);
    forall m: nat {:trigger k.keys[m]} | m < |k.keys|
      ensures KeyText(k.keys[m], text(m), if m + 1 < |k.keys| then Byte(SP, text(m + 1)) else tail)
    {
      KeyStands(k, m, tail);
    }
  }

  lemma {:induction false} KeyPlaced(k: SearchKey, m: nat, tail: Wire)
    requires k.And? && ValidKey(k) && m < |k.keys|
    ensures KeysFrom(k, tail)(m) == PutKey(k.keys[m], PutKeys(k, m + 1, tail))
  {
  }

  lemma {:induction false} KeyStands(k: SearchKey, m: nat, tail: Wire)
    requires k.And? && ValidKey(k) && m < |k.keys|
    ensures KeyText(k.keys[m], KeysFrom(k, tail)(m),
              if m + 1 < |k.keys| then Byte(SP, KeysFrom(k, tail)(m + 1)) else tail)
    decreases k, 0
  {
    var key, next := k.keys[m], PutKeys(k, m + 1, tail);
    PutKeyIsText(key, next);
    KeyPlaced(k, m, tail);
    KeysTail(k, m + 1, tail);
  }

  lemma ArgumentIsAt(kw: Keyword, j: Wire)
    ensures ArgumentAt(kw, Text(Name(kw), Byte(SP, j)), j)
  {
    TextIsWord(Name(kw), Byte(SP, j));
  }

  lemma {:induction false} PutLeafIsText(k: SearchKey, rest: Wire)
    requires ValidKey(k) && IsLeaf(k)
    ensures KeyText(k, PutKey(k, rest), rest)
  {
    match k
    case Flag(flag) => TextIsWord(Name(flag), rest);
    case Field(field, value) =>
      PutAStringIsText(value, rest);
      ArgumentIsAt(field, PutAString(value, rest));
    case Day(when, date) =>
      PutDateIsText(date, rest);
      ArgumentIsAt(when, PutDate(date, rest));
    case Label(what, atom) =>
      assert AtomText(atom, Feed(atom, rest), rest);
      ArgumentIsAt(what, Feed(atom, rest));
    case Sized(bound, octets) =>
      PutNatIsText(octets, rest);
      ArgumentIsAt(bound, PutNat(octets, rest));
    case Header(name, value) =>
      var j := PutAString(value, rest);
      PutAStringIsText(value, rest);
      PutAStringIsText(name, Byte(SP, j));
      assert PairText(AStringText, AStringText, name, value, PutAString(name, Byte(SP, j)), rest);
      ArgumentIsAt(HEADER, PutAString(name, Byte(SP, j)));
    case Uid(set_) =>
      PutSetIsText(set_, rest);
      ArgumentIsAt(UID, PutSequenceSet(set_, rest));
    case SequenceSet(set_) => PutSetIsText(set_, rest);
  }

  /** Encoding a key and reading it back gives the key exactly when it is nested at most
      `d` levels deep and its literals have 32-bit lengths; a key whose literals fit but which
      is nested more deeply is refused with the recursion limit. */
  lemma SearchKeyRoundTrip(k: SearchKey, d: nat, rest: Wire)
    requires ValidKey(k)
    requires Delimited(rest)
    ensures ReadKey(d, PutKey(k, rest)) == Ok(rest, k) <==> Depth(k) <= d && FitsKey(k)
    ensures Depth(k) > d && FitsKey(k) ==> ReadKey(d, PutKey(k, rest)) == Failure(RecursionLimitExceeded)
  {
    PutKeyIsText(k, rest);
    KeyReads(k, d, PutKey(k, rest), rest);
    JudgeMeaning(k, d);
  }

  // ----- Stability -----

  lemma HeaderStable(i: Wire, q: Wire)
    ensures Extends(ReadHeader(i), ReadHeader(Join(i, q)), q)
  {
    AStringStable(i, q);
    if ReadAString(i).Ok? {
      var i1 := ReadAString(i).rest;
      CharStable(SP, i1, q);
      if Char(SP, i1).Ok? {
        AStringStable(Char(SP, i1).rest, q);
      }
    }
  }

  lemma {:induction false} FieldStable(kw: FieldWord, i: Wire, q: Wire)
    ensures Extends(ReadField(kw, i), ReadField(kw, Join(i, q)), q)
  {
    AStringStable(i, q);
  }

  lemma {:induction false} DayStable(kw: DayWord, i: Wire, q: Wire)
    ensures Extends(ReadDay(kw, i), ReadDay(kw, Join(i, q)), q)
  {
    DateStable(i, q);
  }

  lemma {:induction false} LabelStable(kw: LabelWord, i: Wire, q: Wire)
    ensures Extends(ReadLabel(kw, i), ReadLabel(kw, Join(i, q)), q)
  {
    AtomStable(i, q);
  }

  lemma {:induction false} SizedStable(kw: SizeWord, i: Wire, q: Wire)
    ensures Extends(ReadSized(kw, i), ReadSized(kw, Join(i, q)), q)
  {
    NumberStable(i, q);
  }

  lemma {:induction false} UidStable(i: Wire, q: Wire)
    ensures Extends(ReadUid(i), ReadUid(Join(i, q)), q)
  {
    SequenceSetStable(i, q);
  }

  lemma {:induction false} NotStable(nested: Wire -> Outcome<SearchKey>, i: Wire, q: Wire)
    requires Consuming(nested) && Stable(nested)
    ensures Extends(ReadNot(nested, i), ReadNot(nested, Join(i, q)), q)
  {
    assert Extends(nested(i), nested(Join(i, q)), q);
  }

  lemma {:induction false} OrStable(nested: Wire -> Outcome<SearchKey>, i: Wire, q: Wire)
    requires Consuming(nested) && Stable(nested)
    ensures Extends(ReadOr(nested, i), ReadOr(nested, Join(i, q)), q)
  {
    assert Extends(nested(i), nested(Join(i, q)), q);
    if nested(i).Ok? {
      var i1 := nested(i).rest;
      CharStable(SP, i1, q);
      if Char(SP, i1).Ok? {
        var i2 := Char(SP, i1).rest;
        assert Extends(nested(i2), nested(Join(i2, q)), q);
      }
    }
  }

  lemma {:induction false} ArgumentStable(kw: Keyword, nested: Wire -> Outcome<SearchKey>, i: Wire, q: Wire)
    requires ShapeOf(kw) != NoArgument
    requires Consuming(nested) && Stable(nested)
    ensures Extends(ReadArgument(kw, nested, i), ReadArgument(kw, nested, Join(i, q)), q)
  {
    match ShapeOf(kw)
    case KeyArgument => NotStable(nested, i, q);
    case TwoKeys => OrStable(nested, i, q);
    case _ => LeafArgumentStable(kw, nested, i, q);
  }

  lemma {:induction false} LeafArgumentStable(kw: Keyword, nested: Wire -> Outcome<SearchKey>, i: Wire, q: Wire)
    requires ShapeOf(kw) !in {NoArgument, KeyArgument, TwoKeys}
    requires Consuming(nested)
    ensures Extends(ReadArgument(kw, nested, i), ReadArgument(kw, nested, Join(i, q)), q)
  {
    match ShapeOf(kw)
    case AStringArgument => FieldStable(kw, i, q);
    case DateArgument => DayStable(kw, i, q);
    case AtomArgument => LabelStable(kw, i, q);
    case NumberArgument => SizedStable(kw, i, q);
    case HeaderArguments => HeaderStable(i, q);
    case SetArgument => UidStable(i, q);
  }

  lemma {:induction false} KeywordStable(kw: Keyword, nested: Wire -> Outcome<SearchKey>, i: Wire, q: Wire)
    requires Consuming(nested) && Stable(nested)
    ensures Extends(ReadKeyword(kw, nested, i), ReadKeyword(kw, nested, Join(i, q)), q)
  {
    TagStable(Name(kw), i, q);
    if TagNoCase(Name(kw), i).Ok? && ShapeOf(kw) != NoArgument {
      var i1 := TagNoCase(Name(kw), i).rest;
      CharStable(SP, i1, q);
      if Char(SP, i1).Ok? {
        ArgumentStable(kw, nested, Char(SP, i1).rest, q);
      }
    }
  }

  lemma GroupStable(nested: Wire -> Outcome<SearchKey>, i: Wire, q: Wire)
    requires Consuming(nested) && Stable(nested)
    ensures Extends(ReadGroup(nested, i), ReadGroup(nested, Join(i, q)), q)
  {
    CharStable(LPAREN, i, q);
    if Char(LPAREN, i).Ok? {
      var i1 := Char(LPAREN, i).rest;
      SeparatedList1Stable(SP, nested, i1, q);
      if SeparatedList1(SP, nested, i1).Ok? {
        CharStable(RPAREN, SeparatedList1(SP, nested, i1).rest, q);
      }
    }
  }

  lemma OtherStable(nested: Wire -> Outcome<SearchKey>, i: Wire, q: Wire)
    requires Consuming(nested) && Stable(nested)
    ensures Extends(ReadOther(nested, i), ReadOther(nested, Join(i, q)), q)
  {
    SequenceSetStable(i, q);
    GroupStable(nested, i, q);
  }

  lemma {:induction false} FromStable(n: nat, nested: Wire -> Outcome<SearchKey>, i: Wire, j: Wire, q: Wire)
    requires n <= KEYWORDS
    requires Consuming(nested) && Stable(nested) && j == Join(i, q)
    ensures Extends(ReadFrom(n, nested, i), ReadFrom(n, nested, j), q)
    decreases KEYWORDS - n
  {
    if n == KEYWORDS {
      OtherStable(nested, i, q);
    } else {
      FromStable(n + 1, nested, i, j, q);
      StepStable(KeywordAt(n), nested, i, j, q, ReadFrom(n + 1, nested, i), ReadFrom(n + 1, nested, j));
    }
  }

  lemma {:induction false} StepStable(
      kw: Keyword, nested: Wire -> Outcome<SearchKey>, i: Wire, j: Wire, q: Wire,
      later: Outcome<SearchKey>, later': Outcome<SearchKey>)
    requires Consuming(nested) && Stable(nested) && j == Join(i, q) && Extends(later, later', q)
    ensures Extends(Alt(ReadKeyword(kw, nested, i), later), Alt(ReadKeyword(kw, nested, j), later'), q)
  {
    KeywordStable(kw, nested, i, q);
    AltStable(ReadKeyword(kw, nested, i), ReadKeyword(kw, nested, j), later, later', q);
  }

  /** What a search-key reader accepts, refuses or fails on with anything but a request for
      literal data stays so when more bytes arrive. */
  lemma {:induction false} SearchKeyStable(d: nat)
    ensures Stable(KeyReader(d))
  {
    if d > 0 {
      SearchKeyStable(d - 1);
    }
    var p := KeyReader(d);
    forall i, q {:trigger p(Join(i, q))} ensures Extends(p(i), p(Join(i, q)), q) {
      if d > 0 {
        FromStable(0, KeyReader(d - 1), i, Join(i, q), q);
      }
    }
  }
}
