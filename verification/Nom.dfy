/** A streaming parser core: four outcomes, and the combinators the grammar uses. */
module Nom {
  import opened Octets

  /** Bytes on the wire, taken one by one from the front. */
  datatype Wire = End | Byte(head: byte, tail: Wire)

  function Size(w: Wire): nat {
    match w
    case End => 0
    case Byte(_, tail) => 1 + Size(tail)
  }

  /** The bytes of `s` from index `k` on, followed by `rest`. */
  function FeedFrom(s: bytes, k: nat, rest: Wire): Wire
    requires k <= |s|
    decreases |s| - k
  {
    if k == |s| then rest else Byte(s[k], FeedFrom(s, k + 1, rest))
  }

  function Feed(s: bytes, rest: Wire): Wire {
    FeedFrom(s, 0, rest)
  }

  /** The octets of an ASCII text from index `k` on, followed by `rest`. */
  function TextFrom(t: string, k: nat, rest: Wire): Wire
    requires k <= |t|
    decreases |t| - k, rest
  {
    if k == |t| then rest else Byte(Octet(t[k]), TextFrom(t, k + 1, rest))
  }

  function Text(t: string, rest: Wire): Wire {
    TextFrom(t, 0, rest)
  }

  /** More bytes arriving behind the ones that are there. */
  function Join(w: Wire, more: Wire): Wire {
    match w
    case End => more
    case Byte(b, tail) => Byte(b, Join(tail, more))
  }

  /** The bytes of a wire. */
  function Bytes(w: Wire): bytes {
    match w
    case End => []
    case Byte(b, tail) => [b] + Bytes(tail)
  }

  lemma {:induction false} BytesFrom(s: bytes, k: nat, rest: Wire)
    requires k <= |s|
    ensures Bytes(FeedFrom(s, k, rest)) == s[k..] + Bytes(rest)
    decreases |s| - k
  {
    if k < |s| {
      BytesFrom(s, k + 1, rest);
      assert s[k..] == [s[k]] + s[k + 1..];
    } else {
      assert s[k..] + Bytes(rest) == Bytes(rest);
    }
  }

  lemma {:induction false} BytesDetermine(a: Wire, b: Wire)
    requires Bytes(a) == Bytes(b)
    ensures a == b
  {
    if a.Byte? && b.Byte? {
      assert Bytes(a)[0] == a.head && Bytes(a)[1..] == Bytes(a.tail);
      assert Bytes(b)[0] == b.head && Bytes(b)[1..] == Bytes(b.tail);
      BytesDetermine(a.tail, b.tail);
    }
  }

  lemma {:induction false} FeedFromConcat(a: bytes, b: bytes, k: nat, rest: Wire)
    requires k <= |a|
    ensures FeedFrom(a + b, k, rest) == FeedFrom(a, k, Feed(b, rest))
    decreases |a| - k
  {
    if k < |a| {
      FeedFromConcat(a, b, k + 1, rest);
    } else {
      FeedFromTail(a, b, 0, rest);
    }
  }

  lemma {:induction false} FeedFromTail(a: bytes, b: bytes, k: nat, rest: Wire)
    requires k <= |b|
    ensures FeedFrom(a + b, |a| + k, rest) == FeedFrom(b, k, rest)
    decreases |b| - k
  {
    if k < |b| {
      FeedFromTail(a, b, k + 1, rest);
    }
  }

  lemma FeedConcat(a: bytes, b: bytes, rest: Wire)
    ensures Feed(a + b, rest) == Feed(a, Feed(b, rest))
  {
    FeedFromConcat(a, b, 0, rest);
  }

  lemma FeedOne(b: byte, rest: Wire)
    ensures Feed([b], rest) == Byte(b, rest)
  {
    assert FeedFrom([b], 1, rest) == rest;
  }

  datatype FailureKind =
    | LiteralFound(length: nat, mode: LiteralMode)
    | LiteralContainsNull
    | RecursionLimitExceeded

  /** `Error` may be caught by an alternative, `Failure` may not, and `Incomplete` says that
      the outcome depends on bytes that have not arrived yet. */
  datatype Outcome<+T> =
    | Ok(rest: Wire, value: T)
    | Incomplete
    | Error
    | Failure(kind: FailureKind)
  {
    predicate IsFailure() {
      !Ok?
    }

    function PropagateFailure<U>(): Outcome<U>
      requires !Ok?
    {
      match this
      case Incomplete => Incomplete
      case Error => Error
      case Failure(kind) => Failure(kind)
    }

    function Extract(): (Wire, T)
      requires Ok?
    {
      (rest, value)
    }

    function Map<U>(f: T -> U): Outcome<U> {
      match this
      case Ok(rest, value) => Ok(rest, f(value))
      case Incomplete => Incomplete
      case Error => Error
      case Failure(kind) => Failure(kind)
    }

    /** Success uses up part of the input. */
    predicate Consumes(i: Wire) {
      Ok? ==> Size(rest) < Size(i)
    }
  }

  // ----- Combinators -----

  function Alt<T>(first: Outcome<T>, second: Outcome<T>): Outcome<T> {
    if first.Error? then second else first
  }

  function Opt<T>(o: Outcome<T>, i: Wire): Outcome<Option<T>> {
    match o
    case Ok(rest, value) => Ok(rest, Some(value))
    case Error => Ok(i, None)
    case Incomplete => Incomplete
    case Failure(kind) => Failure(kind)
  }

  function Char(b: byte, i: Wire): (r: Outcome<()>)
    ensures r.Consumes(i)
  {
    match i
    case End => Incomplete
    case Byte(c, tail) => if c == b then Ok(tail, ()) else Error
  }

  function Crlf(i: Wire): (r: Outcome<()>)
    ensures r.Consumes(i)
  {
    var (i1, _) :- Char(CR, i);
    Char(LF, i1)
  }

  /** Compares an ASCII text from index `k` on, disregarding case. */
  function TagFrom(t: string, k: nat, i: Wire): (r: Outcome<()>)
    requires k <= |t|
    ensures r.Ok? ==> Size(r.rest) + |t| - k == Size(i)
    decreases |t| - k, i
  {
    if k == |t| then Ok(i, ())
    else
      match i
      case End => Incomplete
      case Byte(b, tail) =>
        if LowerCase(b) != LowerCase(Octet(t[k])) then Error else TagFrom(t, k + 1, tail)
  }

  function TagNoCase(t: string, i: Wire): (r: Outcome<()>)
    ensures t != "" ==> r.Consumes(i)
  {
    TagFrom(t, 0, i)
  }

  /** The longest run of bytes of a class, and what comes after it. */
  function TakeWhile(p: byte -> bool, i: Wire): (r: (bytes, Wire))
    ensures |r.0| + Size(r.1) == Size(i)
  {
    match i
    case End => ([], End)
    case Byte(b, tail) =>
      if p(b) then
        var (text, rest) := TakeWhile(p, tail);
        ([b] + text, rest)
      else ([], i)
  }

  function TakeWhile1(p: byte -> bool, i: Wire): (r: Outcome<bytes>)
    ensures r.Consumes(i)
  {
    var (text, rest) := TakeWhile(p, i);
    if rest.End? then Incomplete
    else if |text| == 0 then Error
    else Ok(rest, text)
  }

  /** At most `n` bytes of a class. */
  function TakeUpTo(n: nat, p: byte -> bool, i: Wire): (r: (bytes, Wire))
    ensures |r.0| + Size(r.1) == Size(i)
    ensures |r.0| <= n
    decreases n
  {
    match i
    case End => ([], End)
    case Byte(b, tail) =>
      if n > 0 && p(b) then
        var (text, rest) := TakeUpTo(n - 1, p, tail);
        ([b] + text, rest)
      else ([], i)
  }

  function TakeWhileMN(m: nat, n: nat, p: byte -> bool, i: Wire): (r: Outcome<bytes>)
    requires 0 < m <= n
    ensures r.Consumes(i)
  {
    var (text, rest) := TakeUpTo(n, p, i);
    if |text| == n then Ok(rest, text)
    else if rest.End? then Incomplete
    else if |text| < m then Error
    else Ok(rest, text)
  }

  /** Exactly `n` bytes. */
  function Take(n: nat, i: Wire): (r: Outcome<bytes>)
    ensures r.Ok? ==> |r.value| == n && n + Size(r.rest) == Size(i)
  {
    if n == 0 then Ok(i, [])
    else
      match i
      case End => Incomplete
      case Byte(b, tail) =>
        var (rest, data) :- Take(n - 1, tail);
        Ok(rest, [b] + data)
  }

  /** Alternatives from number `n` on, in the order in which they are tried. */
  function FirstOf<V(!new), T>(read: (V, Wire) -> Outcome<T>, all: seq<V>, n: nat, i: Wire): (r: Outcome<T>)
    requires n <= |all|
    requires forall v, j :: read(v, j).Consumes(j)
    ensures r.Consumes(i)
    decreases |all| - n, i
  {
    if n == |all| then Error else Alt(read(all[n], i), FirstOf(read, all, n + 1, i))
  }

  // ----- Lists -----

  /** What list combinators rely on: success uses up part of the input. */
  ghost predicate Consuming<T>(p: Wire -> Outcome<T>) {
    forall i :: p(i).Consumes(i)
  }

  function SeparatedMore<T>(sep: byte, p: Wire -> Outcome<T>, i: Wire, acc: seq<T>): (r: Outcome<seq<T>>)
    requires Consuming(p)
    ensures r.Ok? ==> Size(r.rest) <= Size(i) && |r.value| >= |acc|
    decreases Size(i)
  {
    match Char(sep, i)
    case Incomplete => Incomplete
    case Failure(kind) => Failure(kind)
    case Error => Ok(i, acc)
    case Ok(i1, _) =>
      match p(i1)
      case Incomplete => Incomplete
      case Failure(kind) => Failure(kind)
      case Error => Ok(i, acc)
      case Ok(i2, v) => SeparatedMore(sep, p, i2, acc + [v])
  }

  function SeparatedList1<T>(sep: byte, p: Wire -> Outcome<T>, i: Wire): (r: Outcome<seq<T>>)
    requires Consuming(p)
    ensures r.Consumes(i)
    ensures r.Ok? ==> r.value != []
  {
    var (i1, v) :- p(i);
    SeparatedMore(sep, p, i1, [v])
  }

  function SeparatedList0<T>(sep: byte, p: Wire -> Outcome<T>, i: Wire): (r: Outcome<seq<T>>)
    requires Consuming(p)
    ensures r.Ok? ==> Size(r.rest) <= Size(i)
  {
    if p(i).Error? then Ok(i, []) else SeparatedList1(sep, p, i)
  }

  function ManyMore<T>(p: Wire -> Outcome<T>, i: Wire, acc: seq<T>): (r: Outcome<seq<T>>)
    requires Consuming(p)
    ensures r.Ok? ==> Size(r.rest) <= Size(i)
    decreases Size(i)
  {
    match p(i)
    case Incomplete => Incomplete
    case Failure(kind) => Failure(kind)
    case Error => Ok(i, acc)
    case Ok(i1, v) => ManyMore(p, i1, acc + [v])
  }

  function Many0<T>(p: Wire -> Outcome<T>, i: Wire): (r: Outcome<seq<T>>)
    requires Consuming(p)
    ensures r.Ok? ==> Size(r.rest) <= Size(i)
  {
    ManyMore(p, i, [])
  }

  function Many1<T>(p: Wire -> Outcome<T>, i: Wire): (r: Outcome<seq<T>>)
    requires Consuming(p)
    ensures r.Consumes(i)
  {
    var (i1, v) :- p(i);
    ManyMore(p, i1, [v])
  }

  // ----- Tuples -----

  /** One thing, a space, and another. */
  function Pair<A, B>(p: Wire -> Outcome<A>, q: Wire -> Outcome<B>, i: Wire): (r: Outcome<(A, B)>)
    requires Consuming(p) && Consuming(q)
    ensures r.Consumes(i)
  {
    var (i1, a) :- p(i);
    var (i2, _) :- Char(SP, i1);
    var (i3, b) :- q(i2);
    Ok(i3, (a, b))
  }

  /** Three things with spaces between them. */
  function Triple<A, B, C>(
      p: Wire -> Outcome<A>, q: Wire -> Outcome<B>, s: Wire -> Outcome<C>, i: Wire): (r: Outcome<(A, B, C)>)
    requires Consuming(p) && Consuming(q) && Consuming(s)
    ensures r.Consumes(i)
  {
    var (i1, a) :- p(i);
    var (i2, _) :- Char(SP, i1);
    var (i3, (b, c)) :- Pair(q, s, i2);
    Ok(i3, (a, b, c))
  }

  /** Something behind a space. */
  function Behind<T>(p: Wire -> Outcome<T>, i: Wire): (r: Outcome<T>)
    requires Consuming(p)
    ensures r.Consumes(i)
  {
    var (i1, _) :- Char(SP, i);
    p(i1)
  }

  /** Something, and perhaps something more behind a space. */
  function WithTail<A, B>(p: Wire -> Outcome<A>, q: Wire -> Outcome<B>, i: Wire): (r: Outcome<(A, Option<B>)>)
    requires Consuming(p) && Consuming(q)
    ensures r.Consumes(i)
  {
    var (i1, a) :- p(i);
    var (i2, b) :- Opt(Behind(q, i1), i1);
    Ok(i2, (a, b))
  }

  /** Something in parentheses. */
  function Enclosed<T>(p: Wire -> Outcome<T>, i: Wire): (r: Outcome<T>)
    requires forall j :: p(j).Ok? ==> Size(p(j).rest) <= Size(j)
    ensures r.Consumes(i)
  {
    var (i1, _) :- Char(LPAREN, i);
    var (i2, v) :- p(i1);
    var (i3, _) :- Char(RPAREN, i2);
    Ok(i3, v)
  }

  // ----- Texts -----

  /** `i` is a text in any case of letters, followed by `rest`. */
  ghost predicate WordText(t: string, i: Wire, rest: Wire) {
    exists s :: Spells(s, t) && i == Feed(s, rest)
  }

  /** `i` is a number in decimal notation, leading zeros or not, followed by `rest`. */
  ghost predicate NumberText(n: nat, i: Wire, rest: Wire) {
    exists digits :: IsNumeral(digits) && DecimalValue(digits) == n && i == Feed(digits, rest)
  }

  ghost predicate IsNumeral(digits: bytes) {
    digits != [] && All(IsDigit, digits)
  }

  /** `i` is a byte, followed by something. */
  predicate Starts(i: Wire, b: byte) {
    i.Byte? && i.head == b
  }

  /** What the grammar admits: `(x, i, rest)` when `i` is a text of `x`, followed by `rest`. */
  type Grammar<!T> = (T, Wire, Wire) -> bool

  /** One thing, a space, and another. */
  ghost predicate PairText<A, B>(f: Grammar<A>, g: Grammar<B>, a: A, b: B, i: Wire, rest: Wire) {
    exists j {:trigger g(b, j, rest)} :: f(a, i, Byte(SP, j)) && g(b, j, rest)
  }

  /** Three things with spaces between them. */
  ghost predicate TripleText<A, B, C>(
      f: Grammar<A>, g: Grammar<B>, h: Grammar<C>, a: A, b: B, c: C, i: Wire, rest: Wire)
  {
    exists j, k :: f(a, i, Byte(SP, j)) && g(b, j, Byte(SP, k)) && h(c, k, rest)
  }

  /** Something, and perhaps something more behind a space. */
  ghost predicate TailText<A, B>(f: Grammar<A>, g: Grammar<B>, a: A, b: Option<B>, i: Wire, rest: Wire) {
    match b
    case None => f(a, i, rest)
    case Some(v) => PairText(f, g, a, v, i, rest)
  }

  /** Something in parentheses. */
  ghost predicate EnclosedText<T>(g: Grammar<T>, x: T, i: Wire, rest: Wire) {
    Starts(i, LPAREN) && g(x, i.tail, Byte(RPAREN, rest))
  }

  /** Each element stands where `text` says, in front of a separator and the next one. */
  ghost predicate StandsSeparated<T>(sep: byte, g: Grammar<T>, xs: seq<T>, text: nat -> Wire, rest: Wire) {
    forall m: nat {:trigger xs[m]} | m < |xs| ::
      g(xs[m], text(m), if m + 1 < |xs| then Byte(sep, text(m + 1)) else rest)
  }

  /** One or more things with separators between them. */
  ghost predicate SeparatedText<T>(sep: byte, g: Grammar<T>, xs: seq<T>, i: Wire, rest: Wire) {
    xs != [] && exists text: nat -> Wire :: StandsSeparated(sep, g, xs, text, rest) && text(0) == i
  }

  ghost predicate StandsInRow<T>(g: Grammar<T>, xs: seq<T>, text: nat -> Wire) {
    forall m: nat {:trigger xs[m]} | m < |xs| :: g(xs[m], text(m), text(m + 1))
  }

  /** Things with nothing between them. */
  ghost predicate RowText<T>(g: Grammar<T>, xs: seq<T>, i: Wire, rest: Wire) {
    exists text: nat -> Wire :: StandsInRow(g, xs, text) && text(0) == i && text(|xs|) == rest
  }

  /** `p` reads every text of the grammar that is followed by something fitting. */
  ghost predicate Reads<T(!new)>(p: Wire -> Outcome<T>, g: Grammar<T>, follow: Wire -> bool) {
    forall x, i, rest {:trigger g(x, i, rest)} | g(x, i, rest) && follow(rest) :: p(i) == Ok(rest, x)
  }

  /** `p` reads only texts of the grammar. */
  ghost predicate Accepts<T(!new)>(p: Wire -> Outcome<T>, g: Grammar<T>) {
    forall i {:trigger p(i)} :: p(i).Ok? ==> g(p(i).value, i, p(i).rest)
  }

  predicate More(rest: Wire) {
    rest.Byte?
  }

  predicate Anything(rest: Wire) {
    true
  }

  /** The recursion limit is all that can go wrong. */
  function Limited<T>(fits: bool, rest: Wire, value: T): Outcome<T> {
    if fits then Ok(rest, value) else Failure(RecursionLimitExceeded)
  }

  // ----- Reading what was written -----

  lemma {:induction false} TagFromReads(t: string, k: nat, rest: Wire)
    requires k <= |t|
    ensures TagFrom(t, k, TextFrom(t, k, rest)) == Ok(rest, ())
    decreases |t| - k
  {
    if k < |t| {
      TagFromReads(t, k + 1, rest);
    }
  }

  lemma TagReads(t: string, rest: Wire)
    ensures TagNoCase(t, Text(t, rest)) == Ok(rest, ())
  {
    TagFromReads(t, 0, rest);
  }

  lemma SameLetterIgnoresCase(b: byte, c: byte)
    ensures SameLetter(b, c) <==> LowerCase(b) == LowerCase(c)
  {
  }

  /** From index `k` on, a text is found exactly where it is spelled. */
  lemma {:induction false} TagFromSpelled(t: string, k: nat, s: bytes, rest: Wire)
    requires k <= |t| == |s|
    ensures TagFrom(t, k, FeedFrom(s, k, rest)) == Ok(rest, ())
       <==> forall j | k <= j < |t| :: SameLetter(s[j], Octet(t[j]))
    decreases |t| - k
  {
    if k < |t| {
      SameLetterIgnoresCase(s[k], Octet(t[k]));
      TagFromSpelled(t, k + 1, s, rest);
      assert (forall j | k <= j < |t| :: SameLetter(s[j], Octet(t[j])))
        <==> SameLetter(s[k], Octet(t[k])) && forall j | k + 1 <= j < |t| :: SameLetter(s[j], Octet(t[j]));
      if TagFrom(t, k, FeedFrom(s, k, rest)) == Ok(rest, ()) {
        assert LowerCase(s[k]) == LowerCase(Octet(t[k]));
      }
    }
  }

  /** A text is read in every case of letters, and nothing else is taken for it. */
  lemma TagSpelled(t: string, s: bytes, rest: Wire)
    requires |s| == |t|
    ensures TagNoCase(t, Feed(s, rest)) == Ok(rest, ()) <==> Spells(s, t)
  {
    TagFromSpelled(t, 0, s, rest);
  }

  lemma FeedCons(b: byte, s: bytes, rest: Wire)
    ensures Feed([b] + s, rest) == Byte(b, Feed(s, rest))
  {
    FeedConcat([b], s, rest);
    FeedOne(b, Feed(s, rest));
  }

  lemma {:induction false} TagFromTakes(t: string, k: nat, i: Wire) returns (s: bytes)
    requires k <= |t| && TagFrom(t, k, i).Ok?
    ensures |s| == |t| - k && i == Feed(s, TagFrom(t, k, i).rest)
    decreases |t| - k
  {
    if k == |t| {
      s := [];
    } else {
      var more := TagFromTakes(t, k + 1, i.tail);
      s := [i.head] + more;
      FeedCons(i.head, more, TagFrom(t, k, i).rest);
    }
  }

  /** What a tag reader accepts are the spellings of its text. */
  lemma TagIsWord(t: string, i: Wire, rest: Wire)
    ensures TagNoCase(t, i) == Ok(rest, ()) <==> WordText(t, i, rest)
  {
    if TagNoCase(t, i) == Ok(rest, ()) {
      var s := TagFromTakes(t, 0, i);
      TagSpelled(t, s, rest);
    }
    if WordText(t, i, rest) {
      var s :| Spells(s, t) && i == Feed(s, rest);
      TagSpelled(t, s, rest);
    }
  }

  lemma TagTakesWord(t: string, i: Wire)
    ensures TagNoCase(t, i).Ok? ==> WordText(t, i, TagNoCase(t, i).rest)
  {
    if TagNoCase(t, i).Ok? {
      assert TagNoCase(t, i).value == ();
      TagIsWord(t, i, TagNoCase(t, i).rest);
    }
  }

  lemma TextIsWord(t: string, rest: Wire)
    ensures WordText(t, Text(t, rest), rest)
  {
    TagReads(t, rest);
    TagIsWord(t, Text(t, rest), rest);
  }

  /** Two texts that differ, case aside, within their common length. */
  ghost predicate Clash(a: string, b: string) {
    exists j | 0 <= j < |a| && j < |b| :: LowerCase(Octet(a[j])) != LowerCase(Octet(b[j]))
  }

  lemma {:induction false} ClashSpelledFrom(a: string, b: string, k: nat, j: nat, s: bytes, rest: Wire)
    requires k <= j < |a| && j < |b| == |s|
    requires LowerCase(Octet(a[j])) != LowerCase(Octet(b[j]))
    requires Spells(s, b)
    ensures TagFrom(a, k, FeedFrom(s, k, rest)) == Error
    decreases j - k
  {
    SameLetterIgnoresCase(s[k], Octet(b[k]));
    if k < j {
      ClashSpelledFrom(a, b, k + 1, j, s, rest);
    }
  }

  /** No spelling of a text is taken for a text that it clashes with. */
  lemma WordRejects(a: string, b: string, i: Wire, rest: Wire)
    requires Clash(a, b) && WordText(b, i, rest)
    ensures TagNoCase(a, i) == Error
  {
    var j :| 0 <= j < |a| && j < |b| && LowerCase(Octet(a[j])) != LowerCase(Octet(b[j]));
    var s :| Spells(s, b) && i == Feed(s, rest);
    ClashSpelledFrom(a, b, 0, j, s, rest);
  }

  /** An alternative that all others leave the input to decides. */
  lemma {:induction false} OneOfReads<V(!new), T>(read: (V, Wire) -> Outcome<T>, all: seq<V>, n: nat, at: nat, i: Wire)
    requires forall v, j :: read(v, j).Consumes(j)
    requires n <= |all| && at < |all|
    requires forall m | 0 <= m < |all| && m != at :: read(all[m], i) == Error
    ensures FirstOf(read, all, n, i) == if n <= at then read(all[at], i) else Error
    decreases |all| - n
  {
    if n < |all| {
      OneOfReads(read, all, n + 1, at, i);
    }
  }

  /** The alternative whose outcome was taken. */
  lemma {:induction false} FirstTaken<V(!new), T>(read: (V, Wire) -> Outcome<T>, all: seq<V>, n: nat, i: Wire) returns (v: V)
    requires forall v, j :: read(v, j).Consumes(j)
    requires n <= |all| && !FirstOf(read, all, n, i).Error?
    ensures v in all && read(v, i) == FirstOf(read, all, n, i)
    decreases |all| - n
  {
    if read(all[n], i).Error? {
      v := FirstTaken(read, all, n + 1, i);
    } else {
      v := all[n];
    }
  }

  /** A text behind a text is one longer text. */
  lemma {:induction false} WordJoins(a: string, b: string, i: Wire, j: Wire, rest: Wire)
    requires WordText(a, i, j) && WordText(b, j, rest)
    ensures WordText(a + b, i, rest)
  {
    var s :| Spells(s, a) && i == Feed(s, j);
    var t :| Spells(t, b) && j == Feed(t, rest);
    FeedConcat(s, t, rest);
    assert Spells(s + t, a + b);
  }

  lemma {:induction false} WordSplits(a: string, b: string, i: Wire, rest: Wire) returns (j: Wire)
    requires WordText(a + b, i, rest)
    ensures WordText(a, i, j) && WordText(b, j, rest)
  {
    var s :| Spells(s, a + b) && i == Feed(s, rest);
    var u, v := s[..|a|], s[|a|..];
    j := Feed(v, rest);
    assert u + v == s;
    FeedConcat(u, v, rest);
    assert Spells(u, a);
    forall k | 0 <= k < |b| ensures SameLetter(v[k], Octet(b[k])) {
      assert (a + b)[|a| + k] == b[k] && s[|a| + k] == v[k];
    }
    assert Spells(v, b);
  }

  /** A space has one spelling. */
  lemma {:induction false} SpaceIsWord(i: Wire, rest: Wire)
    ensures WordText(" ", i, rest) <==> i == Byte(SP, rest)
  {
    if WordText(" ", i, rest) {
      var s :| Spells(s, " ") && i == Feed(s, rest);
      assert s == [SP];
    } else if i == Byte(SP, rest) {
      assert Spells([SP], " ");
      FeedOne(SP, rest);
    }
    FeedOne(SP, rest);
  }

  lemma {:induction false} TakeWhileReads(p: byte -> bool, text: bytes, k: nat, rest: Wire)
    requires k <= |text| && All(p, text)
    requires rest.Byte? ==> !p(rest.head)
    ensures TakeWhile(p, FeedFrom(text, k, rest)) == (text[k..], rest)
    decreases |text| - k
  {
    if k < |text| {
      TakeWhileReads(p, text, k + 1, rest);
      assert text[k..] == [text[k]] + text[k + 1..];
    }
  }

  lemma TakeWhile1Reads(p: byte -> bool, text: bytes, rest: Wire)
    requires text != [] && All(p, text)
    requires rest.Byte? && !p(rest.head)
    ensures TakeWhile1(p, Feed(text, rest)) == Ok(rest, text)
  {
    TakeWhileReads(p, text, 0, rest);
    assert text[0..] == text;
  }

  lemma {:induction false} TakeUpToReads(n: nat, p: byte -> bool, text: bytes, k: nat, rest: Wire)
    requires k <= |text| <= k + n && All(p, text)
    requires |text| < k + n ==> rest.Byte? && !p(rest.head)
    ensures TakeUpTo(n, p, FeedFrom(text, k, rest)) == (text[k..], rest)
    decreases n
  {
    if k < |text| {
      TakeUpToReads(n - 1, p, text, k + 1, rest);
      assert text[k..] == [text[k]] + text[k + 1..];
    } else {
      assert text[k..] == [];
      assert TakeUpTo(n, p, rest) == ([], rest);
    }
  }

  // ----- What was read is the text -----

  lemma {:induction false} TakeWhileTakes(p: byte -> bool, i: Wire)
    ensures var (text, rest) := TakeWhile(p, i);
            All(p, text) && i == Feed(text, rest) && (rest.Byte? ==> !p(rest.head))
  {
    if i.Byte? && p(i.head) {
      TakeWhileTakes(p, i.tail);
      var (text, rest) := TakeWhile(p, i.tail);
      FeedCons(i.head, text, rest);
    }
  }

  lemma {:induction false} TakeUpToTakes(n: nat, p: byte -> bool, i: Wire)
    ensures var (text, rest) := TakeUpTo(n, p, i);
            All(p, text) && i == Feed(text, rest) && (|text| < n && rest.Byte? ==> !p(rest.head))
    decreases n
  {
    if i.Byte? && n > 0 && p(i.head) {
      TakeUpToTakes(n - 1, p, i.tail);
      var (text, rest) := TakeUpTo(n - 1, p, i.tail);
      FeedCons(i.head, text, rest);
    }
  }

  lemma {:induction false} TakeTakes(n: nat, i: Wire)
    ensures Take(n, i).Ok? ==> i == Feed(Take(n, i).value, Take(n, i).rest)
  {
    if Take(n, i).Ok? && n > 0 {
      TakeTakes(n - 1, i.tail);
      FeedCons(i.head, Take(n - 1, i.tail).value, Take(n, i).rest);
    }
  }

  /** A run of permitted length, which must be delimited unless it is the greatest one. */
  lemma TakeWhileMNReads(m: nat, n: nat, p: byte -> bool, text: bytes, rest: Wire)
    requires 0 < m <= |text| <= n
    requires All(p, text)
    requires |text| < n ==> rest.Byte? && !p(rest.head)
    ensures TakeWhileMN(m, n, p, Feed(text, rest)) == Ok(rest, text)
  {
    TakeUpToReads(n, p, text, 0, rest);
    assert text[0..] == text;
  }

  lemma {:induction false} TakeReads(data: bytes, k: nat, rest: Wire)
    requires k <= |data|
    ensures Take(|data| - k, FeedFrom(data, k, rest)) == Ok(rest, data[k..])
    decreases |data| - k
  {
    if k < |data| {
      TakeReads(data, k + 1, rest);
      assert data[k..] == [data[k]] + data[k + 1..];
    } else {
      assert data[k..] == [];
    }
  }

  /** The text from element `m` of a list on: the element, the separator, and so on to `rest`. */
  ghost predicate ListText<T>(sep: byte, p: Wire -> Outcome<T>, text: nat -> Wire, xs: seq<T>, rest: Wire) {
    forall m: nat {:trigger p(text(m))} | m < |xs| ::
      p(text(m)) == Ok(if m + 1 < |xs| then Byte(sep, text(m + 1)) else rest, xs[m])
  }

  lemma {:induction false} SeparatedMoreReads<T>(
      sep: byte, p: Wire -> Outcome<T>, text: nat -> Wire, xs: seq<T>, m: nat, rest: Wire)
    requires Consuming(p)
    requires ListText(sep, p, text, xs, rest)
    requires rest.Byte? && rest.head != sep
    requires 1 <= m <= |xs|
    ensures SeparatedMore(sep, p, if m < |xs| then Byte(sep, text(m)) else rest, xs[..m]) == Ok(rest, xs)
    decreases |xs| - m
  {
    if m == |xs| {
      assert xs[..m] == xs;
    } else {
      assert xs[..m] + [xs[m]] == xs[..m + 1];
      SeparatedMoreReads(sep, p, text, xs, m + 1, rest);
    }
  }

  /** A list is read element by element. */
  lemma SeparatedListReads<T>(sep: byte, p: Wire -> Outcome<T>, text: nat -> Wire, xs: seq<T>, rest: Wire)
    requires Consuming(p)
    requires xs != [] && ListText(sep, p, text, xs, rest)
    requires rest.Byte? && rest.head != sep
    ensures SeparatedList1(sep, p, text(0)) == Ok(rest, xs)
    ensures SeparatedList0(sep, p, text(0)) == Ok(rest, xs)
  {
    assert p(text(0)).Ok?;
    assert xs[..1] == [xs[0]];
    SeparatedMoreReads(sep, p, text, xs, 1, rest);
  }

  /** A list breaks off with the failure of its first element that fails. */
  lemma {:induction false} SeparatedMoreFails<T>(
      sep: byte, p: Wire -> Outcome<T>, text: nat -> Wire, xs: seq<T>, m: nat, bad: nat, kind: FailureKind)
    requires Consuming(p)
    requires 1 <= m <= bad < |xs|
    requires forall j: nat {:trigger p(text(j))} | j < bad :: p(text(j)) == Ok(Byte(sep, text(j + 1)), xs[j])
    requires p(text(bad)) == Failure(kind)
    ensures SeparatedMore(sep, p, Byte(sep, text(m)), xs[..m]) == Failure(kind)
    decreases bad - m
  {
    if m < bad {
      assert xs[..m] + [xs[m]] == xs[..m + 1];
      SeparatedMoreFails(sep, p, text, xs, m + 1, bad, kind);
    }
  }

  lemma SeparatedListFails<T>(
      sep: byte, p: Wire -> Outcome<T>, text: nat -> Wire, xs: seq<T>, bad: nat, kind: FailureKind)
    requires Consuming(p)
    requires bad < |xs|
    requires forall j: nat {:trigger p(text(j))} | j < bad :: p(text(j)) == Ok(Byte(sep, text(j + 1)), xs[j])
    requires p(text(bad)) == Failure(kind)
    ensures SeparatedList1(sep, p, text(0)) == Failure(kind)
  {
    if bad > 0 {
      assert p(text(0)) == Ok(Byte(sep, text(1)), xs[0]);
      assert xs[..1] == [xs[0]];
      SeparatedMoreFails(sep, p, text, xs, 1, bad, kind);
    }
  }

  /** A list ends before a separator that no element follows. */
  lemma {:induction false} SeparatedMoreStops<T>(
      sep: byte, p: Wire -> Outcome<T>, text: nat -> Wire, xs: seq<T>, m: nat, bad: nat)
    requires Consuming(p)
    requires 1 <= m <= bad < |xs|
    requires forall j: nat {:trigger p(text(j))} | j < bad :: p(text(j)) == Ok(Byte(sep, text(j + 1)), xs[j])
    requires p(text(bad)) == Error
    ensures SeparatedMore(sep, p, Byte(sep, text(m)), xs[..m]) == Ok(Byte(sep, text(bad)), xs[..bad])
    decreases bad - m
  {
    if m < bad {
      assert xs[..m] + [xs[m]] == xs[..m + 1];
      SeparatedMoreStops(sep, p, text, xs, m + 1, bad);
    }
  }

  lemma SeparatedListStops<T>(sep: byte, p: Wire -> Outcome<T>, text: nat -> Wire, xs: seq<T>, bad: nat)
    requires Consuming(p)
    requires bad < |xs|
    requires forall j: nat {:trigger p(text(j))} | j < bad :: p(text(j)) == Ok(Byte(sep, text(j + 1)), xs[j])
    requires p(text(bad)) == Error
    ensures SeparatedList1(sep, p, text(0))
         == if bad == 0 then Error else Ok(Byte(sep, text(bad)), xs[..bad])
  {
    if bad > 0 {
      assert p(text(0)) == Ok(Byte(sep, text(1)), xs[0]);
      assert xs[..1] == [xs[0]];
      SeparatedMoreStops(sep, p, text, xs, 1, bad);
    }
  }

  /** Elements without a separator, up to the first text that is not an element. */
  lemma {:induction false} ManyMoreReads<T>(
      p: Wire -> Outcome<T>, text: nat -> Wire, xs: seq<T>, m: nat, rest: Wire)
    requires Consuming(p)
    requires forall j: nat {:trigger p(text(j))} | j < |xs| :: p(text(j)) == Ok(text(j + 1), xs[j])
    requires text(|xs|) == rest && p(rest) == Error
    requires m <= |xs|
    ensures ManyMore(p, text(m), xs[..m]) == Ok(rest, xs)
    decreases |xs| - m
  {
    if m == |xs| {
      assert xs[..m] == xs;
    } else {
      assert xs[..m] + [xs[m]] == xs[..m + 1];
      ManyMoreReads(p, text, xs, m + 1, rest);
    }
  }

  lemma {:induction false} ManyMoreFails<T>(
      p: Wire -> Outcome<T>, text: nat -> Wire, xs: seq<T>, m: nat, bad: nat, kind: FailureKind)
    requires Consuming(p)
    requires m <= bad < |xs|
    requires forall j: nat {:trigger p(text(j))} | j < bad :: p(text(j)) == Ok(text(j + 1), xs[j])
    requires p(text(bad)) == Failure(kind)
    ensures ManyMore(p, text(m), xs[..m]) == Failure(kind)
    decreases bad - m
  {
    if m < bad {
      assert xs[..m] + [xs[m]] == xs[..m + 1];
      ManyMoreFails(p, text, xs, m + 1, bad, kind);
    }
  }

  /** A list of which every element is read, or fails in the same way. */
  lemma SeparatedListJudged<T>(
      sep: byte, p: Wire -> Outcome<T>, text: nat -> Wire, xs: seq<T>, fits: nat -> bool, kind: FailureKind, tail: Wire)
    requires Consuming(p)
    requires xs != [] && tail.Byte? && tail.head != sep
    requires forall m: nat {:trigger p(text(m))} | m < |xs| ::
      p(text(m)) == if fits(m) then Ok(if m + 1 < |xs| then Byte(sep, text(m + 1)) else tail, xs[m]) else Failure(kind)
    ensures SeparatedList1(sep, p, text(0))
         == if forall m: nat | m < |xs| :: fits(m) then Ok(tail, xs) else Failure(kind)
  {
    if forall m: nat | m < |xs| :: fits(m) {
      SeparatedListReads(sep, p, text, xs, tail);
    } else {
      var bad := FirstUnfit(fits, |xs|);
      SeparatedListFails(sep, p, text, xs, bad, kind);
    }
  }

  lemma Many0Judged<T>(
      p: Wire -> Outcome<T>, text: nat -> Wire, xs: seq<T>, fits: nat -> bool, kind: FailureKind)
    requires Consuming(p)
    requires forall m: nat {:trigger p(text(m))} | m < |xs| ::
      p(text(m)) == if fits(m) then Ok(text(m + 1), xs[m]) else Failure(kind)
    requires p(text(|xs|)) == Error
    ensures Many0(p, text(0))
         == if forall m: nat | m < |xs| :: fits(m) then Ok(text(|xs|), xs) else Failure(kind)
  {
    assert xs[..0] == [];
    if forall m: nat | m < |xs| :: fits(m) {
      ManyMoreReads(p, text, xs, 0, text(|xs|));
    } else {
      var bad := FirstUnfit(fits, |xs|);
      ManyMoreFails(p, text, xs, 0, bad, kind);
    }
  }

  lemma Many1Judged<T>(
      p: Wire -> Outcome<T>, text: nat -> Wire, xs: seq<T>, fits: nat -> bool, kind: FailureKind)
    requires Consuming(p) && xs != []
    requires forall m: nat {:trigger p(text(m))} | m < |xs| ::
      p(text(m)) == if fits(m) then Ok(text(m + 1), xs[m]) else Failure(kind)
    requires p(text(|xs|)) == Error
    ensures Many1(p, text(0))
         == if forall m: nat | m < |xs| :: fits(m) then Ok(text(|xs|), xs) else Failure(kind)
  {
    Many0Judged(p, text, xs, fits, kind);
    assert [] + [xs[0]] == [xs[0]];
    assert p(text(0)) == if fits(0) then Ok(text(1), xs[0]) else Failure(kind);
  }

  lemma {:induction false} FirstUnfit(fits: nat -> bool, n: nat) returns (bad: nat)
    requires exists m: nat | m < n :: !fits(m)
    ensures bad < n && !fits(bad) && forall m: nat | m < bad :: fits(m)
  {
    if m: nat :| m < n - 1 && !fits(m) {
      bad := FirstUnfit(fits, n - 1);
    } else {
      bad := n - 1;
    }
  }

  /** The elements of a list that was read, at the places where they were read. */
  lemma {:induction false} SeparatedMoreTexts<T>(sep: byte, p: Wire -> Outcome<T>, i: Wire, acc: seq<T>)
      returns (text: nat -> Wire)
    requires Consuming(p)
    requires SeparatedMore(sep, p, i, acc).Ok?
    ensures var r := SeparatedMore(sep, p, i, acc);
            && acc <= r.value
            && i == (if |acc| < |r.value| then Byte(sep, text(|acc|)) else r.rest)
            && forall m: nat {:trigger p(text(m))} | |acc| <= m < |r.value| ::
                 p(text(m)) == Ok(if m + 1 < |r.value| then Byte(sep, text(m + 1)) else r.rest, r.value[m])
    decreases Size(i)
  {
    var n := |acc|;
    if Char(sep, i).Ok? && p(i.tail).Ok? {
      var v := p(i.tail).value;
      var later := SeparatedMoreTexts(sep, p, p(i.tail).rest, acc + [v]);
      text := (m: nat) => if m == n then i.tail else later(m);
      assert (acc + [v])[n] == v;
    } else {
      text := (m: nat) => i;
    }
  }

  lemma SeparatedListTexts<T>(sep: byte, p: Wire -> Outcome<T>, i: Wire) returns (text: nat -> Wire)
    requires Consuming(p)
    requires SeparatedList1(sep, p, i).Ok?
    ensures var r := SeparatedList1(sep, p, i); text(0) == i && ListText(sep, p, text, r.value, r.rest)
  {
    var v := p(i).value;
    var later := SeparatedMoreTexts(sep, p, p(i).rest, [v]);
    text := (m: nat) => if m == 0 then i else later(m);
  }

  lemma {:induction false} ManyMoreTexts<T>(p: Wire -> Outcome<T>, i: Wire, acc: seq<T>) returns (text: nat -> Wire)
    requires Consuming(p)
    requires ManyMore(p, i, acc).Ok?
    ensures var r := ManyMore(p, i, acc);
            && acc <= r.value
            && text(|acc|) == i && text(|r.value|) == r.rest
            && forall m: nat {:trigger p(text(m))} | |acc| <= m < |r.value| ::
                 p(text(m)) == Ok(text(m + 1), r.value[m])
    decreases Size(i)
  {
    var n := |acc|;
    if p(i).Ok? {
      var v := p(i).value;
      var later := ManyMoreTexts(p, p(i).rest, acc + [v]);
      text := (m: nat) => if m == n then i else later(m);
      assert (acc + [v])[n] == v;
    } else {
      text := (m: nat) => i;
    }
  }

  lemma SeparatedTextReads<T(!new)>(
      sep: byte, p: Wire -> Outcome<T>, g: Grammar<T>, follow: Wire -> bool, xs: seq<T>, i: Wire, rest: Wire)
    requires Consuming(p) && Reads(p, g, follow)
    requires SeparatedText(sep, g, xs, i, rest)
    requires follow(rest) && forall j :: follow(Byte(sep, j))
    requires rest.Byte? && rest.head != sep
    ensures SeparatedList1(sep, p, i) == Ok(rest, xs)
    ensures SeparatedList0(sep, p, i) == Ok(rest, xs)
  {
    var text: nat -> Wire :| StandsSeparated(sep, g, xs, text, rest) && text(0) == i;
    forall m: nat {:trigger p(text(m))} | m < |xs|
      ensures p(text(m)) == Ok(if m + 1 < |xs| then Byte(sep, text(m + 1)) else rest, xs[m])
    {
      var next := if m + 1 < |xs| then Byte(sep, text(m + 1)) else rest;
      assert g(xs[m], text(m), next) && follow(next);
    }
    SeparatedListReads(sep, p, text, xs, rest);
  }

  lemma SeparatedIsText<T(!new)>(sep: byte, p: Wire -> Outcome<T>, g: Grammar<T>, i: Wire)
    requires Consuming(p) && Accepts(p, g)
    ensures var r := SeparatedList1(sep, p, i); r.Ok? ==> SeparatedText(sep, g, r.value, i, r.rest)
  {
    var r := SeparatedList1(sep, p, i);
    if r.Ok? {
      var text := SeparatedListTexts(sep, p, i);
      forall m: nat {:trigger r.value[m]} | m < |r.value|
        ensures g(r.value[m], text(m), if m + 1 < |r.value| then Byte(sep, text(m + 1)) else r.rest)
      {
        assert p(text(m)).Ok?;
      }
      assert StandsSeparated(sep, g, r.value, text, r.rest);
    }
  }

  lemma RowTextReads<T(!new)>(
      p: Wire -> Outcome<T>, g: Grammar<T>, xs: seq<T>, i: Wire, rest: Wire)
    requires Consuming(p) && Reads(p, g, Anything)
    requires RowText(g, xs, i, rest)
    requires p(rest) == Error
    ensures Many0(p, i) == Ok(rest, xs)
    ensures xs != [] ==> Many1(p, i) == Ok(rest, xs)
  {
    var text: nat -> Wire :| StandsInRow(g, xs, text) && text(0) == i && text(|xs|) == rest;
    forall m: nat {:trigger p(text(m))} | m < |xs| ensures p(text(m)) == Ok(text(m + 1), xs[m]) {
      assert g(xs[m], text(m), text(m + 1));
    }
    assert xs[..0] == [];
    ManyMoreReads(p, text, xs, 0, rest);
    if xs != [] {
      assert p(text(0)) == Ok(text(1), xs[0]);
      assert [] + [xs[0]] == [xs[0]];
    }
  }

  lemma RowIsText<T(!new)>(p: Wire -> Outcome<T>, g: Grammar<T>, i: Wire)
    requires Consuming(p) && Accepts(p, g)
    ensures var r := Many0(p, i); r.Ok? ==> RowText(g, r.value, i, r.rest)
    ensures var r := Many1(p, i); r.Ok? ==> r.value != [] && RowText(g, r.value, i, r.rest)
  {
    var r := Many0(p, i);
    if r.Ok? {
      var text := ManyMoreTexts(p, i, []);
      forall m: nat {:trigger r.value[m]} | m < |r.value| ensures g(r.value[m], text(m), text(m + 1)) {
        assert p(text(m)).Ok?;
      }
      assert StandsInRow(g, r.value, text);
    }
    if Many1(p, i).Ok? {
      assert [] + [p(i).value] == [p(i).value];
      ManyMoreGrows(p, p(i).rest, [p(i).value]);
    }
  }

  lemma {:induction false} ManyMoreGrows<T>(p: Wire -> Outcome<T>, i: Wire, acc: seq<T>)
    requires Consuming(p)
    ensures ManyMore(p, i, acc).Ok? ==> |ManyMore(p, i, acc).value| >= |acc|
    decreases Size(i)
  {
    if p(i).Ok? {
      ManyMoreGrows(p, p(i).rest, acc + [p(i).value]);
    }
  }

  lemma PairPlaces<A, B>(f: Grammar<A>, g: Grammar<B>, a: A, b: B, i: Wire, rest: Wire) returns (j: Wire)
    requires PairText(f, g, a, b, i, rest)
    ensures f(a, i, Byte(SP, j)) && g(b, j, rest)
  {
    j :| f(a, i, Byte(SP, j)) && g(b, j, rest);
  }

  lemma PairTextReads<A(!new), B(!new)>(
      p: Wire -> Outcome<A>, q: Wire -> Outcome<B>, f: Grammar<A>, g: Grammar<B>,
      followA: Wire -> bool, followB: Wire -> bool, a: A, b: B, i: Wire, rest: Wire)
    requires Consuming(p) && Consuming(q)
    requires Reads(p, f, followA) && Reads(q, g, followB)
    requires followB(rest) && forall j :: followA(Byte(SP, j))
    requires PairText(f, g, a, b, i, rest)
    ensures Pair(p, q, i) == Ok(rest, (a, b))
  {
    var j :| f(a, i, Byte(SP, j)) && g(b, j, rest);
    PairReads(p, q, i, j, rest, a, b);
  }

  lemma PairIsText<A(!new), B(!new)>(
      p: Wire -> Outcome<A>, q: Wire -> Outcome<B>, f: Grammar<A>, g: Grammar<B>, i: Wire)
    requires Consuming(p) && Consuming(q)
    requires Accepts(p, f) && Accepts(q, g)
    ensures var r := Pair(p, q, i); r.Ok? ==> PairText(f, g, r.value.0, r.value.1, i, r.rest)
  {
    if Pair(p, q, i).Ok? {
      var i1 := p(i).rest;
      assert i1 == Byte(SP, i1.tail) && q(i1.tail).Ok?;
    }
  }

  lemma TripleTextReads<A(!new), B(!new), C(!new)>(
      p: Wire -> Outcome<A>, q: Wire -> Outcome<B>, s: Wire -> Outcome<C>,
      f: Grammar<A>, g: Grammar<B>, h: Grammar<C>,
      followA: Wire -> bool, followB: Wire -> bool, followC: Wire -> bool,
      a: A, b: B, c: C, i: Wire, rest: Wire)
    requires Consuming(p) && Consuming(q) && Consuming(s)
    requires Reads(p, f, followA) && Reads(q, g, followB) && Reads(s, h, followC)
    requires followC(rest) && forall j :: followA(Byte(SP, j)) && followB(Byte(SP, j))
    requires TripleText(f, g, h, a, b, c, i, rest)
    ensures Triple(p, q, s, i) == Ok(rest, (a, b, c))
  {
    var j, k :| f(a, i, Byte(SP, j)) && g(b, j, Byte(SP, k)) && h(c, k, rest);
    TripleReads(p, q, s, i, j, k, rest, a, b, c);
  }

  lemma TripleIsText<A(!new), B(!new), C(!new)>(
      p: Wire -> Outcome<A>, q: Wire -> Outcome<B>, s: Wire -> Outcome<C>,
      f: Grammar<A>, g: Grammar<B>, h: Grammar<C>, i: Wire)
    requires Consuming(p) && Consuming(q) && Consuming(s)
    requires Accepts(p, f) && Accepts(q, g) && Accepts(s, h)
    ensures var r := Triple(p, q, s, i); r.Ok? ==> TripleText(f, g, h, r.value.0, r.value.1, r.value.2, i, r.rest)
  {
    if Triple(p, q, s, i).Ok? {
      var i1 := p(i).rest;
      assert i1 == Byte(SP, i1.tail) && q(i1.tail).Ok?;
      var i2 := q(i1.tail).rest;
      assert i2 == Byte(SP, i2.tail) && s(i2.tail).Ok?;
    }
  }

  lemma EnclosedTextReads<T(!new)>(
      p: Wire -> Outcome<T>, g: Grammar<T>, follow: Wire -> bool, x: T, i: Wire, rest: Wire)
    requires forall j :: p(j).Ok? ==> Size(p(j).rest) <= Size(j)
    requires Reads(p, g, follow) && follow(Byte(RPAREN, rest))
    requires EnclosedText(g, x, i, rest)
    ensures Enclosed(p, i) == Ok(rest, x)
  {
  }

  lemma EnclosedIsText<T(!new)>(p: Wire -> Outcome<T>, g: Grammar<T>, i: Wire)
    requires forall j :: p(j).Ok? ==> Size(p(j).rest) <= Size(j)
    requires Accepts(p, g)
    ensures var r := Enclosed(p, i); r.Ok? ==> EnclosedText(g, r.value, i, r.rest)
  {
    if Enclosed(p, i).Ok? {
      assert p(i.tail).rest == Byte(RPAREN, Enclosed(p, i).rest);
    }
  }

  lemma TailIsText<A(!new), B(!new)>(
      p: Wire -> Outcome<A>, q: Wire -> Outcome<B>, f: Grammar<A>, g: Grammar<B>, i: Wire)
    requires Consuming(p) && Consuming(q)
    requires Accepts(p, f) && Accepts(q, g)
    ensures var r := WithTail(p, q, i); r.Ok? ==> TailText(f, g, r.value.0, r.value.1, i, r.rest)
  {
    var r := WithTail(p, q, i);
    if r.Ok? && r.value.1.Some? {
      var i1 := p(i).rest;
      assert i1 == Byte(SP, i1.tail) && q(i1.tail) == Ok(r.rest, r.value.1.value);
    }
  }

  /** The elements of a row that was read, each at a place no further from the end than `i`. */
  lemma Many1Texts<T>(p: Wire -> Outcome<T>, i: Wire) returns (text: nat -> Wire)
    requires Consuming(p)
    requires Many1(p, i).Ok?
    ensures var r := Many1(p, i);
            && r.value != [] && text(0) == i && text(|r.value|) == r.rest
            && (forall m: nat {:trigger p(text(m))} | m < |r.value| :: p(text(m)) == Ok(text(m + 1), r.value[m]))
            && (forall m: nat {:trigger Size(text(m))} | m < |r.value| :: Size(text(m)) <= Size(i))
  {
    var r, v := Many1(p, i), p(i).value;
    var later := ManyMoreTexts(p, p(i).rest, [v]);
    ManyMoreGrows(p, p(i).rest, [v]);
    text := (m: nat) => if m == 0 then i else later(m);
    forall m: nat {:trigger Size(text(m))} | m < |r.value| ensures Size(text(m)) <= Size(i) {
      TextShrinks(p, text, r.value, m);
    }
  }

  lemma {:induction false} TextShrinks<T>(p: Wire -> Outcome<T>, text: nat -> Wire, xs: seq<T>, m: nat)
    requires Consuming(p) && m <= |xs|
    requires forall k: nat {:trigger p(text(k))} | k < |xs| :: p(text(k)) == Ok(text(k + 1), xs[k])
    ensures Size(text(m)) <= Size(text(0))
  {
    if m > 0 {
      TextShrinks(p, text, xs, m - 1);
      assert p(text(m - 1)).Consumes(text(m - 1));
    }
  }

  lemma PairReads<A, B>(p: Wire -> Outcome<A>, q: Wire -> Outcome<B>, i: Wire, j: Wire, rest: Wire, a: A, b: B)
    requires Consuming(p) && Consuming(q)
    requires p(i) == Ok(Byte(SP, j), a) && q(j) == Ok(rest, b)
    ensures Pair(p, q, i) == Ok(rest, (a, b))
  {
  }

  lemma TripleReads<A, B, C>(
      p: Wire -> Outcome<A>, q: Wire -> Outcome<B>, s: Wire -> Outcome<C>,
      i: Wire, j: Wire, k: Wire, rest: Wire, a: A, b: B, c: C)
    requires Consuming(p) && Consuming(q) && Consuming(s)
    requires p(i) == Ok(Byte(SP, j), a) && q(j) == Ok(Byte(SP, k), b) && s(k) == Ok(rest, c)
    ensures Triple(p, q, s, i) == Ok(rest, (a, b, c))
  {
  }

  lemma WithTailJudged<A, B>(
      p: Wire -> Outcome<A>, q: Wire -> Outcome<B>, i: Wire, j: Wire, rest: Wire, a: A, b: Option<B>, fits: bool)
    requires Consuming(p) && Consuming(q)
    requires rest.Byte? && rest.head != SP
    requires b.None? ==> fits && p(i) == Ok(rest, a)
    requires b.Some? ==> p(i) == Ok(Byte(SP, j), a) && q(j) == Limited(fits, rest, b.value)
    ensures WithTail(p, q, i) == Limited(fits, rest, (a, b))
  {
  }

  // ----- What is read has the properties of its parts -----

  /** Whatever `p` reads is good. */
  ghost predicate Sound<T(!new)>(p: Wire -> Outcome<T>, good: T -> bool) {
    forall i {:trigger p(i)} :: p(i).Ok? ==> good(p(i).value)
  }

  ghost predicate Each<T>(xs: seq<T>, good: T -> bool) {
    forall k | 0 <= k < |xs| :: good(xs[k])
  }

  lemma {:induction false} SeparatedMoreSound<T(!new)>(
      sep: byte, p: Wire -> Outcome<T>, i: Wire, acc: seq<T>, good: T -> bool)
    requires Consuming(p) && Sound(p, good) && Each(acc, good)
    ensures var r := SeparatedMore(sep, p, i, acc); r.Ok? ==> Each(r.value, good)
    decreases Size(i)
  {
    if Char(sep, i).Ok? {
      var i1 := Char(sep, i).rest;
      if p(i1).Ok? {
        SeparatedMoreSound(sep, p, p(i1).rest, acc + [p(i1).value], good);
      }
    }
  }

  lemma SeparatedListSound<T(!new)>(sep: byte, p: Wire -> Outcome<T>, i: Wire, good: T -> bool)
    requires Consuming(p) && Sound(p, good)
    ensures var r := SeparatedList1(sep, p, i); r.Ok? ==> Each(r.value, good)
    ensures var r := SeparatedList0(sep, p, i); r.Ok? ==> Each(r.value, good)
  {
    if p(i).Ok? {
      SeparatedMoreSound(sep, p, p(i).rest, [p(i).value], good);
    }
  }

  lemma {:induction false} ManyMoreSound<T(!new)>(p: Wire -> Outcome<T>, i: Wire, acc: seq<T>, good: T -> bool)
    requires Consuming(p) && Sound(p, good) && Each(acc, good)
    ensures var r := ManyMore(p, i, acc); r.Ok? ==> Each(r.value, good) && |r.value| >= |acc|
    decreases Size(i)
  {
    if p(i).Ok? {
      ManyMoreSound(p, p(i).rest, acc + [p(i).value], good);
    }
  }

  lemma PairSound<A(!new), B(!new)>(
      p: Wire -> Outcome<A>, q: Wire -> Outcome<B>, i: Wire, goodA: A -> bool, goodB: B -> bool)
    requires Consuming(p) && Consuming(q)
    requires Sound(p, goodA) && Sound(q, goodB)
    ensures var r := Pair(p, q, i); r.Ok? ==> goodA(r.value.0) && goodB(r.value.1)
  {
  }

  lemma TripleSound<A(!new), B(!new), C(!new)>(
      p: Wire -> Outcome<A>, q: Wire -> Outcome<B>, s: Wire -> Outcome<C>, i: Wire,
      goodA: A -> bool, goodB: B -> bool, goodC: C -> bool)
    requires Consuming(p) && Consuming(q) && Consuming(s)
    requires Sound(p, goodA) && Sound(q, goodB) && Sound(s, goodC)
    ensures var r := Triple(p, q, s, i); r.Ok? ==> goodA(r.value.0) && goodB(r.value.1) && goodC(r.value.2)
  {
  }

  predicate GoodOption<T>(o: Option<T>, good: T -> bool) {
    o.Some? ==> good(o.value)
  }

  lemma Many0Sound<T(!new)>(p: Wire -> Outcome<T>, i: Wire, good: T -> bool)
    requires Consuming(p) && Sound(p, good)
    ensures var r := Many0(p, i); r.Ok? ==> Each(r.value, good)
  {
    ManyMoreSound(p, i, [], good);
  }

  lemma WithTailSound<A(!new), B(!new)>(
      p: Wire -> Outcome<A>, q: Wire -> Outcome<B>, i: Wire, goodA: A -> bool, goodB: B -> bool)
    requires Consuming(p) && Consuming(q)
    requires Sound(p, goodA) && Sound(q, goodB)
    ensures var r := WithTail(p, q, i); r.Ok? ==> goodA(r.value.0) && GoodOption(r.value.1, goodB)
  {
  }

  lemma EnclosedSound<T(!new)>(p: Wire -> Outcome<T>, i: Wire, good: T -> bool)
    requires forall j :: p(j).Ok? ==> Size(p(j).rest) <= Size(j)
    requires Sound(p, good)
    ensures var r := Enclosed(p, i); r.Ok? ==> good(r.value)
  {
  }

  // ----- Stability -----

  /** `after` is the outcome when `q` arrives behind the input that led to `before`. What was
      accepted or rejected stays so; only a request for literal data is taken back. */
  ghost predicate Extends<T>(before: Outcome<T>, after: Outcome<T>, q: Wire) {
    match before
    case Ok(rest, value) => after == Ok(Join(rest, q), value)
    case Error => after.Error?
    case Failure(kind) => kind.LiteralFound? || after == Failure(kind)
    case Incomplete => true
  }

  ghost predicate Stable<T>(p: Wire -> Outcome<T>) {
    forall i, q {:trigger p(Join(i, q))} :: Extends(p(i), p(Join(i, q)), q)
  }

  lemma CharStable(b: byte, i: Wire, q: Wire)
    ensures Extends(Char(b, i), Char(b, Join(i, q)), q)
  {
  }

  lemma CrlfStable(i: Wire, q: Wire)
    ensures Extends(Crlf(i), Crlf(Join(i, q)), q)
  {
    if i.Byte? {
      CharStable(LF, i.tail, q);
    }
  }

  lemma {:induction false} TagFromStable(t: string, k: nat, i: Wire, q: Wire)
    requires k <= |t|
    ensures Extends(TagFrom(t, k, i), TagFrom(t, k, Join(i, q)), q)
    decreases |t| - k
  {
    if k < |t| && i.Byte? {
      TagFromStable(t, k + 1, i.tail, q);
    }
  }

  lemma TagStable(t: string, i: Wire, q: Wire)
    ensures Extends(TagNoCase(t, i), TagNoCase(t, Join(i, q)), q)
  {
    TagFromStable(t, 0, i, q);
  }

  lemma {:induction false} TakeWhileStable(p: byte -> bool, i: Wire, q: Wire)
    ensures var (text, rest) := TakeWhile(p, i);
            rest.Byte? ==> TakeWhile(p, Join(i, q)) == (text, Join(rest, q))
  {
    if i.Byte? {
      TakeWhileStable(p, i.tail, q);
    }
  }

  lemma TakeWhile1Stable(p: byte -> bool, i: Wire, q: Wire)
    ensures Extends(TakeWhile1(p, i), TakeWhile1(p, Join(i, q)), q)
  {
    TakeWhileStable(p, i, q);
  }

  lemma {:induction false} TakeUpToStable(n: nat, p: byte -> bool, i: Wire, q: Wire)
    ensures var (text, rest) := TakeUpTo(n, p, i);
            rest.Byte? || |text| == n ==> TakeUpTo(n, p, Join(i, q)) == (text, Join(rest, q))
    decreases n
  {
    if i.Byte? && n > 0 {
      TakeUpToStable(n - 1, p, i.tail, q);
    }
    if n == 0 {
      assert TakeUpTo(0, p, Join(i, q)) == ([], Join(i, q));
    }
  }

  lemma TakeWhileMNStable(m: nat, n: nat, p: byte -> bool, i: Wire, q: Wire)
    requires 0 < m <= n
    ensures Extends(TakeWhileMN(m, n, p, i), TakeWhileMN(m, n, p, Join(i, q)), q)
  {
    TakeUpToStable(n, p, i, q);
  }

  lemma {:induction false} TakeStable(n: nat, i: Wire, q: Wire)
    ensures Extends(Take(n, i), Take(n, Join(i, q)), q)
  {
    if n > 0 && i.Byte? {
      TakeStable(n - 1, i.tail, q);
    }
  }

  lemma {:induction false} SeparatedMoreStable<T>(
      sep: byte, p: Wire -> Outcome<T>, i: Wire, acc: seq<T>, q: Wire)
    requires Consuming(p) && Stable(p)
    ensures Extends(SeparatedMore(sep, p, i, acc), SeparatedMore(sep, p, Join(i, q), acc), q)
    decreases Size(i)
  {
    CharStable(sep, i, q);
    if Char(sep, i).Ok? {
      var i1 := Char(sep, i).rest;
      assert Extends(p(i1), p(Join(i1, q)), q);
      if p(i1).Ok? {
        SeparatedMoreStable(sep, p, p(i1).rest, acc + [p(i1).value], q);
      }
    }
  }

  lemma SeparatedList1Stable<T>(sep: byte, p: Wire -> Outcome<T>, i: Wire, q: Wire)
    requires Consuming(p) && Stable(p)
    ensures Extends(SeparatedList1(sep, p, i), SeparatedList1(sep, p, Join(i, q)), q)
    ensures Extends(SeparatedList0(sep, p, i), SeparatedList0(sep, p, Join(i, q)), q)
  {
    assert Extends(p(i), p(Join(i, q)), q);
    if p(i).Ok? {
      SeparatedMoreStable(sep, p, p(i).rest, [p(i).value], q);
    }
  }

  lemma {:induction false} ManyMoreStable<T>(p: Wire -> Outcome<T>, i: Wire, acc: seq<T>, q: Wire)
    requires Consuming(p) && Stable(p)
    ensures Extends(ManyMore(p, i, acc), ManyMore(p, Join(i, q), acc), q)
    decreases Size(i)
  {
    assert Extends(p(i), p(Join(i, q)), q);
    if p(i).Ok? {
      ManyMoreStable(p, p(i).rest, acc + [p(i).value], q);
    }
  }

  lemma PairStable<A, B>(p: Wire -> Outcome<A>, q: Wire -> Outcome<B>, i: Wire, w: Wire)
    requires Consuming(p) && Consuming(q) && Stable(p) && Stable(q)
    ensures Extends(Pair(p, q, i), Pair(p, q, Join(i, w)), w)
  {
    assert Extends(p(i), p(Join(i, w)), w);
    if p(i).Ok? {
      var i1 := p(i).rest;
      CharStable(SP, i1, w);
      if Char(SP, i1).Ok? {
        var i2 := Char(SP, i1).rest;
        assert Extends(q(i2), q(Join(i2, w)), w);
      }
    }
  }

  lemma TripleStable<A, B, C>(
      p: Wire -> Outcome<A>, q: Wire -> Outcome<B>, s: Wire -> Outcome<C>, i: Wire, w: Wire)
    requires Consuming(p) && Consuming(q) && Consuming(s) && Stable(p) && Stable(q) && Stable(s)
    ensures Extends(Triple(p, q, s, i), Triple(p, q, s, Join(i, w)), w)
  {
    assert Extends(p(i), p(Join(i, w)), w);
    if p(i).Ok? {
      var i1 := p(i).rest;
      CharStable(SP, i1, w);
      if Char(SP, i1).Ok? {
        PairStable(q, s, Char(SP, i1).rest, w);
      }
    }
  }

  lemma BehindStable<T>(p: Wire -> Outcome<T>, i: Wire, w: Wire)
    requires Consuming(p) && Stable(p)
    ensures Extends(Behind(p, i), Behind(p, Join(i, w)), w)
  {
    CharStable(SP, i, w);
    if Char(SP, i).Ok? {
      var i1 := Char(SP, i).rest;
      assert Extends(p(i1), p(Join(i1, w)), w);
    }
  }

  lemma OptStable<T>(before: Outcome<T>, after: Outcome<T>, i: Wire, w: Wire)
    requires Extends(before, after, w)
    ensures Extends(Opt(before, i), Opt(after, Join(i, w)), w)
  {
  }

  lemma AltStable<T>(first: Outcome<T>, first': Outcome<T>, second: Outcome<T>, second': Outcome<T>, w: Wire)
    requires Extends(first, first', w) && Extends(second, second', w)
    ensures Extends(Alt(first, second), Alt(first', second'), w)
  {
  }

  lemma {:induction false} FirstOfStable<V(!new), T>(read: (V, Wire) -> Outcome<T>, all: seq<V>, n: nat, i: Wire, w: Wire)
    requires forall v, j :: read(v, j).Consumes(j)
    requires n <= |all|
    requires forall m {:trigger all[m]} | 0 <= m < |all| :: Extends(read(all[m], i), read(all[m], Join(i, w)), w)
    ensures Extends(FirstOf(read, all, n, i), FirstOf(read, all, n, Join(i, w)), w)
    decreases |all| - n
  {
    if n < |all| {
      FirstOfStable(read, all, n + 1, i, w);
      AltStable(read(all[n], i), read(all[n], Join(i, w)),
                FirstOf(read, all, n + 1, i), FirstOf(read, all, n + 1, Join(i, w)), w);
    }
  }

  lemma {:induction false} AltsStable<T>(
      o: Outcome<T>, o': Outcome<T>, a: Outcome<T>, a': Outcome<T>, b: Outcome<T>, b': Outcome<T>,
      c: Outcome<T>, c': Outcome<T>, q: Wire)
    requires o == Alt(a, Alt(b, c)) && o' == Alt(a', Alt(b', c'))
    requires Extends(a, a', q) && Extends(b, b', q) && Extends(c, c', q)
    ensures Extends(o, o', q)
  {
    AltStable(b, b', c, c', q);
    AltStable(a, a', Alt(b, c), Alt(b', c'), q);
  }

  lemma WithTailStable<A, B>(p: Wire -> Outcome<A>, q: Wire -> Outcome<B>, i: Wire, w: Wire)
    requires Consuming(p) && Consuming(q) && Stable(p) && Stable(q)
    ensures Extends(WithTail(p, q, i), WithTail(p, q, Join(i, w)), w)
  {
    assert Extends(p(i), p(Join(i, w)), w);
    if p(i).Ok? {
      var i1 := p(i).rest;
      BehindStable(q, i1, w);
      OptStable(Behind(q, i1), Behind(q, Join(i1, w)), i1, w);
    }
  }

  lemma EnclosedStable<T>(p: Wire -> Outcome<T>, i: Wire, w: Wire)
    requires forall j :: p(j).Ok? ==> Size(p(j).rest) <= Size(j)
    requires Stable(p)
    ensures Extends(Enclosed(p, i), Enclosed(p, Join(i, w)), w)
  {
    CharStable(LPAREN, i, w);
    if Char(LPAREN, i).Ok? {
      var i1 := Char(LPAREN, i).rest;
      assert Extends(p(i1), p(Join(i1, w)), w);
      if p(i1).Ok? {
        CharStable(RPAREN, p(i1).rest, w);
      }
    }
  }

  lemma Many1Stable<T>(p: Wire -> Outcome<T>, i: Wire, w: Wire)
    requires Consuming(p) && Stable(p)
    ensures Extends(Many1(p, i), Many1(p, Join(i, w)), w)
    ensures Extends(Many0(p, i), Many0(p, Join(i, w)), w)
  {
    assert Extends(p(i), p(Join(i, w)), w);
    if p(i).Ok? {
      ManyMoreStable(p, p(i).rest, [p(i).value], w);
    }
    ManyMoreStable(p, i, [], w);
  }
}
