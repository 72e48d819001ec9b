/** Sequence sets on the wire. */
module SequenceCodec {
  import opened Octets
  import opened Nom
  import opened Strings
  import opened SequenceSets

  // ----- The grammar -----

  ghost predicate SeqNumberText(a: SeqOrUid, i: Wire, rest: Wire) {
    match a
    case Value(n) => NumberText(n, i, rest)
    case Asterisk => i == Byte(ASTERISK, rest)
  }

  ghost predicate SequenceText(s: Sequence, i: Wire, rest: Wire) {
    match s
    case Single(a) => SeqNumberText(a, i, rest)
    case Range(a, b) => exists j :: SeqNumberText(a, i, Byte(COLON, j)) && SeqNumberText(b, j, rest)
  }

  /** One or more sequences with commas between them. */
  ghost predicate SetText(set_: seq<Sequence>, i: Wire, rest: Wire) {
    SeparatedText(COMMA, SequenceText, set_, i, rest)
  }

  // ----- Writing -----

  function PutSeqOrUid(a: SeqOrUid, rest: Wire): Wire {
    match a
    case Value(n) => PutNat(n, rest)
    case Asterisk => Byte(ASTERISK, rest)
  }

  function PutSequence(s: Sequence, rest: Wire): Wire {
    match s
    case Single(a) => PutSeqOrUid(a, rest)
    case Range(a, b) => PutSeqOrUid(a, Byte(COLON, PutSeqOrUid(b, rest)))
  }

  /** The sequences from index `k` on, each behind a comma. */
  function PutMoreSequences(set_: seq<Sequence>, k: nat, rest: Wire): Wire
    requires k <= |set_|
    decreases |set_| - k
  {
    if k == |set_| then rest
    else Byte(COMMA, PutSequence(set_[k], PutMoreSequences(set_, k + 1, rest)))
  }

  function PutSequenceSet(set_: seq<Sequence>, rest: Wire): Wire {
    if set_ == [] then rest
    else PutSequence(set_[0], PutMoreSequences(set_, 1, rest))
  }

  // ----- Reading -----

  function ReadSeqNumber(i: Wire): (r: Outcome<SeqOrUid>)
    ensures r.Consumes(i)
  {
    Alt(match ReadNzNumber(i)
        case Ok(rest, n) => Ok(rest, Value(n))
        case Incomplete => Incomplete
        case Error => Error
        case Failure(kind) => Failure(kind),
        Char(ASTERISK, i).Map(_ => Asterisk))
  }

  function ReadRange(i: Wire): (r: Outcome<Sequence>)
    ensures r.Consumes(i)
  {
    var (i1, from) :- ReadSeqNumber(i);
    var (i2, _) :- Char(COLON, i1);
    var (i3, upto) :- ReadSeqNumber(i2);
    Ok(i3, Range(from, upto))
  }

  function ReadSequence(i: Wire): (r: Outcome<Sequence>)
    ensures r.Consumes(i)
  {
    Alt(ReadRange(i), ReadSeqNumber(i).Map(a => Single(a)))
  }

  function ReadSequenceSet(i: Wire): (r: Outcome<seq<Sequence>>)
    ensures r.Consumes(i)
    ensures r.Ok? ==> r.value != []
  {
    SeparatedList1(COMMA, ReadSequence, i)
  }

  // ----- Reading inverts writing -----

  /** What may follow a sequence set: nothing that could continue it. */
  ghost predicate EndsSet(rest: Wire) {
    rest.Byte? && !IsDigit(rest.head) && rest.head != COMMA && rest.head != COLON
  }

  ghost predicate EndsSequence(rest: Wire) {
    rest.Byte? && !IsDigit(rest.head) && rest.head != COLON
  }

  lemma SeqNumberReads(a: SeqOrUid, i: Wire, rest: Wire)
    requires SeqNumberText(a, i, rest)
    requires rest.Byte? && !IsDigit(rest.head)
    ensures ReadSeqNumber(i) == Ok(rest, a)
  {
    if a.Value? {
      NumberReads(a.number, i, rest);
    }
  }

  lemma SequenceReads(s: Sequence, i: Wire, rest: Wire)
    requires SequenceText(s, i, rest)
    requires EndsSequence(rest)
    ensures ReadSequence(i) == Ok(rest, s)
  {
    match s
    case Single(a) =>
      SeqNumberReads(a, i, rest);
    case Range(a, b) =>
      var j :| SeqNumberText(a, i, Byte(COLON, j)) && SeqNumberText(b, j, rest);
      SeqNumberReads(a, i, Byte(COLON, j));
      SeqNumberReads(b, j, rest);
  }

  /** Sequence sets are read with order, direction and `*` kept. */
  lemma SetReads(set_: seq<Sequence>, i: Wire, rest: Wire)
    requires SetText(set_, i, rest)
    requires EndsSet(rest)
    ensures ReadSequenceSet(i) == Ok(rest, set_)
  {
    forall s, j, next {:trigger SequenceText(s, j, next)} | SequenceText(s, j, next) && EndsSequence(next)
      ensures ReadSequence(j) == Ok(next, s)
    {
      SequenceReads(s, j, next);
    }
    SeparatedTextReads(COMMA, ReadSequence, SequenceText, EndsSequence, set_, i, rest);
  }

  lemma SeqNumberIsText(i: Wire)
    ensures var r := ReadSeqNumber(i); r.Ok? ==> SeqNumberText(r.value, i, r.rest)
  {
    NumberIsText(i);
  }

  lemma SequenceIsText(i: Wire)
    ensures var r := ReadSequence(i); r.Ok? ==> SequenceText(r.value, i, r.rest)
  {
    SeqNumberIsText(i);
    if ReadRange(i).Ok? {
      var i1 := ReadSeqNumber(i).rest;
      assert i1 == Byte(COLON, i1.tail);
      SeqNumberIsText(i1.tail);
    }
  }

  /** Only texts of sequence sets are read as such. */
  lemma SetIsText(i: Wire)
    ensures var r := ReadSequenceSet(i); r.Ok? ==> SetText(r.value, i, r.rest)
  {
    forall j {:trigger ReadSequence(j)}
      ensures var r := ReadSequence(j); r.Ok? ==> SequenceText(r.value, j, r.rest)
    {
      SequenceIsText(j);
    }
    SeparatedIsText(COMMA, ReadSequence, SequenceText, i);
  }

  lemma PutSeqOrUidIsText(a: SeqOrUid, rest: Wire)
    ensures SeqNumberText(a, PutSeqOrUid(a, rest), rest)
  {
    if a.Value? {
      PutNatIsText(a.number, rest);
    }
  }

  lemma PutSequenceIsText(s: Sequence, rest: Wire)
    ensures SequenceText(s, PutSequence(s, rest), rest)
  {
    match s
    case Single(a) => PutSeqOrUidIsText(a, rest);
    case Range(a, b) =>
      PutSeqOrUidIsText(b, rest);
      PutSeqOrUidIsText(a, Byte(COLON, PutSeqOrUid(b, rest)));
  }

  /** The text of a set from element `m` on. */
  function SequencesFrom(set_: seq<Sequence>, rest: Wire): nat -> Wire {
    (m: nat) => if m < |set_| then PutSequence(set_[m], PutMoreSequences(set_, m + 1, rest)) else rest
  }

  lemma SequenceStands(set_: seq<Sequence>, m: nat, rest: Wire)
    requires m < |set_|
    ensures SequenceText(set_[m], SequencesFrom(set_, rest)(m),
              if m + 1 < |set_| then Byte(COMMA, SequencesFrom(set_, rest)(m + 1)) else rest)
  {
    PutSequenceIsText(set_[m], PutMoreSequences(set_, m + 1, rest));
  }

  lemma {:induction false} SequencesStand(set_: seq<Sequence>, rest: Wire) returns (text: nat -> Wire)
    requires set_ != []
    ensures StandsSeparated(COMMA, SequenceText, set_, text, rest)
    ensures text(0) == PutSequenceSet(set_, rest)
  {
    text := SequencesFrom(set_, rest);
    forall m: nat {:trigger set_[m]} | m < |set_|
      ensures SequenceText(set_[m], text(m), if m + 1 < |set_| then Byte(COMMA, text(m + 1)) else rest)
    {
      SequenceStands(set_, m, rest);
    }
  }

  lemma {:induction false} PutSetIsText(set_: seq<Sequence>, rest: Wire)
    requires set_ != []
    ensures SetText(set_, PutSequenceSet(set_, rest), rest)
  {
    var text := SequencesStand(set_, rest);
  }

  /** Sequence sets are read back as written, with order, direction and `*` kept. */
  lemma SequenceSetRoundTrip(set_: seq<Sequence>, rest: Wire)
    requires set_ != []
    requires EndsSet(rest)
    ensures ReadSequenceSet(PutSequenceSet(set_, rest)) == Ok(rest, set_)
  {
    PutSetIsText(set_, rest);
    SetReads(set_, PutSequenceSet(set_, rest), rest);
  }

  // ----- Stability -----

  lemma SeqNumberStable(i: Wire, q: Wire)
    ensures Extends(ReadSeqNumber(i), ReadSeqNumber(Join(i, q)), q)
  {
    NumberStable(i, q);
    CharStable(ASTERISK, i, q);
  }

  lemma RangeStable(i: Wire, q: Wire)
    ensures Extends(ReadRange(i), ReadRange(Join(i, q)), q)
  {
    SeqNumberStable(i, q);
    if ReadSeqNumber(i).Ok? {
      var i1 := ReadSeqNumber(i).rest;
      CharStable(COLON, i1, q);
      if Char(COLON, i1).Ok? {
        SeqNumberStable(Char(COLON, i1).rest, q);
      }
    }
  }

  lemma SequenceSetStable(i: Wire, q: Wire)
    ensures Extends(ReadSequenceSet(i), ReadSequenceSet(Join(i, q)), q)
  {
    forall i: Wire, q: Wire
      ensures Extends(ReadSequence(i), ReadSequence(Join(i, q)), q)
    {
      RangeStable(i, q);
      SeqNumberStable(i, q);
    }
    SeparatedList1Stable(COMMA, ReadSequence, i, q);
  }
}
