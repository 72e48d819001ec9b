/** Sequence sets and the numbers they stand for. */
module SequenceSets {
  import opened Octets

  type NonZeroU32 = n: nat | 1 <= n <= U32_MAX witness 1

  const MAX: NonZeroU32 := U32_MAX

  datatype SeqOrUid = Value(number: NonZeroU32) | Asterisk {
    function ToNonZeroU32(): NonZeroU32 {
      match this
      case Value(n) => n
      case Asterisk => MAX
    }

    function Expand(largest: NonZeroU32): NonZeroU32 {
      match this
      case Value(n) => n
      case Asterisk => largest
    }
  }

  /** A number, or all numbers between two bounds given in either order. */
  datatype Sequence = Single(id: SeqOrUid) | Range(from: SeqOrUid, upto: SeqOrUid)

  function Min(a: nat, b: nat): nat { if a <= b then a else b }

  function Max(a: nat, b: nat): nat { if a <= b then b else a }

  function Low(s: Sequence, largest: NonZeroU32): nat {
    match s
    case Single(a) => a.Expand(largest)
    case Range(a, b) => Min(a.Expand(largest), b.Expand(largest))
  }

  function High(s: Sequence, largest: NonZeroU32): nat {
    match s
    case Single(a) => a.Expand(largest)
    case Range(a, b) => Max(a.Expand(largest), b.Expand(largest))
  }

  predicate Denotes(s: Sequence, largest: NonZeroU32, x: nat) {
    Low(s, largest) <= x <= High(s, largest)
  }

  /** The numbers a set stands for when `*` stands for `largest`. */
  ghost predicate Member(set_: seq<Sequence>, largest: NonZeroU32, x: nat) {
    exists k :: 0 <= k < |set_| && Denotes(set_[k], largest, x)
  }

  ghost predicate SameMembers(a: seq<Sequence>, b: seq<Sequence>, largest: NonZeroU32) {
    forall x :: Member(a, largest, x) <==> Member(b, largest, x)
  }

  // ----- Strictly ascending sequences -----

  ghost predicate Ascending(s: seq<nat>) {
    forall i, j | 0 <= i < j < |s| :: s[i] < s[j]
  }

  lemma SomeElement(s: seq<nat>) returns (x: nat)
    requires s != []
    ensures x in s
  {
    x := s[0];
  }

  /** A strictly ascending sequence is determined by its elements. */
  lemma {:induction false} AscendingUnique(a: seq<nat>, b: seq<nat>)
    requires Ascending(a) && Ascending(b)
    requires forall x :: x in a <==> x in b
    ensures a == b
    decreases |a|
  {
    if a == [] && b != [] {
      var x := SomeElement(b);
    } else if a != [] && b == [] {
      var x := SomeElement(a);
    } else if a != [] {
      var m, n := |a| - 1, |b| - 1;
      assert a[m] in b && b[n] in a;
      assert a[m] == b[n];
      var a', b' := a[..m], b[..n];
      forall x
        ensures x in a' <==> x in b'
      {
        assert x in a <==> x in a' || x == a[m];
        assert x in b <==> x in b' || x == b[n];
      }
      AscendingUnique(a', b');
      assert a == a' + [a[m]] && b == b' + [b[n]];
    }
  }
}
