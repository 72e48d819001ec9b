/** Octets, the character classes of the IMAP grammar, and decimal numbers. */
module Octets {

  datatype Option<+T> = None | Some(value: T)

  newtype byte = x: int | 0 <= x < 0x100
  type bytes = seq<byte>

  /** Whether a client must wait for a continuation request before it sends a literal. */
  datatype LiteralMode = Sync | NonSync

  const U32_MAX: nat := 0xFFFF_FFFF

  type U32 = n: nat | n <= U32_MAX

  const LF: byte := 0x0A
  const CR: byte := 0x0D
  const SP: byte := 0x20
  const DQUOTE: byte := 0x22
  const LPAREN: byte := 0x28
  const RPAREN: byte := 0x29
  const ASTERISK: byte := 0x2A
  const PLUS: byte := 0x2B
  const COMMA: byte := 0x2C
  const HYPHEN: byte := 0x2D
  const COLON: byte := 0x3A
  const BACKSLASH: byte := 0x5C
  const LBRACE: byte := 0x7B
  const RBRACE: byte := 0x7D

  /** The octets of an ASCII text. */
  function Ascii(t: string): (r: bytes)
    ensures |r| == |t|
    ensures forall k | 0 <= k < |t| :: r[k] == Octet(t[k])
  {
    seq(|t|, k requires 0 <= k < |t| => Octet(t[k]))
  }

  function Octet(c: char): byte {
    (c as int % 0x100) as byte
  }

  function LowerCase(b: byte): byte {
    if 0x41 <= b <= 0x5A then b + 0x20 else b
  }

  /** The same byte, or the same letter in the other case. */
  predicate SameLetter(b: byte, c: byte) {
    || b == c
    || (0x41 <= c <= 0x5A && b as int == c as int + 0x20)
    || (0x61 <= c <= 0x7A && b as int == c as int - 0x20)
  }

  /** An ASCII text spelled in any case of letters. */
  predicate Spells(s: bytes, t: string) {
    |s| == |t| && forall k | 0 <= k < |t| :: SameLetter(s[k], Octet(t[k]))
  }

  // ----- Character classes -----

  predicate IsChar(b: byte) { 0x01 <= b <= 0x7F }

  predicate IsCtl(b: byte) { b <= 0x1F || b == 0x7F }

  predicate IsQuotedSpecials(b: byte) { b == DQUOTE || b == BACKSLASH }

  predicate IsListWildcards(b: byte) { b == 0x25 || b == ASTERISK }

  predicate IsRespSpecials(b: byte) { b == 0x5D }

  predicate IsAtomSpecials(b: byte) {
    || b == LPAREN || b == RPAREN || b == LBRACE || b == SP
    || IsCtl(b)
    || IsListWildcards(b)
    || IsQuotedSpecials(b)
    || IsRespSpecials(b)
  }

  predicate IsAtomChar(b: byte) { IsChar(b) && !IsAtomSpecials(b) }

  predicate IsAStringChar(b: byte) { IsAtomChar(b) || IsRespSpecials(b) }

  predicate IsTagChar(b: byte) { IsAStringChar(b) && b != PLUS }

  predicate IsTextChar(b: byte) {
    0x01 <= b <= 0x09 || 0x0B <= b <= 0x0C || 0x0E <= b <= 0x7F
  }

  predicate IsQuotedText(b: byte) { IsTextChar(b) && !IsQuotedSpecials(b) }

  predicate IsChar8(b: byte) { b != 0 }

  predicate IsDigit(b: byte) { 0x30 <= b <= 0x39 }

  predicate ValidTag(text: bytes) {
    text != [] && forall k | 0 <= k < |text| :: IsTagChar(text[k])
  }

  ghost predicate All(p: byte -> bool, s: bytes) {
    forall k | 0 <= k < |s| :: p(s[k])
  }

  // ----- Decimal numbers -----

  function DigitValue(b: byte): nat {
    if IsDigit(b) then b as int - 0x30 else 0
  }

  function DecimalValue(digits: bytes): nat {
    if digits == [] then 0
    else 10 * DecimalValue(digits[..|digits| - 1]) + DigitValue(digits[|digits| - 1])
  }

  /** Decimal notation without leading zeros, as the number formatter prints it. */
  function ShowNat(n: nat): (s: bytes)
    ensures s != []
    decreases n
  {
    if n < 10 then [(0x30 + n) as byte]
    else ShowNat(n / 10) + [(0x30 + n % 10) as byte]
  }

  lemma {:induction false} ShowNatReads(n: nat)
    ensures All(IsDigit, ShowNat(n))
    ensures DecimalValue(ShowNat(n)) == n
  {
    if n < 10 {
      assert ShowNat(n)[..0] == [];
    } else {
      ShowNatReads(n / 10);
      assert ShowNat(n)[..|ShowNat(n)| - 1] == ShowNat(n / 10);
    }
  }

  /** No digit is superfluous. */
  lemma {:induction false} ShowNatIsShort(n: nat)
    ensures |ShowNat(n)| > 1 ==> ShowNat(n)[0] != 0x30
  {
    if n >= 10 {
      ShowNatIsShort(n / 10);
      assert ShowNat(n)[0] == ShowNat(n / 10)[0];
    }
  }

  /** A prefix of a decimal number is never larger than the number. */
  lemma {:induction false} PrefixValue(digits: bytes, k: nat)
    requires k <= |digits|
    ensures DecimalValue(digits[..k]) <= DecimalValue(digits)
    decreases |digits|
  {
    if k == |digits| {
      assert digits[..k] == digits;
    } else {
      var init := digits[..|digits| - 1];
      PrefixValue(init, k);
      assert init[..k] == digits[..k];
    }
  }

  /** The first `n` elements satisfy `ok`. */
  predicate First<T>(s: seq<T>, n: nat, ok: T -> bool)
    requires n <= |s|
  {
    forall k | 0 <= k < n :: ok(s[k])
  }

  lemma FirstNext<T>(s: seq<T>, n: nat, ok: T -> bool)
    requires n < |s|
    ensures First(s, n + 1, ok) == (First(s, n, ok) && ok(s[n]))
  {
  }

  /** Equality that the verifier does not take apart element by element. */
  predicate Same<T(==)>(a: T, b: T) {
    a == b
  }
}
