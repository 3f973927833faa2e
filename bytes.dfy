/** Bytes of the wire format: the byte type, the ASCII control codes the VT102
    decoder recognises, and decimal text as the decoder reads and writes it. */
module Bytes {

  newtype byte = x: int | 0 <= x < 256

  const NUL: byte := 0x00
  const ENQ: byte := 0x05
  const BEL: byte := 0x07
  const BS: byte := 0x08
  const LF: byte := 0x0A
  const CR: byte := 0x0D
  const SO: byte := 0x0E
  const SI: byte := 0x0F
  const ESC: byte := 0x1B
  /** the single-byte Control Sequence Introducer */
  const CSI: byte := 0x9B

  /** The byte of a Latin-1 character. */
  function Latin1(c: char): byte
    requires c as int < 256
  {
    c as int as byte
  }

  /** The bytes of a Latin-1 string literal. */
  function Text(s: string): (r: seq<byte>)
    requires forall i :: 0 <= i < |s| ==> s[i] as int < 256
    ensures |r| == |s|
    ensures forall i :: 0 <= i < |s| ==> r[i] as int == s[i] as int
  {
    if s == [] then [] else [Latin1(s[0])] + Text(s[1..])
  }

  predicate IsDigit(b: byte) { '0' as int <= b as int <= '9' as int }

  predicate IsLetter(b: byte) {
    ('a' as int <= b as int <= 'z' as int) || ('A' as int <= b as int <= 'Z' as int)
  }

  predicate AllDigits(s: seq<byte>) { forall i :: 0 <= i < |s| ==> IsDigit(s[i]) }

  /** The value of a run of decimal digits, read most significant digit first. */
  function DecimalValue(s: seq<byte>): nat
    requires AllDigits(s)
  {
    if s == [] then 0
    else DecimalValue(s[..|s| - 1]) * 10 + (s[|s| - 1] as int - '0' as int)
  }

  function DigitByte(d: nat): (b: byte)
    requires d < 10
    ensures IsDigit(b) && b as int - '0' as int == d
  {
    (d + '0' as int) as byte
  }

  /** Canonical decimal text of a natural number, as printf's %d writes it. */
  function Decimal(n: nat): (s: seq<byte>)
    ensures 1 <= |s| && AllDigits(s)
  {
    if n < 10 then [DigitByte(n)] else Decimal(n / 10) + [DigitByte(n % 10)]
  }

  /** Reading back what Decimal writes gives the number. */
  lemma {:induction false} DecimalRoundTrip(n: nat)
    ensures DecimalValue(Decimal(n)) == n
  {
    var s := Decimal(n);
    if n >= 10 {
      assert s[..|s| - 1] == Decimal(n / 10);
      DecimalRoundTrip(n / 10);
    }
  }

  /** The text a C-string consumer sees: everything before the first NUL. */
  function UntilNul(s: seq<byte>): (r: seq<byte>)
    ensures |r| <= |s| && r == s[..|r|]
    ensures NUL !in r
    ensures |r| < |s| ==> s[|r|] == NUL
  {
    if s == [] || s[0] == NUL then [] else [s[0]] + UntilNul(s[1..])
  }
}
