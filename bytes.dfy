/** Machine integers and byte strings as the program uses them. */
module Bytes {

  /** A Rust `u8`. */
  newtype uint8 = x: int | 0 <= x < 0x100

  /** A Rust `u32` (the interface index). */
  newtype uint32 = x: int | 0 <= x < 0x1_0000_0000

  type Bytes = seq<uint8>

  /** The ASCII code of ':'. */
  const Colon: uint8 := 58

  /** The bytes of a string literal whose characters are all below 256
      (each character is taken modulo 256). */
  function Ascii(s: string): (r: Bytes)
    ensures |r| == |s|
    ensures forall i :: 0 <= i < |s| && s[i] as int < 0x100 ==> r[i] as int == s[i] as int
  {
    seq(|s|, i requires 0 <= i < |s| => (s[i] as int % 0x100) as uint8)
  }

  predicate IsDigit(b: uint8) {
    48 <= b <= 57
  }

  /** The ASCII digit of a value 0..9. */
  function Digit(d: nat): (b: uint8)
    requires d < 10
    ensures IsDigit(b) && (b - 48) as nat == d
  {
    (48 + d) as uint8
  }

  /** The decimal text of `n`, as Rust's `Display` for an unsigned integer writes it:
      no sign, no leading zeros, "0" for zero. */
  function Decimal(n: nat): (r: Bytes)
    decreases n
  {
    if n < 10 then [Digit(n)] else Decimal(n / 10) + [Digit(n % 10)]
  }

  /** The value of a string of ASCII digits, most significant first. */
  function DigitsValue(s: Bytes): (v: nat)
    requires forall k :: 0 <= k < |s| ==> IsDigit(s[k])
  {
    if s == [] then 0
    else
      var last := s[|s| - 1];
      assert IsDigit(last);
      DigitsValue(s[..|s| - 1]) * 10 + (last as int - 48)
  }

  /** `Decimal` writes only digits, at least one, and no leading zero. */
  lemma {:induction false} DecimalShape(n: nat)
    ensures |Decimal(n)| >= 1
    ensures forall k :: 0 <= k < |Decimal(n)| ==> IsDigit(Decimal(n)[k])
    ensures Decimal(n)[0] == 48 <==> n == 0
    decreases n
  {
    if n >= 10 {
      DecimalShape(n / 10);
      assert Decimal(n)[0] == Decimal(n / 10)[0];
    }
  }

  /** Reading the decimal text back gives the number: `Decimal` loses nothing. */
  lemma {:induction false} DecimalValue(n: nat)
    ensures forall k :: 0 <= k < |Decimal(n)| ==> IsDigit(Decimal(n)[k])
    ensures DigitsValue(Decimal(n)) == n
    decreases n
  {
    DecimalShape(n);
    if n >= 10 {
      DecimalValue(n / 10);
      var d := Decimal(n);
      assert d[..|d| - 1] == Decimal(n / 10);
    }
  }

  /** Distinct numbers have distinct decimal texts. */
  lemma DecimalInjective(m: nat, n: nat)
    requires m != n
    ensures Decimal(m) != Decimal(n)
  {
    DecimalValue(m);
    DecimalValue(n);
  }
}
