/** Bytes, small integer helpers and the `%d` conversion that the viewer's
    formatted output relies on. */
module Bytes {

  /** One unsigned byte, as read from the terminal or from the file. */
  type byte = x: int | 0 <= x < 256

  datatype Option<T> = None | Some(value: T)

  const EscByte: byte := 0x1B
  const TabByte: byte := 0x09
  const LineFeed: byte := 0x0A
  const CarriageReturn: byte := 0x0D
  const Space: byte := 0x20
  const Tilde: byte := 0x7E
  const Minus: byte := 0x2D
  const Zero: byte := 0x30

  function Min(a: int, b: int): int { if a <= b then a else b }

  function Max(a: int, b: int): int { if a <= b then b else a }

  /** `x` forced into the interval [lo, hi], testing the lower bound first. */
  function Clamp(x: int, lo: int, hi: int): int { Min(Max(x, lo), hi) }

  /** Appending `b` then `c` is appending `b + c`. */
  lemma Concat3(a: seq<byte>, b: seq<byte>, c: seq<byte>)
    ensures a + b + c == a + (b + c)
  {
  }

  /** Appending four parts one by one is appending them joined. */
  lemma Concat5(prefix: seq<byte>, a: seq<byte>, b: seq<byte>, c: seq<byte>, d: seq<byte>)
    ensures prefix + a + b + c + d == prefix + (a + b + c + d)
  {
    Concat3(prefix, a, b);
    Concat3(prefix, a + b, c);
    Concat3(prefix, a + b + c, d);
  }

  /** The bytes of an ASCII text. */
  function Ascii(s: string): (r: seq<byte>)
    requires forall i :: 0 <= i < |s| ==> s[i] as int < 128
    ensures |r| == |s|
  {
    seq(|s|, i requires 0 <= i < |s| => s[i] as int)
  }

  /** `n` blanks. */
  function Spaces(n: nat): (r: seq<byte>)
    ensures |r| == n && forall i :: 0 <= i < n ==> r[i] == Space
  {
    seq(n, _ => Space)
  }

  predicate IsDigit(b: byte) { Zero <= b < Zero + 10 }

  /** The decimal digits of `n`, most significant first, with no leading
      zero: what `%d` prints for a non-negative value. */
  function DecimalNat(n: nat): (r: seq<byte>)
    ensures 1 <= |r|
    ensures forall i :: 0 <= i < |r| ==> IsDigit(r[i])
    ensures (r[0] == Zero) <==> (n == 0)
    ensures r[0] == Zero ==> |r| == 1
    decreases n
  {
    if n < 10 then [Zero + n] else DecimalNat(n / 10) + [Zero + n % 10]
  }

  /** What `%d` prints for any int: a minus sign before the digits of a
      negative value. */
  function Decimal(n: int): (r: seq<byte>)
    ensures 1 <= |r|
    ensures (r[0] == Minus) <==> (n < 0)
    ensures n < 0 ==> 2 <= |r| && r[1] != Zero
    ensures forall i :: 0 <= i < |r| ==> IsDigit(r[i]) || (i == 0 && r[i] == Minus)
  {
    if n < 0 then [Minus] + DecimalNat(-n) else DecimalNat(n)
  }

  /** The value of what `%d` printed: digits, after an optional minus sign. */
  function SignedValue(s: seq<byte>): int
    requires 1 <= |s|
    requires forall i :: 0 <= i < |s| ==> IsDigit(s[i]) || (i == 0 && s[i] == Minus)
  {
    var digits: int := if s[0] == Minus then DigitsValue(s[1..]) else DigitsValue(s);
    if s[0] == Minus then -digits else digits
  }

  /** The value of a string of decimal digits. */
  function DigitsValue(s: seq<byte>): nat
    requires forall i :: 0 <= i < |s| ==> IsDigit(s[i])
  {
    if s == [] then 0
    else
      assert IsDigit(s[|s| - 1]);
      DigitsValue(s[..|s| - 1]) * 10 + (s[|s| - 1] - Zero)
  }

  /** Reading back the digits `%d` printed gives the number again. */
  lemma {:induction false} DecimalNatRoundTrip(n: nat)
    ensures DigitsValue(DecimalNat(n)) == n
    decreases n
  {
    if n >= 10 {
      var r := DecimalNat(n);
      assert r[..|r| - 1] == DecimalNat(n / 10);
      DecimalNatRoundTrip(n / 10);
    }
  }

  /** Reading back what `%d` printed for any int gives the int again. */
  lemma DecimalRoundTrip(n: int)
    ensures SignedValue(Decimal(n)) == n
  {
    if n < 0 {
      assert Decimal(n)[1..] == DecimalNat(-n);
      DecimalNatRoundTrip(-n);
    } else {
      DecimalNatRoundTrip(n);
    }
  }
}
