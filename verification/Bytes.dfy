/** Bytes, byte strings and the integer conversions that C performs on them. */
module Bytes {

  /** One `unsigned char`. */
  type byte = x: int | 0 <= x < 256

  datatype Option<+T> = None | Some(value: T)

  /** The value an `unsigned char` keeps of `n`. */
  function LowByte(n: int): byte {
    n % 256
  }

  /** Two's complement reading of the low 16 bits of `n`: assignment to a `short`. */
  function ToInt16(n: int): int {
    var m := n % 0x1_0000;
    if m < 0x8000 then m else m - 0x1_0000
  }

  /** Two's complement reading of the low 32 bits of `n`: assignment to an `int`. */
  function ToInt32(n: int): int {
    var m := n % 0x1_0000_0000;
    if m < 0x8000_0000 then m else m - 0x1_0000_0000
  }

  /** Two's complement reading of the low 64 bits of `n`: assignment to a 64-bit `mrb_int`. */
  function ToInt64(n: int): int {
    var m := n % 0x1_0000_0000_0000_0000;
    if m < 0x8000_0000_0000_0000 then m else m - 0x1_0000_0000_0000_0000
  }

  /** A Ruby Fixnum of this build (`MRB_INT64`). */
  predicate IsFixnum(n: int) {
    -0x8000_0000_0000_0000 <= n < 0x8000_0000_0000_0000
  }

  /** C division: the quotient is rounded toward zero. */
  function TruncDiv(n: int, d: int): int
    requires d > 0
  {
    if n >= 0 then n / d else -((-n) / d)
  }

  /** C remainder: it takes the sign of the dividend. */
  function TruncMod(n: int, d: int): int
    requires d > 0
  {
    n - d * TruncDiv(n, d)
  }

  function Min(a: int, b: int): int {
    if a <= b then a else b
  }

  function Max(a: int, b: int): int {
    if a <= b then b else a
  }

  lemma SeqAssoc<T>(a: seq<T>, b: seq<T>, c: seq<T>)
    ensures a + (b + c) == (a + b) + c
  {
  }

  /** Quotient and remainder are determined by their equation. */
  lemma DivModUnique(x: int, c: int, q: int, r: int)
    requires 0 <= r < c && x == c * q + r
    ensures x / c == q && x % c == r
  {
    var p := x / c;
    assert c * (p - q) == r - x % c;
    SmallMultiple(c, p - q);
  }

  lemma SmallMultiple(c: int, d: int)
    requires c > 0 && -c < c * d < c
    ensures d == 0
  {
  }

  lemma WrapMod(x: int, c: int)
    requires c > 0
    ensures (x + c) % c == x % c && (x + c) / c == x / c + 1
  {
    DivModUnique(x + c, c, x / c + 1, x % c);
  }
}
