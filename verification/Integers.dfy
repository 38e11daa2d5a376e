/**
 * The integer directives of Array#pack and String#unpack: bytes written by pack_c, pack_s
 * and pack_l, and numbers read by unpack_c, unpack_s and unpack_l.
 */
module Integers {
  import opened Bytes

  datatype Width = Char | Short | Long {
    function Size(): (n: nat)
      ensures 1 <= n <= 4
    {
      match this
      case Char => 1
      case Short => 2
      case Long => 4
    }
  }

  /** Stores the remainder and the quotient of a `short` by 256, with C's rounding toward zero. */
  function PackedShort(n: int, little: bool): (r: seq<byte>)
    ensures |r| == 2
  {
    var s := ToInt16(n);
    var low, high := LowByte(TruncMod(s, 256)), LowByte(TruncDiv(s, 256));
    if little then [low, high] else [high, low]
  }

  /** Stores a `long` by masking and arithmetic right shifts. */
  function PackedLong(n: int, little: bool): (r: seq<byte>)
    ensures |r| == 4
  {
    var b0, b1, b2, b3 := LowByte(n), LowByte(n / 0x100), LowByte(n / 0x1_0000), LowByte(n / 0x100_0000);
    if little then [b0, b1, b2, b3] else [b3, b2, b1, b0]
  }

  function PackedInt(w: Width, n: int, little: bool): (r: seq<byte>)
    ensures |r| == w.Size()
  {
    match w
    case Char => [LowByte(n)]
    case Short => PackedShort(n, little)
    case Long => PackedLong(n, little)
  }

  function UnpackedChar(b: byte, signed: bool): int {
    if signed && b >= 0x80 then b - 0x100 else b
  }

  function UnpackedShort(s: seq<byte>, little: bool, signed: bool): int
    requires |s| == 2
  {
    var low: int, high: int := if little then s[0] else s[1], if little then s[1] else s[0];
    var n := high * 256 + low;
    if signed && n >= 0x8000 then n - 0x1_0000 else n
  }

  /**
   * The sum of the shifted bytes is an `int`, widened to `long`.  A signed number is negated
   * where `long` is wider than `int`.
   */
  function UnpackedLong(s: seq<byte>, little: bool, signed: bool, longWider: bool): int
    requires |s| == 4
  {
    var b0: int, b1: int, b2: int, b3: int :=
      if little then s[0] else s[3], if little then s[1] else s[2],
      if little then s[2] else s[1], if little then s[3] else s[0];
    var n := ToInt32(b3 * 0x100_0000 + b2 * 0x1_0000 + b1 * 0x100 + b0);
    if signed && longWider then 0 - n else n
  }

  function UnpackedInt(w: Width, s: seq<byte>, little: bool, signed: bool, longWider: bool): int
    requires |s| == w.Size()
  {
    match w
    case Char => UnpackedChar(s[0], signed)
    case Short => UnpackedShort(s, little, signed)
    case Long => UnpackedLong(s, little, signed, longWider)
  }

  /** The `w` low bytes of `n` in two's complement, least significant first. */
  function LittleEndian(n: int, w: nat): (r: seq<byte>)
    ensures |r| == w
    decreases w
  {
    if w == 0 then [] else [n % 256] + LittleEndian(n / 256, w - 1)
  }

  function Reverse(s: seq<byte>): (r: seq<byte>)
    ensures |r| == |s|
  {
    if s == [] then [] else Reverse(s[1..]) + [s[0]]
  }

  lemma {:induction false} ReverseAppend(s: seq<byte>, t: seq<byte>)
    ensures Reverse(s + t) == Reverse(t) + Reverse(s)
  {
    if s == [] {
      assert s + t == t;
    } else {
      assert (s + t)[1..] == s[1..] + t;
      ReverseAppend(s[1..], t);
    }
  }

  lemma {:induction false} ReverseTwice(s: seq<byte>)
    ensures Reverse(Reverse(s)) == s
  {
    if s != [] {
      ReverseTwice(s[1..]);
      ReverseAppend(Reverse(s[1..]), [s[0]]);
      assert Reverse([s[0]]) == [s[0]];
    }
  }

  /** Big-endian bytes are the little-endian ones backwards. */
  lemma OtherByteOrder(w: Width, n: int)
    ensures PackedInt(w, n, false) == Reverse(PackedInt(w, n, true))
  {
    var s := PackedInt(w, n, true);
    hide LowByte;
    match w
    case Char => assert s[1..] == [];
    case Short => assert Reverse(s[1..]) == [s[1]];
    case Long =>
      assert Reverse(s[3..]) == [s[3]];
      assert s[2..][1..] == s[3..] && s[1..][1..] == s[2..];
      assert Reverse(s[2..]) == [s[3], s[2]];
  }

  /** The numbers whose bytes are stored as they are in two's complement. */
  predicate StoredWhole(w: Width, n: int) {
    w == Short ==> ToInt16(n) >= 0 || n % 256 == 0
  }

  /** The low 16 bits of `n` as a high and a low byte. */
  lemma TwoBytes(n: int)
    ensures n % 0x1_0000 == 256 * (n / 256 % 256) + n % 256
  {
  }

  /** The bytes that pack_s takes from `n`. */
  lemma ShortParts(n: int)
    ensures
      var s := ToInt16(n);
      && LowByte(TruncMod(s, 256)) == n % 256
      && LowByte(TruncDiv(s, 256)) == if s >= 0 || n % 256 == 0 then n / 256 % 256 else (n / 256 % 256 + 1) % 256
  {
    var s, h, l := ToInt16(n), n / 256 % 256, n % 256;
    TwoBytes(n);
    if s < 0 {
      assert s == 256 * (h - 256) + l;
      NegativeParts(h, l);
    } else {
      assert s == 256 * h + l;
    }
  }

  lemma NegativeParts(h: int, l: int)
    requires 0 <= h < 256 && 0 <= l < 256
    ensures
      var s := 256 * (h - 256) + l;
      && TruncDiv(s, 256) == (if l == 0 then h - 256 else h - 255)
      && TruncMod(s, 256) == if l == 0 then 0 else l - 256
  {
  }

  /** A number is stored as its two's complement bytes unless it is a negative 16-bit one with a low byte. */
  lemma PackedIntIsTwosComplement(w: Width, n: int)
    ensures PackedInt(w, n, true) == LittleEndian(n, w.Size()) <==> StoredWhole(w, n)
  {
    match w
    case Char =>
      assert LittleEndian(n, 1) == [n % 256] + LittleEndian(n / 256, 0);
    case Short =>
      LittleEndianTwo(n);
      ShortParts(n);
      hide ToInt16;
      hide TruncDiv;
      hide TruncMod;
    case Long =>
      LittleEndianFour(n);
  }

  lemma LittleEndianTwo(n: int)
    ensures LittleEndian(n, 2) == [n % 256, n / 256 % 256]
  {
    assert LittleEndian(n / 256, 1) == [n / 256 % 256] + LittleEndian(n / 256 / 256, 0);
  }

  lemma LittleEndianFour(n: int)
    ensures LittleEndian(n, 4) == [n % 0x100, n / 0x100 % 0x100, n / 0x1_0000 % 0x100, n / 0x100_0000 % 0x100]
  {
    LittleEndianTwo(n / 0x1_0000);
    assert n / 0x100 / 0x100 == n / 0x1_0000 && n / 0x1_0000 / 0x100 == n / 0x100_0000;
    assert LittleEndian(n / 0x100, 3) == [n / 0x100 % 0x100] + LittleEndian(n / 0x1_0000, 2);
  }

  /** The number that two's complement bytes are read as; the negation is the one of UnpackedLong. */
  lemma UnpackTwosComplement(w: Width, n: int, signed: bool, longWider: bool)
    ensures UnpackedInt(w, LittleEndian(n, w.Size()), true, signed, longWider) ==
            match w
            case Char => if signed && n % 0x100 >= 0x80 then n % 0x100 - 0x100 else n % 0x100
            case Short => if signed then ToInt16(n) else n % 0x1_0000
            case Long => if signed && longWider then -ToInt32(n) else ToInt32(n)
  {
    match w
    case Char =>
      assert LittleEndian(n, 1) == [n % 256] + LittleEndian(n / 256, 0);
    case Short =>
      LittleEndianTwo(n);
      TwoBytes(n);
      hide LittleEndian;
    case Long =>
      LittleEndianFour(n);
      FourBytes(n);
      hide ToInt32, LittleEndian;
  }

  /** Every string of bytes is the two's complement of a number. */
  lemma {:induction false} EveryStringIsLittleEndian(s: seq<byte>) returns (n: nat)
    ensures LittleEndian(n, |s|) == s
  {
    if s == [] {
      n := 0;
    } else {
      var m := EveryStringIsLittleEndian(s[1..]);
      n := s[0] as int + 256 * m;
      DivModUnique(n, 256, m, s[0]);
      assert s == [s[0]] + s[1..];
    }
  }

  /** Reading backwards in the other byte order gives the same number. */
  lemma UnpackOtherByteOrder(w: Width, s: seq<byte>, signed: bool, longWider: bool)
    requires |s| == w.Size()
    ensures UnpackedInt(w, Reverse(s), false, signed, longWider) == UnpackedInt(w, s, true, signed, longWider)
  {
    hide ToInt32;
    match w
    case Char => assert s[1..] == [];
    case Short => assert Reverse(s[1..]) == [s[1]];
    case Long =>
      assert Reverse(s[3..]) == [s[3]];
      assert s[2..][1..] == s[3..] && s[1..][1..] == s[2..];
      assert Reverse(s[2..]) == [s[3], s[2]];
  }

  /** The numbers that unpacking returns as they were packed. */
  predicate Faithful(w: Width, signed: bool, longWider: bool, n: int) {
    match w
    case Char => if signed then -0x80 <= n < 0x80 else 0 <= n < 0x100
    case Short =>
      if signed then 0 <= n < 0x8000 || (-0x8000 <= n < 0 && n % 256 == 0)
      else 0 <= n < 0x8000 || (0x8000 <= n < 0x1_0000 && n % 256 == 0)
    case Long =>
      if signed && longWider then n == 0 || n == 0x8000_0000 else -0x8000_0000 <= n < 0x8000_0000
  }

  /** In either byte order a number comes back exactly when it is one of those. */
  lemma IntRoundTrip(w: Width, n: int, little: bool, signed: bool, longWider: bool)
    ensures UnpackedInt(w, PackedInt(w, n, little), little, signed, longWider) == n <==>
            Faithful(w, signed, longWider, n)
  {
    hide PackedShort;
    hide UnpackedShort;
    hide PackedLong;
    hide UnpackedLong;
    match w
    case Char =>
    case Short =>
      ShortBack(n, little, signed);
      ShortFaithful(n, signed);
      hide ShortReadBack;
    case Long => LongBack(n, little, signed, longWider);
  }

  /** What a 16-bit directive reads back: 256 too much after a negative number with a low byte. */
  function ShortReadBack(n: int, signed: bool): int {
    var s := ToInt16(n);
    var back := if s >= 0 || n % 256 == 0 then s else s + 256;
    if signed || back >= 0 then back else back + 0x1_0000
  }

  lemma ShortFaithful(n: int, signed: bool)
    ensures ShortReadBack(n, signed) == n <==> Faithful(Short, signed, false, n)
  {
    var s, k := ToInt16(n), n / 0x1_0000;
    assert n == s + 0x1_0000 * k || n == s + 0x1_0000 * (k + 1);
    assert -0x8000 <= s < 0x8000;
    hide ToInt16;
  }

  lemma ShortBack(n: int, little: bool, signed: bool)
    ensures UnpackedShort(PackedShort(n, little), little, signed) == ShortReadBack(n, signed)
  {
    var s, l := ToInt16(n), n % 256;
    var high: int, low: int := LowByte(TruncDiv(s, 256)), LowByte(TruncMod(s, 256));
    StoredParts(n);
    hide TruncMod, TruncDiv, LowByte, ToInt16;
    assert UnpackedShort(PackedShort(n, little), little, false) == high * 256 + low;
  }

  /** The number that the two stored bytes denote. */
  lemma StoredParts(n: int)
    ensures
      var s := ToInt16(n);
      && -0x8000 <= s < 0x8000
      && LowByte(TruncDiv(s, 256)) as int * 256 + LowByte(TruncMod(s, 256)) as int ==
         if s >= 0 then s else if n % 256 == 0 then s + 0x1_0000
         else if s + 256 >= 0 then s + 256 else s + 256 + 0x1_0000
  {
    var h, l := n / 256 % 256, n % 256;
    TwoBytes(n);
    ShortParts(n);
    hide TruncMod, TruncDiv, LowByte;
    assert (h + 1) % 256 == if h == 255 then 0 else h + 1;
  }

  /** What a 32-bit directive reads back. */
  lemma LongBack(n: int, little: bool, signed: bool, longWider: bool)
    ensures UnpackedLong(PackedLong(n, little), little, signed, longWider) ==
            if signed && longWider then -ToInt32(n) else ToInt32(n)
  {
    FourBytes(n);
    hide ToInt32;
  }

  /** The sum of the four shifted bytes of `n`. */
  lemma FourBytes(n: int)
    ensures ToInt32(LowByte(n / 0x100_0000) * 0x100_0000 + LowByte(n / 0x1_0000) * 0x1_0000
                    + LowByte(n / 0x100) * 0x100 + LowByte(n)) == ToInt32(n)
  {
    var n1, n2, n3, n4 := n / 0x100, n / 0x1_0000, n / 0x100_0000, n / 0x1_0000_0000;
    assert n1 / 0x100 == n2 && n2 / 0x100 == n3 && n3 / 0x100 == n4;
    var b0: int, b1: int, b2: int, b3: int := n % 0x100, n1 % 0x100, n2 % 0x100, n3 % 0x100;
    DivModUnique(n, 0x1_0000_0000, n4, b3 * 0x100_0000 + b2 * 0x1_0000 + b1 * 0x100 + b0);
  }
}
