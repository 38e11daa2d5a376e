/**
 * The `h` and `H` directives of Array#pack and String#unpack: hexadecimal digits, with the
 * low nibble first (`h`, `lsb`) or the high nibble first (`H`).
 */
module Hex {
  import opened Bytes

  predicate IsHexDigit(c: byte) {
    48 <= c <= 57 || 65 <= c <= 70 || 97 <= c <= 102
  }

  /** The value of a hexadecimal digit; any other character counts as zero. */
  function HexToInt(c: byte): (d: int)
    ensures 0 <= d < 16
  {
    if 48 <= c <= 57 then c - 48
    else if 65 <= c <= 70 then 10 + (c - 65)
    else if 97 <= c <= 102 then 10 + (c - 97)
    else 0
  }

  /** The lower-case digit of a value. */
  function HexChar(d: int): (c: byte)
    requires 0 <= d < 16
    ensures IsHexDigit(c) && HexToInt(c) == d
  {
    if d < 10 then 48 + d else 97 + (d - 10)
  }

  /** Digits by their ASCII codes, in either case; every other character counts as 0. */
  lemma DigitsByCode(d: int)
    requires 0 <= d < 16
    ensures HexChar(d) == "0123456789abcdef"[d] as int
    ensures HexToInt("0123456789abcdef"[d] as int) == HexToInt("0123456789ABCDEF"[d] as int) == d
  {
  }

  lemma OtherCharacterIsZero(c: byte)
    ensures HexToInt(c) != 0 ==>
              exists d :: 0 < d < 16 && (c == "0123456789abcdef"[d] as int || c == "0123456789ABCDEF"[d] as int)
  {
    var d := HexToInt(c);
    if d != 0 {
      assert 0 < d < 16 && (c == "0123456789abcdef"[d] as int || c == "0123456789ABCDEF"[d] as int);
    }
  }

  function LowerCase(c: byte): byte {
    if 65 <= c <= 90 then c + 32 else c
  }

  function Lower(t: seq<byte>): (r: seq<byte>)
    ensures |r| == |t|
    ensures forall i :: 0 <= i < |t| ==> r[i] == LowerCase(t[i])
  {
    if t == [] then [] else [LowerCase(t[0])] + Lower(t[1..])
  }

  ghost predicate HexDigits(t: seq<byte>) {
    forall i :: 0 <= i < |t| ==> IsHexDigit(t[i])
  }

  /** The two nibbles of a byte, in order of appearance. */
  function FirstNibble(b: byte, lsb: bool): (d: int)
    ensures 0 <= d < 16
  {
    if lsb then b % 16 else b / 16
  }

  function SecondNibble(b: byte, lsb: bool): (d: int)
    ensures 0 <= d < 16
  {
    if lsb then b / 16 else b % 16
  }

  function Join(a: int, b: int, lsb: bool): (r: byte)
    requires 0 <= a < 16 && 0 <= b < 16
    ensures FirstNibble(r, lsb) == a && SecondNibble(r, lsb) == b
  {
    if lsb then b * 16 + a else a * 16 + b
  }

  lemma JoinNibbles(r: byte, lsb: bool)
    ensures Join(FirstNibble(r, lsb), SecondNibble(r, lsb), lsb) == r
  {
  }

  /** Digit `i` of `t` among the first `n`; zero when there is none. */
  function DigitAt(t: seq<byte>, n: nat, i: nat): (d: int)
    ensures 0 <= d < 16
  {
    if i < n && i < |t| then HexToInt(t[i]) else 0
  }

  /** The number of digits a count asks for. */
  function PackCount(t: seq<byte>, count: int): nat
    requires count >= -1
  {
    if count == -1 then |t| else count
  }

  /** `count` digits of `t` as bytes: two digits to a byte, zero digits after the end of `t`. */
  function PackedHex(t: seq<byte>, count: int, lsb: bool): (r: seq<byte>)
    requires count >= -1
    ensures |r| == (PackCount(t, count) + 1) / 2
    ensures var n := PackCount(t, count);
            forall k :: 0 <= k < |r| ==> r[k] == Join(DigitAt(t, n, 2 * k), DigitAt(t, n, 2 * k + 1), lsb)
  {
    var n := PackCount(t, count);
    seq((n + 1) / 2, k requires 0 <= k < (n + 1) / 2 => Join(DigitAt(t, n, 2 * k), DigitAt(t, n, 2 * k + 1), lsb))
  }

  /** The packing loop; `reserved` is the space it asks for. */
  method PackH(src: seq<byte>, count: int, lsb: bool) returns (dst: seq<byte>, reserved: nat)
    requires count >= -1
    ensures dst == PackedHex(src, count, lsb)
    ensures reserved == PackCount(src, count) && |dst| <= reserved
  {
    ghost var n := PackCount(src, count);
    var slen, left := |src|, count;
    if left == -1 {
      left := slen;
    } else if slen > left {
      slen := left;
    }
    reserved := left;
    dst := [];
    var i := 0;
    while left > 0
      invariant -1 <= left <= n && 0 <= slen <= |src| && 0 <= i <= |src| && i + slen == Min(n, |src|)
      invariant left >= 0 ==> 2 * |dst| == n - left
      invariant left == -1 ==> 2 * |dst| == n + 1
      invariant i == Min(2 * |dst|, Min(n, |src|))
      invariant forall k :: 0 <= k < |dst| ==> dst[k] == Join(DigitAt(src, n, 2 * k), DigitAt(src, n, 2 * k + 1), lsb)
      decreases left
    {
      var a, b := 0, 0;
      if slen > 0 {
        a := HexToInt(src[i]);
        i, slen := i + 1, slen - 1;
      }
      if slen > 0 {
        b := HexToInt(src[i]);
        i, slen := i + 1, slen - 1;
      }
      dst := dst + [Join(a, b, lsb)];
      left := left - 2;
    }
  }

  /** The number of digits unpacking yields. */
  function UnpackCount(s: seq<byte>, count: int): nat
    requires count >= -1
  {
    if count == -1 then 2 * |s| else Min(count, 2 * |s|)
  }

  /** The digit at place `i` of the bytes of `s`. */
  function NibbleAt(s: seq<byte>, i: nat, lsb: bool): (d: int)
    requires i < 2 * |s|
    ensures 0 <= d < 16
  {
    if i % 2 == 0 then FirstNibble(s[i / 2], lsb) else SecondNibble(s[i / 2], lsb)
  }

  function UnpackedHex(s: seq<byte>, count: int, lsb: bool): (r: seq<byte>)
    requires count >= -1
    ensures |r| == UnpackCount(s, count)
    ensures forall i :: 0 <= i < |r| ==> r[i] == HexChar(NibbleAt(s, i, lsb))
  {
    var n := UnpackCount(s, count);
    seq(n, i requires 0 <= i < n => HexChar(NibbleAt(s, i, lsb)))
  }

  /** The unpacking loop; `used` is the number of bytes it reads. */
  method UnpackH(src: seq<byte>, count: int, lsb: bool) returns (dst: seq<byte>, used: nat)
    requires count >= -1
    ensures dst == UnpackedHex(src, count, lsb)
    ensures used == (|dst| + 1) / 2 && used <= |src|
  {
    ghost var n := UnpackCount(src, count);
    var slen, left := |src|, count;
    if left == -1 {
      left := slen * 2;
    }
    ghost var total := left;
    dst, used := [], 0;
    while slen > 0 && left > 0
      invariant 0 <= slen && used + slen == |src| && left >= 0
      invariant |dst| == total - left
      invariant if left > 0 then |dst| == 2 * used else used == (|dst| + 1) / 2
      invariant |dst| <= n
      invariant forall i :: 0 <= i < |dst| ==> dst[i] == HexChar(NibbleAt(src, i, lsb))
      decreases slen
    {
      var a, b := FirstNibble(src[used], lsb), SecondNibble(src[used], lsb);
      used, slen := used + 1, slen - 1;
      dst := dst + [HexChar(a)];
      left := left - 1;
      if left > 0 {
        dst := dst + [HexChar(b)];
        left := left - 1;
      }
    }
  }

  /** The digits stored at places `2k` and `2k + 1` are read back at those places. */
  lemma DigitBack(t: seq<byte>, count: int, i: nat, lsb: bool)
    requires count >= -1 && i < 2 * |PackedHex(t, count, lsb)|
    ensures NibbleAt(PackedHex(t, count, lsb), i, lsb) == DigitAt(t, PackCount(t, count), i)
  {
    assert i == 2 * (i / 2) || i == 2 * (i / 2) + 1;
  }

  lemma LowerCaseOfDigit(c: byte)
    ensures LowerCase(c) == HexChar(HexToInt(c)) <==> IsHexDigit(c)
  {
  }

  /** The digits of `t` that a count keeps, and zeros for those that are missing. */
  function Kept(t: seq<byte>, count: int): (r: seq<byte>)
    requires count >= -1
    ensures |r| == PackCount(t, count)
  {
    if count == -1 || count <= |t| then t[..PackCount(t, count)] else t + seq(count - |t|, _ => 48)
  }

  /** What is packed with any count comes back in lower case, exactly when it is all hexadecimal digits. */
  lemma PackThenUnpack(t: seq<byte>, count: int, lsb: bool)
    requires count >= -1
    ensures UnpackedHex(PackedHex(t, count, lsb), PackCount(t, count), lsb) == Lower(Kept(t, count)) <==>
            HexDigits(Kept(t, count))
  {
    var n, kept := PackCount(t, count), Kept(t, count);
    var r, low := UnpackedHex(PackedHex(t, count, lsb), n, lsb), Lower(kept);
    assert |r| == n;
    forall i | 0 <= i < n
      ensures r[i] == low[i] <==> IsHexDigit(kept[i])
    {
      DigitBack(t, count, i, lsb);
      KeptDigit(t, count, i);
      LowerCaseOfDigit(kept[i]);
    }
    if HexDigits(kept) {
      assert r == low;
    }
  }

  lemma KeptDigit(t: seq<byte>, count: int, i: nat)
    requires count >= -1 && i < PackCount(t, count)
    ensures DigitAt(t, PackCount(t, count), i) == HexToInt(Kept(t, count)[i])
  {
  }

  /** With `*` an odd number of packed digits comes back with a `0` after it. */
  lemma PackThenUnpackAll(t: seq<byte>, count: int, lsb: bool)
    requires count >= -1
    ensures
      var s, n := PackedHex(t, count, lsb), PackCount(t, count);
      UnpackedHex(s, -1, lsb) == UnpackedHex(s, n, lsb) + (if n % 2 == 0 then [] else [48])
  {
    var s, n := PackedHex(t, count, lsb), PackCount(t, count);
    var r, e := UnpackedHex(s, -1, lsb), UnpackedHex(s, n, lsb);
    assert |e| == n;
    if n % 2 == 1 {
      DigitBack(t, count, n, lsb);
      assert r == e + [48];
    } else {
      assert r == e;
    }
  }

  /** Unpacking all digits of any bytes and packing them again returns the bytes. */
  lemma UnpackThenPack(s: seq<byte>, lsb: bool)
    ensures PackedHex(UnpackedHex(s, -1, lsb), -1, lsb) == s
  {
    var t := UnpackedHex(s, -1, lsb);
    var r := PackedHex(t, -1, lsb);
    forall k | 0 <= k < |s|
      ensures r[k] == s[k]
    {
      assert t[2 * k] == HexChar(FirstNibble(s[k], lsb)) && t[2 * k + 1] == HexChar(SecondNibble(s[k], lsb));
      JoinNibbles(s[k], lsb);
    }
  }

  /** `H` puts the first digit of a pair in the high nibble and `h` in the low one, so they swap nibbles. */
  lemma NibbleOrder(t: seq<byte>, count: int, k: nat)
    requires count >= -1 && k < |PackedHex(t, count, false)|
    ensures
      var n, high, low := PackCount(t, count), PackedHex(t, count, false)[k], PackedHex(t, count, true)[k];
      && high / 16 == low % 16 == DigitAt(t, n, 2 * k)
      && high % 16 == low / 16 == DigitAt(t, n, 2 * k + 1)
  {
    assert FirstNibble(PackedHex(t, count, false)[k], false) == DigitAt(t, PackCount(t, count), 2 * k);
  }
}
