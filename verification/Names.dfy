/** Conversion between byte strings and NUL-terminated UTF-16 names. */
module Names {
  import opened Bytes

  type char16 = x: int | 0 <= x < 0x1_0000

  /** Memory read as little-endian 16-bit units. */
  function Units(bytes: seq<byte>): (u: seq<char16>)
    requires |bytes| % 2 == 0
    ensures |u| == |bytes| / 2
    ensures forall i :: 0 <= i < |u| ==> u[i] == bytes[2 * i] as int + 256 * bytes[2 * i + 1] as int
  {
    seq(|bytes| / 2, i requires 0 <= i < |bytes| / 2 => bytes[2 * i] as int + 256 * bytes[2 * i + 1] as int)
  }

  /** One unit for each byte, and the terminator. */
  function Widen(ascii: seq<byte>): (u: seq<char16>)
    ensures |u| == |ascii| + 1 && u[|ascii|] == 0
    ensures forall i :: 0 <= i < |ascii| ==> u[i] == ascii[i]
  {
    seq(|ascii| + 1, i requires 0 <= i < |ascii| + 1 => if i < |ascii| then ascii[i] else 0)
  }

  method AsciiToUtf16(ascii: seq<byte>) returns (utf16: array<byte>)
    ensures fresh(utf16) && utf16.Length == 2 * (|ascii| + 1)
    ensures Units(utf16[..]) == Widen(ascii)
  {
    utf16 := new byte[(|ascii| + 1) * 2];
    for i := 0 to |ascii|
      invariant forall k :: 0 <= k < i ==> utf16[2 * k] == ascii[k] && utf16[2 * k + 1] == 0
    {
      utf16[i * 2] := ascii[i];
      utf16[i * 2 + 1] := 0;
    }
    utf16[utf16.Length - 2] := 0;
    utf16[utf16.Length - 1] := 0;
  }

  /** The number of units before the terminator. */
  function WcsLen(u: seq<char16>): (n: nat)
    requires 0 in u
    ensures n < |u| && u[n] == 0
    ensures forall i :: 0 <= i < n ==> u[i] != 0
  {
    if u[0] == 0 then 0 else 1 + WcsLen(u[1..])
  }

  /** The low bytes of the units before the terminator. */
  function Narrow(u: seq<char16>): (ascii: seq<byte>)
    requires 0 in u
    ensures |ascii| == WcsLen(u)
    ensures forall i :: 0 <= i < |ascii| ==> ascii[i] == LowByte(u[i])
  {
    seq(WcsLen(u), i requires 0 <= i < WcsLen(u) => LowByte(u[i]))
  }

  method Utf16ToAscii(utf16: seq<char16>) returns (ascii: seq<byte>)
    requires 0 in utf16
    ensures ascii == Narrow(utf16)
  {
    var len := WcsLen(utf16);
    ascii := [];
    for i := 0 to len
      invariant |ascii| == i && forall k :: 0 <= k < i ==> ascii[k] == LowByte(utf16[k])
    {
      ascii := ascii + [LowByte(utf16[i])];
    }
  }

  /** A widened string narrows to its part before the first NUL: to itself exactly when it has none. */
  lemma NarrowWidened(s: seq<byte>)
    ensures 0 in Widen(s)
    ensures Narrow(Widen(s)) == s[..WcsLen(Widen(s))]
    ensures Narrow(Widen(s)) == s <==> 0 !in s
    ensures 0 !in s <==> WcsLen(Widen(s)) == |s|
  {
    var u := Widen(s);
    assert u[|s|] == 0;
    var n := WcsLen(u);
    if n < |s| {
      assert s[n] == u[n] == 0;
    }
  }

  /** A name survives narrowing and widening exactly when its units are all below 256. */
  lemma WidenNarrowed(u: seq<char16>)
    requires 0 in u
    ensures Widen(Narrow(u)) == u[..WcsLen(u) + 1] <==> forall i :: 0 <= i < WcsLen(u) ==> u[i] < 256
  {
    var n, w := WcsLen(u), Widen(Narrow(u));
    forall i | 0 <= i < n
      ensures w[i] == u[..n + 1][i] <==> u[i] < 256
    {
    }
    if w == u[..n + 1] {
      forall i | 0 <= i < n
        ensures u[i] < 256
      {
        assert w[i] == u[..n + 1][i];
      }
    }
  }
}
