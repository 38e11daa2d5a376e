/** The `a`, `A` and `Z` directives: strings padded with NULs or spaces to a width. */
module PaddedString {
  import opened Bytes

  /** `A` pads with spaces, `a` with NULs, `Z` with NULs and ends a `*` string with one. */
  datatype Style = Space | Nul | NulEnd

  function PadByte(style: Style): byte {
    if style == Space then 32 else 0
  }

  function Repeat(b: byte, n: nat): (r: seq<byte>)
    ensures |r| == n
    ensures forall i :: 0 <= i < n ==> r[i] == b
  {
    seq(n, _ => b)
  }

  /** The first `count` bytes of `src`, padded up to `count`; -1 asks for all of `src`. */
  function PackedStr(src: seq<byte>, count: int, style: Style): (r: seq<byte>)
    requires count >= -1
    ensures count >= 0 ==> |r| == count
  {
    if count == -1 then src + (if style == NulEnd then [0] else [])
    else if count < |src| then src[..count]
    else src + Repeat(PadByte(style), count - |src|)
  }

  /** The copying and padding loop of pack_a; it reserves exactly what it writes. */
  method PackA(src: seq<byte>, count: int, style: Style) returns (dst: seq<byte>, reserved: nat)
    requires count >= -1
    ensures dst == PackedStr(src, count, style)
    ensures reserved == |dst|
  {
    var slen := |src|;
    var pad: byte := if style == Nul || style == NulEnd then 0 else 32;
    var copylen, padlen;
    if count == -1 {
      copylen := slen;
      padlen := if style == NulEnd then 1 else 0;
    } else if count < slen {
      copylen := count;
      padlen := 0;
    } else {
      copylen := slen;
      padlen := count - slen;
    }
    reserved := copylen + padlen;
    dst := src[..copylen];
    ghost var total := padlen;
    while padlen > 0
      invariant 0 <= padlen <= total
      invariant dst == src[..copylen] + Repeat(pad, total - padlen)
    {
      dst := dst + [pad];
      padlen := padlen - 1;
    }
    assert src[..copylen] + [] == src[..copylen];
  }

  /** NUL and the white space of the C locale. */
  predicate IsBlank(b: byte) {
    b == 0 || b == 32 || 9 <= b <= 13
  }

  function Strip(s: seq<byte>): (r: seq<byte>)
    ensures r <= s
    ensures r == [] || !IsBlank(r[|r| - 1])
    ensures forall i :: |r| <= i < |s| ==> IsBlank(s[i])
  {
    if s == [] || !IsBlank(s[|s| - 1]) then s else Strip(s[..|s| - 1])
  }

  /** The string at the front of `src`; the source index moves by its length after stripping. */
  function UnpackedStr(src: seq<byte>, count: int, style: Style): (r: seq<byte>)
    requires count >= -1
    ensures |r| <= |src|
  {
    var s := if count == -1 || count > |src| then src else src[..count];
    match style
    case NulEnd => if s != [] && s[|s| - 1] == 0 then s[..|s| - 1] else s
    case Nul => s
    case Space => Strip(s)
  }

  /** How many bytes of `s` are left after the blanks at its end are dropped. */
  method StrippedLength(s: seq<byte>) returns (count: nat)
    ensures count <= |s| && s[..count] == Strip(s)
  {
    count := |s|;
    assert s[..count] == s;
    while count > 0 && IsBlank(s[count - 1])
      invariant count <= |s| && Strip(s) == Strip(s[..count])
    {
      assert s[..count][..count - 1] == s[..count - 1];
      count := count - 1;
    }
  }

  /** unpack_a: copies at most `count` bytes and drops what the style does not keep. */
  method UnpackA(src: seq<byte>, count: int, style: Style) returns (dst: seq<byte>)
    requires count >= -1
    ensures dst == UnpackedStr(src, count, style)
  {
    hide Strip;
    var n := count;
    if n == -1 || n > |src| {
      n := |src|;
    }
    dst := src[..n];
    ghost var taken := dst;
    assert taken == if count == -1 || count > |src| then src else src[..count];
    if style == NulEnd {
      if n > 0 && dst[n - 1] == 0 {
        n := n - 1;
      }
    } else if style != Nul {
      n := StrippedLength(dst);
    }
    assert style == Nul ==> taken[..n] == taken;
    dst := dst[..n];
  }

  /** The part of a string that a count keeps. */
  function Kept(s: seq<byte>, count: int): (w: seq<byte>)
    requires count >= -1
    ensures w <= s
  {
    if count == -1 || count >= |s| then s else s[..count]
  }

  /** `a` returns what the count keeps, with its padding. */
  lemma NulRoundTrip(s: seq<byte>, count: int)
    requires count >= -1
    ensures UnpackedStr(PackedStr(s, count, Nul), count, Nul) ==
            Kept(s, count) + Repeat(0, if count > |s| then count - |s| else 0)
  {
  }

  /**
   * `Z*` returns every string.  `Z` with a width drops one NUL: of its padding, or the last
   * byte of what the width keeps if there is no padding.
   */
  lemma NulEndRoundTrip(s: seq<byte>, count: int)
    requires count >= -1
    ensures
      var back, w := UnpackedStr(PackedStr(s, count, NulEnd), count, NulEnd), Kept(s, count);
      if count == -1 then back == s
      else if count > |s| then back == s + Repeat(0, count - |s| - 1)
      else if w == [] || w[|w| - 1] != 0 then back == w
      else back == w[..|w| - 1]
  {
    var t := PackedStr(s, count, NulEnd);
    if 0 <= count <= |s| {
      assert t == Kept(s, count);
    }
  }

  /** `A` returns what the count keeps without the blanks at its end, so all of it exactly when it has none there. */
  lemma SpaceRoundTrip(s: seq<byte>, count: int)
    requires count >= -1
    ensures
      var back, w := UnpackedStr(PackedStr(s, count, Space), count, Space), Kept(s, count);
      back == Strip(w) && (back == w <==> w == [] || !IsBlank(w[|w| - 1]))
  {
    var t, w := PackedStr(s, count, Space), Kept(s, count);
    PackedSpaces(s, count);
    hide PackedStr, Kept;
    StripPadded(w, t);
    StripIsWhole(w);
    hide Strip;
    assert t[..|t|] == t;
  }

  lemma PackedSpaces(s: seq<byte>, count: int)
    requires count >= -1
    ensures
      var t, w := PackedStr(s, count, Space), Kept(s, count);
      w <= t && (count == -1 || count == |t|) && forall i :: |w| <= i < |t| ==> IsBlank(t[i])
  {
  }

  /** A string shorter than its width is filled with spaces, code 32, by `A`, and with NULs by `a` and `Z`. */
  lemma FilledWith(s: seq<byte>, count: nat, i: nat)
    requires |s| <= i < count
    ensures PackedStr(s, count, Space)[i] == 32 && PackedStr(s, count, Nul)[i] == PackedStr(s, count, NulEnd)[i] == 0
    ensures PackedStr(s, count, Space)[..|s|] == PackedStr(s, count, Nul)[..|s|] == s
    ensures PackedStr(s, count, NulEnd)[..|s|] == s
  {
  }

  /** Tab, newline, vertical tab, form feed, return, space, and NUL. */
  lemma BlanksByCode(b: byte)
    ensures IsBlank(b) <==> b in [0, 9, 10, 11, 12, 13, 32]
  {
  }

  /**
   * Reading a field of any source: at most `count` bytes from its start, all of it if the count
   * is more than there is, less one NUL at the end for `Z` and all blanks at the end for `A`.
   */
  lemma FieldRead(src: seq<byte>, count: int, style: Style)
    requires count >= -1
    ensures
      var k, r := if count == -1 || count > |src| then |src| else count, UnpackedStr(src, count, style);
      && r <= src[..k]
      && match style
         case Nul => r == src[..k]
         case NulEnd => |r| == if k > 0 && src[k - 1] == 0 then k - 1 else k
         case Space =>
           && (forall i :: |r| <= i < k ==> src[i] in [0, 9, 10, 11, 12, 13, 32])
           && (r == [] || r[|r| - 1] !in [0, 9, 10, 11, 12, 13, 32])
  {
    var k := if count == -1 || count > |src| then |src| else count;
    assert count == -1 || count > |src| ==> src[..k] == src;
    hide Strip;
  }

  /**
   * A field of `width` bytes is passed whole exactly when nothing is stripped from it: always for
   * `a`, for `A` if it does not end in a blank, for `Z` if it does not end in NUL.  Otherwise the
   * next directive starts within it.
   */
  lemma FieldIsPassed(src: seq<byte>, width: nat, style: Style)
    requires width <= |src|
    ensures |UnpackedStr(src, width, style)| == width <==>
            width == 0 || match style
                          case Nul => true
                          case NulEnd => src[width - 1] != 0
                          case Space => !IsBlank(src[width - 1])
  {
    StripIsWhole(src[..width]);
  }

  lemma StripIsWhole(s: seq<byte>)
    ensures Strip(s) == s <==> s == [] || !IsBlank(s[|s| - 1])
  {
  }

  /** Stripping does not see blanks added at the end. */
  lemma {:induction false} StripPadded(s: seq<byte>, t: seq<byte>)
    requires s <= t && forall i :: |s| <= i < |t| ==> IsBlank(t[i])
    ensures Strip(t) == Strip(s)
    decreases |t|
  {
    if |t| == |s| {
      assert t == s;
    } else {
      StripPadded(s, t[..|t| - 1]);
    }
  }
}
