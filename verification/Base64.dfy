/**
 * The `m` directive of Array#pack and String#unpack.
 *
 * `Encode` is section 4 of RFC 4648 and `Lines` is the line structure of section 6.8 of
 * RFC 2045.  `PackM` and `UnpackM` are the loops of src/ext/pack.c; the lemmas tie them to
 * those two definitions and to each other.
 */
module Base64 {
  import opened Bytes

  const NEWLINE: byte := 10
  const PAD: byte := 61
  const IGNORE: byte := 255
  const PADDING: byte := 254

  /** The character of a six-bit digit, as an ASCII code. */
  function Char(d: int): (c: byte)
    requires 0 <= d < 64
  {
    if d < 26 then 65 + d
    else if d < 52 then 97 + (d - 26)
    else if d < 62 then 48 + (d - 52)
    else if d == 62 then 43
    else 47
  }

  lemma TableUndoesChar(d: int)
    requires 0 <= d < 64
    ensures Table(Char(d)) == d
  {
  }

  /** Contents of the decoding table after initialisation. */
  function Table(c: byte): (d: byte) {
    if 65 <= c <= 90 then c - 65
    else if 97 <= c <= 122 then c - 97 + 26
    else if 48 <= c <= 57 then c - 48 + 52
    else if c == 43 then 62
    else if c == 47 then 63
    else if c == PAD then PADDING
    else IGNORE
  }

  const UPPER := "ABCDEFGHIJKLMNOPQRSTUVWXYZ"
  const LOWER := "abcdefghijklmnopqrstuvwxyz"
  const ALPHABET := UPPER + LOWER + "0123456789+/"

  /** The digits of section 4 of RFC 4648 by their characters. */
  lemma CharIsOfAlphabet(d: int)
    requires 0 <= d < 64
    ensures |ALPHABET| == 64 && Char(d) == ALPHABET[d] as int
  {
    if d < 26 {
      UpperAt(d);
      assert ALPHABET[d] == UPPER[d];
    } else if d < 52 {
      LowerAt(d - 26);
      assert ALPHABET[d] == LOWER[d - 26];
    }
  }

  lemma UpperAt(i: nat)
    requires i < 26
    ensures UPPER[i] as int == 65 + i
  {
  }

  lemma LowerAt(i: nat)
    requires i < 26
    ensures LOWER[i] as int == 97 + i
  {
  }

  /** The characters of the alphabet and `=`, code 61, are symbols, and stand for their places in it. */
  lemma AlphabetIsSymbols(d: int)
    requires 0 <= d < 64
    ensures
      var c := Char(d);
      c == ALPHABET[d] as int && IsSymbol(c) && Value(c) == d && IsSymbol(61)
  {
    CharIsOfAlphabet(d);
    DigitIsSymbol(d);
    assert IsSymbol(61);
    hide Char, IsSymbol, Value;
  }

  /** There are no other symbols. */
  lemma OnlySymbols(c: byte)
    ensures IsSymbol(c) ==> c == 61 || c == ALPHABET[Value(c)] as int
  {
    if IsSymbol(c) && c != 61 {
      CharIsOfAlphabet(Value(c));
      assert Char(Value(c)) == c;
    }
  }

  method MakeBase64DecTab() returns (tab: array<byte>)
    ensures fresh(tab) && tab.Length == 128
    ensures forall c: byte :: c < 128 ==> tab[c] == Table(c)
  {
    tab := new byte[128](_ => IGNORE);
    for i := 0 to 26
      invariant forall c :: 0 <= c < 128 ==> tab[c] == if 65 <= c < 65 + i then c - 65 else IGNORE
    {
      tab[65 + i] := i;
    }
    for i := 0 to 26
      invariant forall c :: 0 <= c < 128 ==> (tab[c] ==
        if 65 <= c <= 90 then c - 65 else if 97 <= c < 97 + i then c - 97 + 26 else IGNORE)
    {
      tab[97 + i] := i + 26;
    }
    for i := 0 to 10
      invariant forall c :: 0 <= c < 128 ==> (tab[c] ==
        if 65 <= c <= 90 then c - 65 else if 97 <= c <= 122 then c - 97 + 26
        else if 48 <= c < 48 + i then c - 48 + 52 else IGNORE)
    {
      tab[48 + i] := i + 52;
    }
    tab[43] := 62;
    tab[47] := 63;
    tab[61] := PADDING;
  }

  // ---------------------------------------------------------------------------
  // The encoding

  /** The four characters of three bytes, each of six of their 24 bits. */
  function Group(a: byte, b: byte, c: byte): (t: seq<byte>)
    ensures |t| == 4
  {
    [Char(a / 4), Char(a % 4 * 16 + b / 16), Char(b % 16 * 4 + c / 64), Char(c % 64)]
  }

  /** The four digits that shifts and masks take from a 24-bit accumulator. */
  lemma GroupDigits(a: byte, b: byte, c: byte, l: int)
    requires l == 65536 * a + 256 * b + c
    ensures l / 262144 % 64 == a / 4
    ensures l / 4096 % 64 == a % 4 * 16 + b / 16
    ensures l / 64 % 64 == b % 16 * 4 + c / 64
    ensures l % 64 == c % 64
  {
    var x, y, z: int := 1024 * a + 4 * b + c / 64, 16 * a + b / 16, a / 4;
    DivModUnique(l, 64, x, c % 64);
    DivModUnique(l, 4096, y, b % 16 * 256 + c);
    DivModUnique(l, 262144, z, a % 4 * 65536 + b * 256 + c);
    DivModUnique(x, 64, y, b % 16 * 4 + c / 64);
    DivModUnique(y, 64, z, a % 4 * 16 + b / 16);
  }

  /** The final group of one or two bytes, with its padding. */
  function Tail(s: seq<byte>): (t: seq<byte>)
    requires |s| < 3
    ensures |t| == if |s| == 0 then 0 else 4
  {
    if |s| == 0 then []
    else if |s| == 1 then Group(s[0], 0, 0)[..2] + [PAD, PAD]
    else Group(s[0], s[1], 0)[..3] + [PAD]
  }

  /** Four characters for every three bytes begun. */
  function EncodedLength(n: nat): nat {
    if n == 0 then 0 else if n <= 3 then 4 else 4 + EncodedLength(n - 3)
  }

  lemma {:induction false} EncodedLengthRoundsUp(n: nat)
    ensures EncodedLength(n) == (n + 2) / 3 * 4
  {
    if n > 3 {
      EncodedLengthRoundsUp(n - 3);
    }
  }

  lemma {:induction false} EncodedLengthIsGroups(n: nat)
    ensures EncodedLength(n) % 4 == 0 && (EncodedLength(n) == 0 <==> n == 0)
  {
    if n > 3 {
      EncodedLengthIsGroups(n - 3);
    }
  }

  /** Section 4 of RFC 4648, group by group. */
  function Encode(s: seq<byte>): (t: seq<byte>)
    ensures |t| == EncodedLength(|s|)
  {
    if |s| < 3 then Tail(s) else Group(s[0], s[1], s[2]) + Encode(s[3..])
  }

  type bit = x: int | 0 <= x < 2

  /** The bits of a byte, most significant first. */
  function BitsOf(b: byte): (r: seq<bit>)
    ensures |r| == 8
  {
    [b / 128, b / 64 % 2, b / 32 % 2, b / 16 % 2, b / 8 % 2, b / 4 % 2, b / 2 % 2, b % 2]
  }

  function BitString(s: seq<byte>): (r: seq<bit>)
    ensures |r| == 8 * |s|
  {
    if s == [] then [] else BitsOf(s[0]) + BitString(s[1..])
  }

  /** Bit `i`, or a zero bit past the end. */
  function BitAt(x: seq<bit>, i: nat): int {
    if i < |x| then x[i] else 0
  }

  /** The six-bit digit whose leading bits are `x`. */
  function DigitOf(x: seq<bit>): (d: int)
    requires |x| <= 6
    ensures 0 <= d < 64
  {
    32 * BitAt(x, 0) + 16 * BitAt(x, 1) + 8 * BitAt(x, 2) + 4 * BitAt(x, 3) + 2 * BitAt(x, 4) + BitAt(x, 5)
  }

  /** A bit string cut into six-bit digits, zero bits completing the last one. */
  function Regroup(x: seq<bit>): seq<byte> {
    if |x| == 0 then []
    else if |x| <= 6 then [Char(DigitOf(x))]
    else [Char(DigitOf(x[..6]))] + Regroup(x[6..])
  }

  /** The padding after `n` encoded bytes. */
  function Padding(n: nat): seq<byte> {
    if n == 0 then [] else if n == 1 then [PAD, PAD] else if n == 2 then [PAD] else Padding(n - 3)
  }

  lemma RegroupStep(x: seq<bit>, y: seq<bit>)
    requires |x| == 6
    ensures Regroup(x + y) == [Char(DigitOf(x))] + Regroup(y)
  {
    assert (x + y)[..6] == x && (x + y)[6..] == y;
    if |y| == 0 {
      assert x + y == x;
    }
  }

  /** Halving a byte step by step, each step's bit and quotient. */
  lemma Halves(b: byte)
    ensures b == 2 * (b / 2) + b % 2 && b / 2 == 2 * (b / 4) + b / 2 % 2 && b / 4 == 2 * (b / 8) + b / 4 % 2
    ensures b / 8 == 2 * (b / 16) + b / 8 % 2 && b / 16 == 2 * (b / 32) + b / 16 % 2
    ensures b / 32 == 2 * (b / 64) + b / 32 % 2 && b / 64 == 2 * (b / 128) + b / 64 % 2
  {
    assert b / 2 / 2 == b / 4;
    assert b / 4 / 2 == b / 8;
    assert b / 8 / 2 == b / 16;
    assert b / 16 / 2 == b / 32;
    assert b / 32 / 2 == b / 64;
    assert b / 64 / 2 == b / 128;
  }

  lemma DigitsOfGroup(a: byte, b: byte, c: byte)
    ensures
      var x, y, z := BitsOf(a), BitsOf(b), BitsOf(c);
      && DigitOf(x[..6]) == a / 4
      && DigitOf(x[6..] + y[..4]) == a % 4 * 16 + b / 16
      && DigitOf(y[4..] + z[..2]) == b % 16 * 4 + c / 64
      && DigitOf(z[2..]) == c % 64
  {
    Halves(a);
    Halves(b);
    Halves(c);
  }

  lemma EncodeOneRegroupsBits(a: byte)
    ensures Tail([a]) == Regroup(BitString([a])) + [PAD, PAD]
  {
    hide Char;
    var x := BitsOf(a);
    DigitsOfGroup(a, 0, 0);
    assert x[6..] + BitsOf(0)[..4] == [x[6], x[7], 0, 0, 0, 0];
    assert BitString([a]) == x[..6] + x[6..];
    hide BitsOf;
    hide BitString;
    RegroupStep(x[..6], x[6..]);
    assert Regroup(x[6..]) == [Char(DigitOf(x[6..]))];
  }

  lemma BitStringOfTwo(a: byte, b: byte)
    ensures BitString([a, b]) == BitsOf(a) + BitsOf(b)
  {
    hide BitsOf;
    assert [a, b][1..] == [b];
  }

  lemma LastDigit(y: seq<bit>)
    requires |y| == 8
    ensures DigitOf(y[4..] + BitsOf(0)[..2]) == DigitOf(y[4..])
  {
  }

  lemma EncodeTwoRegroupsBits(a: byte, b: byte)
    ensures Tail([a, b]) == Regroup(BitString([a, b])) + [PAD]
  {
    hide Char, BitString, BitsOf, DigitOf;
    var x, y := BitsOf(a), BitsOf(b);
    DigitsOfGroup(a, b, 0);
    LastDigit(y);
    BitStringOfTwo(a, b);
    assert x + y == x[..6] + ((x[6..] + y[..4]) + y[4..]);
    RegroupStep(x[..6], (x[6..] + y[..4]) + y[4..]);
    RegroupStep(x[6..] + y[..4], y[4..]);
    assert Regroup(y[4..]) == [Char(DigitOf(y[4..]))];
  }

  /** Three times eight as four times six. */
  lemma Recut(x: seq<bit>, y: seq<bit>, z: seq<bit>, r: seq<bit>)
    requires |x| == |y| == |z| == 8
    ensures x + (y + (z + r)) == x[..6] + ((x[6..] + y[..4]) + ((y[4..] + z[..2]) + (z[2..] + r)))
  {
  }

  lemma BitsOfGroup(s: seq<byte>)
    requires |s| >= 3
    ensures BitString(s) == BitsOf(s[0]) + (BitsOf(s[1]) + (BitsOf(s[2]) + BitString(s[3..])))
  {
    hide BitsOf;
    assert s[1..][1..] == s[2..] && s[2..][1..] == s[3..];
    assert BitString(s[1..]) == BitsOf(s[1]) + BitString(s[2..]);
  }

  lemma FourDigits(a: byte, b: byte, c: byte, d: byte, r: seq<byte>)
    ensures [a] + ([b] + ([c] + ([d] + r))) == [a, b, c, d] + r
  {
  }

  /**
   * The encoding is the bit string of the input cut into six-bit digits, zero bits filling
   * the last digit, and `=` filling the last group of four characters.
   */
  lemma {:induction false} EncodeRegroupsBits(s: seq<byte>)
    ensures Encode(s) == Regroup(BitString(s)) + Padding(|s|)
  {
    if |s| == 0 {
    } else if |s| == 1 {
      assert s == [s[0]];
      EncodeOneRegroupsBits(s[0]);
    } else if |s| == 2 {
      assert s == [s[0], s[1]];
      EncodeTwoRegroupsBits(s[0], s[1]);
    } else {
      EncodeGroupRegroupsBits(s);
      EncodeRegroupsBits(s[3..]);
      hide *;
      SeqAssoc(Group(s[0], s[1], s[2]), Regroup(BitString(s[3..])), Padding(|s|));
    }
  }

  lemma EncodeGroupRegroupsBits(s: seq<byte>)
    requires |s| >= 3
    ensures Encode(s) == Group(s[0], s[1], s[2]) + Encode(s[3..])
    ensures Regroup(BitString(s)) == Group(s[0], s[1], s[2]) + Regroup(BitString(s[3..]))
    ensures Padding(|s|) == Padding(|s[3..]|)
  {
    hide Group, Regroup, BitString, BitsOf;
    BitsOfGroup(s);
    GroupRegroupsBits(s[0], s[1], s[2], BitString(s[3..]));
  }

  lemma GroupRegroupsBits(a: byte, b: byte, c: byte, rest: seq<bit>)
    ensures Regroup(BitsOf(a) + (BitsOf(b) + (BitsOf(c) + rest))) == Group(a, b, c) + Regroup(rest)
  {
    hide Char;
    var x, y, z := BitsOf(a), BitsOf(b), BitsOf(c);
    DigitsOfGroup(a, b, c);
    hide BitsOf;
    hide Regroup;
    hide DigitOf;
    Recut(x, y, z, rest);
    var d0, d1, d2, d3 := x[..6], x[6..] + y[..4], y[4..] + z[..2], z[2..];
    RegroupStep(d0, d1 + (d2 + (d3 + rest)));
    RegroupStep(d1, d2 + (d3 + rest));
    RegroupStep(d2, d3 + rest);
    RegroupStep(d3, rest);
    FourDigits(Char(DigitOf(d0)), Char(DigitOf(d1)), Char(DigitOf(d2)), Char(DigitOf(d3)), Regroup(rest));
  }

  // ---------------------------------------------------------------------------
  // Lines

  /** `t` in lines of `w` characters, each ended by a newline. */
  function Lines(t: seq<byte>, w: nat): seq<byte>
    requires w > 0
  {
    if |t| == 0 then []
    else if |t| <= w then t + [NEWLINE]
    else t[..w] + [NEWLINE] + Lines(t[w..], w)
  }

  /** The number of three-byte groups per line: 0 for no line breaks. */
  function LineGroups(count: int): (g: nat)
    requires count >= -1
  {
    if count != 0 && count < 3 then 15 else count / 3
  }

  /** The empty line added after `n` bytes that fill their last line of `c` bytes. */
  function EmptyLine(n: nat, c: nat): seq<byte>
    requires c > 0
  {
    if n % c == 0 then [NEWLINE] else []
  }

  /**
   * What the encoder writes: the encoding in lines of `LineGroups(count)` groups, and one
   * empty line more when the input fills its last line.
   */
  function PackedText(s: seq<byte>, count: int): seq<byte>
    requires count >= -1
  {
    var g := LineGroups(count);
    if |s| == 0 then []
    else if g == 0 then Encode(s)
    else Lines(Encode(s), 4 * g) + EmptyLine(|s|, 3 * g)
  }

  /** The number of lines of `c` bytes that `n` bytes begin. */
  function LinesBegun(n: nat, c: nat): nat
    requires c > 0
  {
    n / c + if n % c == 0 then 0 else 1
  }

  /** The buffer space the encoder reserves before it writes. */
  function Reserved(n: nat, count: int): nat
    requires count >= -1
  {
    var c := 3 * LineGroups(count);
    if n == 0 then 0 else n / 3 * 4 + if c > 0 then LinesBegun(n, c) else 0
  }

  /** 45 bytes a line for `*`, 1 and 2, none for 0, and otherwise the largest multiple of three not above the count. */
  lemma LineLength(count: int)
    requires count >= -1
    ensures
      var c := 3 * LineGroups(count);
      if count == 0 then c == 0 else if count < 3 then c == 45 else count - 3 < c <= count
  {
  }

  /** Line feeds, code 10, stand after every full line and at the end, and nowhere else. */
  lemma {:induction false} LineFeeds(t: seq<byte>, w: nat, i: nat)
    requires w > 0 && i < |Lines(t, w)| && 10 !in t
    ensures Lines(t, w)[i] == 10 <==> i % (w + 1) == w || i == |Lines(t, w)| - 1
    decreases |t|
  {
    if |t| <= w {
      assert Lines(t, w) == t + [NEWLINE];
      if i < |t| {
        assert (t + [NEWLINE])[i] == t[i];
        DivModUnique(i, w + 1, 0, i);
      }
    } else if i <= w {
      DivModUnique(i, w + 1, 0, i);
      hide Lines;
      LinesStep(t[..w], t[w..], w);
      assert t[..w] + t[w..] == t;
      assert Lines(t, w) == t[..w] + [NEWLINE] + Lines(t[w..], w);
    } else {
      hide Lines;
      LinesStep(t[..w], t[w..], w);
      assert t[..w] + t[w..] == t;
      LineFeeds(t[w..], w, i - w - 1);
      WrapMod(i - w - 1, w + 1);
    }
  }

  /** Output of the encoder from `s` on, `column` bytes into a line that breaks at `c`. */
  function Emit(s: seq<byte>, column: nat, c: nat): seq<byte> {
    if |s| < 3 then Tail(s) + (if c > 0 then [NEWLINE] else [])
    else if column == c then Group(s[0], s[1], s[2]) + [NEWLINE] + Emit(s[3..], 3, c)
    else Group(s[0], s[1], s[2]) + Emit(s[3..], column + 3, c)
  }

  lemma EmitStep(dst: seq<byte>, s: seq<byte>, column: nat, c: nat)
    requires |s| >= 3
    ensures
      var t := Group(s[0], s[1], s[2]);
      dst + Emit(s, column, c) ==
      if column == c then (dst + t + [NEWLINE]) + Emit(s[3..], 3, c) else (dst + t) + Emit(s[3..], column + 3, c)
  {
    hide Group;
  }

  lemma {:induction false} EmitUnbroken(s: seq<byte>, column: nat)
    requires column > 0
    ensures Emit(s, column, 0) == Encode(s)
  {
    if |s| >= 3 {
      EmitUnbroken(s[3..], column + 3);
    }
  }

  lemma LinesStep(q: seq<byte>, t: seq<byte>, w: nat)
    requires |q| == w > 0
    ensures Lines(q + t, w) == q + [NEWLINE] + Lines(t, w)
  {
    if |t| == 0 {
      assert q + t == q;
    } else {
      assert (q + t)[..w] == q && (q + t)[w..] == t;
    }
  }

  lemma LastLine(t: seq<byte>, w: nat)
    requires |t| <= w && w > 0
    ensures t + [NEWLINE] == Lines(t, w) + if |t| == 0 then [NEWLINE] else []
  {
  }

  lemma EmptyLineAt(n: nat, c: nat)
    requires c > 0
    ensures EmptyLine(n + c, c) == EmptyLine(n, c)
    ensures n < c ==> EmptyLine(n, c) == if n == 0 then [NEWLINE] else []
  {
    WrapMod(n, c);
    if n < c {
      DivModUnique(n, c, 0, n);
    }
  }

  lemma EmitLastLine(s: seq<byte>, p: seq<byte>, m: nat, g: nat)
    requires m < g && |p| == 4 * m && |s| < 3
    ensures p + Emit(s, 3 * m + 3, 3 * g) == Lines(p + Encode(s), 4 * g) + EmptyLine(3 * m + |s|, 3 * g)
  {
    hide Group;
    hide Tail;
    hide EmptyLine;
    EmptyLineAt(3 * m + |s|, 3 * g);
    LastLine(p + Tail(s), 4 * g);
    hide Lines;
    assert p + Emit(s, 3 * m + 3, 3 * g) == (p + Tail(s)) + [NEWLINE];
  }

  /** With `m` groups `p` on a line of `g` groups, the encoder completes the lines of `p + Encode(s)`. */
  lemma {:induction false} EmitLines(s: seq<byte>, p: seq<byte>, m: nat, g: nat)
    requires m < g && |p| == 4 * m
    ensures p + Emit(s, 3 * m + 3, 3 * g) == Lines(p + Encode(s), 4 * g) + EmptyLine(3 * m + |s|, 3 * g)
    decreases |s|
  {
    hide Group;
    hide Tail;
    hide EmptyLine;
    hide Lines;
    if |s| < 3 {
      EmitLastLine(s, p, m, g);
    } else {
      var t, rest := Group(s[0], s[1], s[2]), s[3..];
      var q, code := p + t, Encode(rest);
      SeqAssoc(p, t, code);
      if m + 1 < g {
        EmitLines(rest, q, m + 1, g);
        SeqAssoc(p, t, Emit(rest, 3 * m + 6, 3 * g));
      } else {
        EmitLines(rest, [], 0, g);
        assert [] + code == code && [] + Emit(rest, 3, 3 * g) == Emit(rest, 3, 3 * g);
        EmitFullLine(s, p, m);
      }
    }
  }

  lemma EncodeStep(s: seq<byte>)
    requires |s| >= 3
    ensures Encode(s) == Group(s[0], s[1], s[2]) + Encode(s[3..])
  {
    hide Group;
  }

  lemma EmitFullLine(s: seq<byte>, p: seq<byte>, m: nat)
    requires |p| == 4 * m && |s| >= 3
    requires Emit(s[3..], 3, 3 * m + 3) == Lines(Encode(s[3..]), 4 * m + 4) + EmptyLine(|s| - 3, 3 * m + 3)
    ensures p + Emit(s, 3 * m + 3, 3 * m + 3) ==
            Lines(p + Encode(s), 4 * m + 4) + EmptyLine(3 * m + |s|, 3 * m + 3)
  {
    hide *;
    var t, code := Group(s[0], s[1], s[2]), Encode(s[3..]);
    var q := p + t;
    EncodeStep(s);
    SeqAssoc(p, t, code);
    EmitStep(p, s, 3 * m + 3, 3 * m + 3);
    LinesStep(q, code, 4 * m + 4);
    EmptyLineAt(|s| - 3, 3 * m + 3);
    SeqAssoc(q + [NEWLINE], Lines(code, 4 * m + 4), EmptyLine(|s| - 3, 3 * m + 3));
  }

  lemma PackedTextIsEmit(s: seq<byte>, count: int)
    requires count >= -1 && |s| > 0
    ensures PackedText(s, count) == Emit(s, 3, 3 * LineGroups(count))
  {
    hide Emit;
    hide Lines;
    hide Encode;
    hide EmptyLine;
    var g := LineGroups(count);
    if g == 0 {
      EmitUnbroken(s, 3);
    } else {
      EmitLines(s, [], 0, g);
      assert [] + Encode(s) == Encode(s) && [] + Emit(s, 3, 3 * g) == Emit(s, 3, 3 * g);
    }
  }

  /** Shifts three bytes into an accumulator and takes its four digits. */
  method PackGroup(a: byte, b: byte, c: byte) returns (t: seq<byte>)
    ensures t == Group(a, b, c)
  {
    var l, l1: int := a, b;
    l := l * 65536;
    l := l + l1 * 256;
    l := l + c;
    GroupDigits(a, b, c, l);
    hide Char;
    var d0, d1, d2, d3: int := l / 262144 % 64, l / 4096 % 64, l / 64 % 64, l % 64;
    assert d0 == a / 4 && d1 == a % 4 * 16 + b / 16 && d2 == b % 16 * 4 + c / 64 && d3 == c % 64;
    t := [Char(d0), Char(d1), Char(d2), Char(d3)];
  }

  /** The last one or two bytes, padded. */
  method PackTail(rest: seq<byte>) returns (dst: seq<byte>)
    requires |rest| < 3
    ensures dst == Tail(rest)
  {
    hide Group;
    if |rest| == 1 {
      var t := PackGroup(rest[0], 0, 0);
      dst := t[..2] + [PAD, PAD];
    } else if |rest| == 2 {
      var t := PackGroup(rest[0], rest[1], 0);
      dst := t[..3] + [PAD];
    } else {
      dst := [];
    }
  }

  /** Normalises the line length to bytes: 45 by default, otherwise a multiple of three. */
  method Normalise(count: int) returns (c: nat)
    requires count >= -1
    ensures c == 3 * LineGroups(count)
  {
    var n := count;
    if n != 0 && n < 3 {
      n := 45;
    } else if n >= 3 {
      n := n - n % 3;
    }
    c := n;
  }

  /** Normalises the line length and works out the space to reserve. */
  method Reserve(srclen: nat, count: int) returns (c: nat, dstlen: nat)
    requires count >= -1 && srclen > 0
    ensures c == 3 * LineGroups(count) && dstlen == Reserved(srclen, count)
  {
    hide LineGroups, LinesBegun;
    c := Normalise(count);
    dstlen := srclen / 3 * 4;
    if c > 0 {
      dstlen := dstlen + LinesBegun(srclen, c);
    }
  }

  /** The encoding loop of the `m` directive, and the space it asks for beforehand. */
  method PackM(src: seq<byte>, count: int) returns (dst: seq<byte>, dstlen: nat)
    requires count >= -1
    ensures dst == PackedText(src, count)
    ensures dstlen == Reserved(|src|, count)
  {
    if |src| == 0 {
      return [], 0;
    }
    var c;
    c, dstlen := Reserve(|src|, count);
    var srclen := |src|;
    dst := [];
    PackedTextIsEmit(src, count);
    hide PackedText;
    hide Reserved;
    hide LineGroups;
    hide Group, Emit, Tail;
    var column, i := 3, 0;
    assert src[0..] == src && dst + Emit(src, 3, c) == Emit(src, 3, c);
    while srclen >= 3
      invariant 0 <= srclen && i + srclen == |src| && column > 0
      invariant dst + Emit(src[i..], column, c) == PackedText(src, count)
      decreases srclen
    {
      EmitStep(dst, src[i..], column, c);
      assert src[i..][3..] == src[i + 3..];
      var t := PackGroup(src[i], src[i + 1], src[i + 2]);
      dst, i := dst + t, i + 3;
      if column == c {
        dst := dst + [NEWLINE];
        column := 0;
      }
      srclen, column := srclen - 3, column + 3;
    }
    EmitEnd(src[i..], column, c);
    var tail := PackTail(src[i..]);
    SeqAssoc(dst, tail, if c > 0 then [NEWLINE] else []);
    dst := dst + tail;
    if |tail| > 0 {
      column := column + 3;
    }
    if column > 0 && c > 0 {
      dst := dst + [NEWLINE];
    } else {
      assert dst + [] == dst;
    }
  }

  lemma EmitEnd(s: seq<byte>, column: nat, c: nat)
    requires |s| < 3
    ensures Emit(s, column, c) == Tail(s) + (if c > 0 then [NEWLINE] else [])
  {
  }

  // ---------------------------------------------------------------------------
  // Length

  lemma {:induction false} EmitLength(s: seq<byte>, column: nat, c: nat)
    requires column >= 3 && column % 3 == 0 && c % 3 == 0 && (c > 0 ==> column <= c)
    ensures |Emit(s, column, c)| == EncodedLength(|s|) + (if c > 0 then (column - 3 + |s|) / c + 1 else 0)
    decreases |s|
  {
    hide Group;
    if |s| < 3 {
      if c > 0 {
        DivModUnique(column - 3 + |s|, c, 0, column - 3 + |s|);
      }
    } else if column == c {
      EmitLength(s[3..], 3, c);
      WrapMod(|s| - 3, c);
    } else {
      EmitLength(s[3..], column + 3, c);
    }
  }

  lemma Excess(n: nat, g: nat)
    requires n > 0
    ensures
      var c := 3 * g;
      (n + 2) / 3 * 4 + (if c > 0 then n / c + 1 else 0)
      - (n / 3 * 4 + if c > 0 then LinesBegun(n, c) else 0)
      == if n % 3 != 0 then 4 else if c > 0 && n % c == 0 then 1 else 0
  {
    assert (n + 2) / 3 == n / 3 + if n % 3 == 0 then 0 else 1;
    if g > 0 && n % (3 * g) == 0 {
      MultipleOfThree(n, g);
    }
  }

  /** Exactly how many bytes the encoder writes, and by how much that exceeds what it reserves. */
  lemma PackedLength(s: seq<byte>, count: int)
    requires count >= -1 && |s| > 0
    ensures
      var n, c := |s|, 3 * LineGroups(count);
      && |PackedText(s, count)| == (n + 2) / 3 * 4 + (if c > 0 then n / c + 1 else 0)
      && |PackedText(s, count)| - Reserved(n, count) ==
         if n % 3 != 0 then 4 else if c > 0 && n % c == 0 then 1 else 0
  {
    var n, g := |s|, LineGroups(count);
    hide LineGroups;
    PackedTextIsEmit(s, count);
    hide PackedText;
    EmitLength(s, 3, 3 * g);
    hide Emit;
    EncodedLengthRoundsUp(n);
    hide EncodedLength, LinesBegun;
    Excess(n, g);
  }

  /** Four characters for each group of `n` bytes, the last one padded. */
  function GroupsLength(n: nat): nat {
    (n + 2) / 3 * 4
  }

  lemma QuotientIsNat(n: nat, c: nat)
    requires c > 0
    ensures n / c >= 0
  {
  }

  /** The newlines of `n` bytes in lines of `c`: one for each full line, and one more. */
  function Newlines(n: nat, c: nat): nat {
    if c > 0 then QuotientIsNat(n, c); n / c + 1 else 0
  }

  /** The length of the text of `n` bytes. */
  function TextLength(n: nat, count: int): nat
    requires count >= -1
  {
    if n == 0 then 0 else GroupsLength(n) + Newlines(n, 3 * LineGroups(count))
  }

  lemma TextHasLength(s: seq<byte>, count: int)
    requires count >= -1
    ensures |PackedText(s, count)| == TextLength(|s|, count)
  {
    if |s| > 0 {
      PackedLength(s, count);
    }
    hide LineGroups;
  }

  lemma MultipleOfThree(n: nat, g: nat)
    requires g > 0 && n % (3 * g) == 0
    ensures n % 3 == 0
  {
    var q := n / (3 * g);
    assert n == 3 * g * q == 3 * (g * q);
  }

  /** The reservation covers the text exactly when no group is padded and no empty line is added. */
  lemma ReservationCovers(s: seq<byte>, count: int)
    requires count >= -1
    ensures |PackedText(s, count)| <= Reserved(|s|, count) <==>
            |s| == 0 || (|s| % 3 == 0 && (LineGroups(count) > 0 ==> |s| % (3 * LineGroups(count)) != 0))
  {
    if |s| > 0 {
      PackedLength(s, count);
    }
  }

  // ---------------------------------------------------------------------------
  // The decoding

  predicate Ascii(s: seq<byte>) {
    forall i :: 0 <= i < |s| ==> s[i] < 128
  }

  /** The alphabet and `=`; every other byte is foreign. */
  predicate IsSymbol(c: byte) {
    Table(c) != IGNORE
  }

  /** Bytes of 128 or more, if any, come right after foreign bytes. */
  predicate Harmless(s: seq<byte>) {
    forall i :: 0 <= i < |s| && s[i] >= 128 ==> i > 0 && !IsSymbol(s[i - 1])
  }

  lemma AsciiIsHarmless(s: seq<byte>)
    requires Ascii(s)
    ensures Harmless(s)
  {
  }

  function Filter(s: seq<byte>): (t: seq<byte>)
    ensures |t| <= |s|
  {
    if s == [] then [] else (if IsSymbol(s[0]) then [s[0]] else []) + Filter(s[1..])
  }

  /** The digit a symbol stands for; padding counts as zero. */
  function Value(c: byte): (d: byte)
    requires IsSymbol(c)
    ensures d < 64
  {
    if c == PAD then 0 else Table(c)
  }

  function Pads(t: seq<byte>): nat {
    if t == [] then 0 else (if t[0] == PAD then 1 else 0) + Pads(t[1..])
  }

  /** Three bytes from four digits. */
  function Ungroup(a: int, b: int, c: int, d: int): (t: seq<byte>)
    requires 0 <= a < 64 && 0 <= b < 64 && 0 <= c < 64 && 0 <= d < 64
    ensures |t| == 3
  {
    [a * 4 + b / 16, b % 16 * 16 + c / 4, c % 4 * 64 + d]
  }

  /** The bytes of three that a group with this much padding stands for. */
  function Cut(x: seq<byte>, padding: nat): (t: seq<byte>)
    requires |x| == 3
    ensures |t| == if padding == 0 then 3 else if padding == 1 then 2 else 1
    ensures t <= x
  {
    if padding == 0 then x else if padding == 1 then x[..2] else x[..1]
  }

  predicate Symbols(t: seq<byte>) {
    forall i :: 0 <= i < |t| ==> IsSymbol(t[i])
  }

  /** Section 4 of RFC 4648 backwards: groups of four symbols up to the first padded one. */
  function Decode(t: seq<byte>): seq<byte>
    requires Symbols(t)
  {
    if |t| < 4 then []
    else
      var x := Ungroup(Value(t[0]), Value(t[1]), Value(t[2]), Value(t[3]));
      var padding := Pads(t[..4]);
      if padding == 0 then x + Decode(t[4..]) else Cut(x, padding)
  }

  /** A digit found at the start of a string: its value, whether it is padding, the bytes read. */
  datatype Read = End | Digit(value: byte, padding: nat, used: nat)

  /**
   * Reads up to the next digit.  `stale` is what the digit's slot holds: an ASCII byte
   * overwrites it, any other byte leaves it to be taken, or ignored, as it is.
   */
  function NextDigit(s: seq<byte>, stale: byte): (r: Read)
    ensures r.Digit? ==> 0 < r.used <= |s|
  {
    if s == [] then End
    else if s[0] < 128 && s[0] == PAD then Digit(0, 1, 1)
    else
      var v := if s[0] < 128 then Table(s[0]) else stale;
      if v != IGNORE then Digit(v, 0, 1)
      else More(NextDigit(s[1..], IGNORE), 1)
  }

  /** The same digit, found after `n` more bytes. */
  function More(r: Read, n: nat): Read {
    match r
    case End => End
    case Digit(v, p, u) => Digit(v, p, u + n)
  }

  datatype Quad = Short | Quad(ch: seq<byte>, padding: nat, used: nat)

  /** Reads digits into slots `i` to 3 of `ch`. */
  function NextQuad(s: seq<byte>, ch: seq<byte>, i: nat): (q: Quad)
    requires |ch| == 4 && i <= 4
    ensures q.Quad? ==> |q.ch| == 4 && 4 - i <= q.used <= |s|
    decreases 4 - i
  {
    if i == 4 then Quad(ch, 0, 0)
    else
      match NextDigit(s, ch[i])
      case End => Short
      case Digit(v, p, u) => MoreQuad(NextQuad(s[u..], ch[i := v], i + 1), p, u)
  }

  function MoreQuad(q: Quad, p: nat, n: nat): Quad {
    match q
    case Short => Short
    case Quad(ch, padding, used) => Quad(ch, padding + p, used + n)
  }

  /** The accumulator built from four digit slots. */
  function Word(a: int, b: int, c: int, d: int): int {
    262144 * a + 4096 * b + 64 * c + d
  }

  /** The bytes of the accumulator that a group with this much padding yields. */
  function Yield(l: int, padding: nat): (t: seq<byte>)
    ensures |t| <= 3
  {
    Cut([l / 65536 % 256, l / 256 % 256, l % 256], padding)
  }

  datatype Decoded = Decoded(bytes: seq<byte>, used: nat)

  /** The decoder on any bytes, started with `ch` in its digit slots. */
  function Unpacked(s: seq<byte>, ch: seq<byte>): (r: Decoded)
    requires |ch| == 4
    ensures r.used <= |s|
  {
    if |s| < 4 then Decoded([], 0)
    else
      match NextQuad(s, ch, 0)
      case Short => Decoded([], |s|)
      case Quad(ch', padding, used) =>
        var x := Yield(Word(ch'[0], ch'[1], ch'[2], ch'[3]), padding);
        if padding > 0 then Decoded(x, used) else After(x, used, Unpacked(s[used..], ch'))
  }

  /** The inner loop of the decoder: reads bytes until slot `i` of `ch` holds a digit. */
  method ReadDigit(tab: array<byte>, src: seq<byte>, start: nat, ch: array<byte>, i: nat)
    returns (found: bool, pos: nat, padding: nat)
    requires tab.Length == 128 && ch != tab && (forall c: byte :: c < 128 ==> tab[c] == Table(c))
    requires start <= |src| && ch.Length == 4 && i < 4
    modifies ch
    ensures found <==> NextDigit(src[start..], old(ch[i])).Digit?
    ensures !found ==> pos == |src|
    ensures found ==> var r := NextDigit(src[start..], old(ch[i]));
                      pos == start + r.used && padding == r.padding && ch[..] == old(ch[..])[i := r.value]
  {
    pos, padding := start, 0;
    ghost var r := NextDigit(src[start..], ch[i]);
    while true
      invariant start <= pos <= |src| && padding == 0
      invariant r == More(NextDigit(src[pos..], ch[i]), pos - start)
      invariant forall j :: 0 <= j < 4 && j != i ==> ch[j] == old(ch[j])
      invariant forall c: byte :: c < 128 ==> tab[c] == Table(c)
      decreases |src| - pos
    {
      if pos == |src| {
        return false, pos, padding;
      }
      var c := src[pos];
      assert src[pos..][0] == c && src[pos..][1..] == src[pos + 1..];
      pos := pos + 1;
      if c < 128 {
        ch[i] := tab[c];
        if ch[i] == PADDING {
          ch[i] := 0;
          padding := padding + 1;
        }
      }
      if ch[i] != IGNORE {
        return true, pos, padding;
      }
    }
  }

  lemma NextQuadStep(src: seq<byte>, at: nat, ch: seq<byte>, i: nat)
    requires |ch| == 4 && i < 4 && at <= |src|
    ensures
      match NextDigit(src[at..], ch[i])
      case End => NextQuad(src[at..], ch, i) == Short
      case Digit(v, p, u) => NextQuad(src[at..], ch, i) == MoreQuad(NextQuad(src[at + u..], ch[i := v], i + 1), p, u)
  {
    hide NextDigit;
    match NextDigit(src[at..], ch[i])
    case End =>
    case Digit(v, p, u) => assert src[at..][u..] == src[at + u..];
  }

  lemma NextQuadFull(s: seq<byte>, ch: seq<byte>)
    requires |ch| == 4
    ensures NextQuad(s, ch, 4) == Quad(ch, 0, 0)
  {
  }

  predicate IsDecTab(tab: array<byte>)
    reads tab
  {
    tab.Length == 128 && forall c: byte :: c < 128 ==> tab[c] == Table(c)
  }

  /** The `for` loop of the decoder: fills the four slots, unless the input ends first. */
  method ReadQuad(tab: array<byte>, src: seq<byte>, start: nat, ch: array<byte>)
    returns (found: bool, pos: nat, padding: nat)
    requires IsDecTab(tab) && ch != tab && start <= |src| && ch.Length == 4
    modifies ch
    ensures found <==> NextQuad(src[start..], old(ch[..]), 0).Quad?
    ensures found ==> start <= pos <= |src| &&
                      NextQuad(src[start..], old(ch[..]), 0) == Quad(ch[..], padding, pos - start)
    ensures !found ==> pos == |src|
  {
    hide NextDigit, Table, NextQuad;
    pos, padding := start, 0;
    ghost var q := NextQuad(src[start..], ch[..], 0);
    var i := 0;
    while i < 4
      invariant i <= 4 && start <= pos <= |src|
      invariant q == MoreQuad(NextQuad(src[pos..], ch[..], i), padding, pos - start)
    {
      var p;
      NextQuadStep(src, pos, ch[..], i);
      found, pos, p := ReadDigit(tab, src, pos, ch, i);
      if !found {
        return;
      }
      padding, i := padding + p, i + 1;
    }
    NextQuadFull(src[pos..], ch[..]);
    found := true;
  }

  /** Stores the bytes of the accumulator at `d`. */
  method StoreGroup(buf: array<byte>, d: nat, l: int, padding: nat) returns (next: nat)
    requires d + 3 <= buf.Length
    modifies buf
    ensures next == d + |Yield(l, padding)| && buf[..next] == old(buf[..d]) + Yield(l, padding)
  {
    next := d;
    buf[next] := l / 65536 % 256;
    next := next + 1;
    if padding <= 1 {
      buf[next] := l / 256 % 256;
      next := next + 1;
    }
    if padding == 0 {
      buf[next] := l % 256;
      next := next + 1;
    }
  }

  lemma UnpackedStep(src: seq<byte>, pos: nat, ch: seq<byte>)
    requires |ch| == 4 && pos + 4 <= |src|
    ensures
      match NextQuad(src[pos..], ch, 0)
      case Short => Unpacked(src[pos..], ch) == Decoded([], |src| - pos)
      case Quad(ch', padding, used) =>
        var x := Yield(Word(ch'[0], ch'[1], ch'[2], ch'[3]), padding);
        Unpacked(src[pos..], ch) ==
        if padding > 0 then Decoded(x, used) else After(x, used, Unpacked(src[pos + used..], ch'))
  {
    hide NextQuad;
    hide Word;
    hide Yield;
    match NextQuad(src[pos..], ch, 0)
    case Short =>
    case Quad(ch', padding, used) =>
      assert src[pos..][used..] == src[pos + used..];
  }

  /** The `while` loop of the decoder, over the buffers set up for it. */
  method UnpackLoop(tab: array<byte>, src: seq<byte>, ch: array<byte>, buf: array<byte>, ghost quads: nat)
    returns (d: nat, pos: nat)
    requires IsDecTab(tab) && ch.Length == 4 && ch != tab && buf != tab && buf != ch
    requires buf.Length == 3 * quads && |src| < 4 * quads + 4
    modifies ch, buf
    ensures d <= buf.Length && Decoded(buf[..d], pos) == Unpacked(src, old(ch[..]))
  {
    hide Table;
    hide Word;
    hide NextQuad;
    hide Yield;
    hide Unpacked;
    pos, d := 0, 0;
    var padding: nat := 0;
    ghost var groups: nat, ch0 := 0, ch[..];
    assert src[0..] == src && [] + Unpacked(src, ch0).bytes == Unpacked(src, ch0).bytes;
    while |src| - pos >= 4 && padding == 0
      invariant pos <= |src| && d <= buf.Length && IsDecTab(tab)
      invariant padding == 0 ==> d == 3 * groups && 4 * groups <= pos
      invariant Unpacked(src, ch0) ==
                if padding > 0 then Decoded(buf[..d], pos) else After(buf[..d], pos, Unpacked(src[pos..], ch[..]))
      decreases |src| - pos
    {
      ghost var start, done := pos, buf[..d];
      UnpackedStep(src, pos, ch[..]);
      var found;
      found, pos, padding := ReadQuad(tab, src, pos, ch);
      if !found {
        assert done + [] == done;
        return;
      }
      ghost var rest := Unpacked(src[pos..], ch[..]);
      var l := Word(ch[0], ch[1], ch[2], ch[3]);
      d := StoreGroup(buf, d, l, padding);
      groups := groups + 1;
      AfterAfter(done, start, Yield(l, padding), pos - start, rest);
      YieldLength(l, padding);
    }
    UnpackedShort(src[pos..], ch[..]);
    assert buf[..d] + [] == buf[..d];
  }

  lemma UnpackedShort(s: seq<byte>, ch: seq<byte>)
    requires |ch| == 4
    ensures |s| < 4 ==> Unpacked(s, ch) == Decoded([], 0)
  {
  }

  /** The decoder of the `m` directive; `garbage` is what its digit slots hold at the start. */
  method UnpackM(src: seq<byte>, garbage: seq<byte>) returns (dst: seq<byte>, used: nat)
    requires |garbage| == 4
    ensures Decoded(dst, used) == Unpacked(src, garbage)
    ensures |dst| <= |src| / 4 * 3
  {
    var tab := MakeBase64DecTab();
    var ch := new byte[4](i requires 0 <= i < 4 => garbage[i]);
    var buf := new byte[|src| / 4 * 3];
    assert ch[..] == garbage;
    var d;
    d, used := UnpackLoop(tab, src, ch, buf, |src| / 4);
    dst := buf[..d];
  }

  lemma YieldLength(l: int, padding: nat)
    ensures |Yield(l, padding)| == if padding == 0 then 3 else if padding == 1 then 2 else 1
  {
  }

  /** `rest`, decoded after `n` bytes that gave `x`. */
  function After(x: seq<byte>, n: nat, rest: Decoded): Decoded {
    Decoded(x + rest.bytes, n + rest.used)
  }

  lemma AfterAfter(x: seq<byte>, n: nat, y: seq<byte>, m: nat, rest: Decoded)
    ensures After(x, n, After(y, m, rest)) == After(x + y, n + m, rest)
  {
  }

  // ---------------------------------------------------------------------------
  // Decoder against reference

  /** Every complete group yields at most three bytes and takes at least four. */
  lemma {:induction false} UnpackedBound(s: seq<byte>, ch: seq<byte>)
    requires |ch| == 4
    ensures |Unpacked(s, ch).bytes| <= Unpacked(s, ch).used / 4 * 3 <= |s| / 4 * 3
    decreases |s|
  {
    hide NextQuad;
    hide Word;
    hide Yield;
    if |s| >= 4 && NextQuad(s, ch, 0).Quad? {
      var q := NextQuad(s, ch, 0);
      if q.padding == 0 {
        UnpackedBound(s[q.used..], q.ch);
      }
    }
  }

  lemma {:induction false} FilterAppend(s: seq<byte>, t: seq<byte>)
    ensures Filter(s + t) == Filter(s) + Filter(t)
  {
    hide IsSymbol;
    if s == [] {
      assert s + t == t;
    } else {
      assert (s + t)[0] == s[0] && (s + t)[1..] == s[1..] + t;
      FilterAppend(s[1..], t);
      SeqAssoc(if IsSymbol(s[0]) then [s[0]] else [], Filter(s[1..]), Filter(t));
    }
  }

  lemma {:induction false} FilterIsSymbols(t: seq<byte>)
    ensures Symbols(Filter(t))
  {
    hide IsSymbol;
    if t != [] {
      FilterIsSymbols(t[1..]);
    }
  }

  lemma {:induction false} FilterOfSymbols(t: seq<byte>)
    requires Symbols(t)
    ensures Filter(t) == t
  {
    hide IsSymbol;
    if t != [] {
      assert IsSymbol(t[0]);
      FilterOfSymbols(t[1..]);
      assert [t[0]] + t[1..] == t;
    }
  }

  lemma FilterKeepsSymbols(t: seq<byte>)
    ensures Symbols(Filter(t))
    ensures Symbols(t) ==> Filter(t) == t
  {
    FilterIsSymbols(t);
    if Symbols(t) {
      FilterOfSymbols(t);
    }
  }

  /** What a reader of symbols gets: the first one, leaving the others. */
  ghost predicate ReadsSymbol(r: Read, s: seq<byte>) {
    var f := Filter(s);
    if f == [] then r == End
    else r.Digit? && r.used <= |s| && IsSymbol(f[0]) && r.value == Value(f[0])
         && r.padding == (if f[0] == PAD then 1 else 0) && Filter(s[r.used..]) == f[1..]
  }

  /** The next digit is the next symbol, unless a byte of 128 or more meets a slot with a digit in it. */
  lemma {:induction false} NextDigitIsSymbol(s: seq<byte>, stale: byte)
    requires s == [] || s[0] < 128 || stale == IGNORE
    ensures ReadsSymbol(NextDigit(s, stale), s)
    ensures NextDigit(s, stale).Digit? ==> IsSymbol(s[NextDigit(s, stale).used - 1])
  {
    FilterKeepsSymbols(s);
    if s != [] && !IsSymbol(s[0]) {
      NextDigitIsSymbol(s[1..], IGNORE);
      var r := NextDigit(s[1..], IGNORE);
      if r.Digit? {
        assert s[1..][r.used..] == s[r.used + 1..];
      }
    }
  }

  /** The bytes after a symbol are harmless if all are. */
  lemma HarmlessRest(s: seq<byte>, used: nat)
    requires Harmless(s) && 0 < used <= |s| && IsSymbol(s[used - 1])
    ensures Harmless(s[used..])
  {
    hide IsSymbol;
    forall i | 0 <= i < |s[used..]| && s[used..][i] >= 128
      ensures i > 0 && !IsSymbol(s[used..][i - 1])
    {
      assert s[used + i] >= 128;
    }
  }

  /** Slots from `i` on hold the first symbols of `f`, the symbols of `s`; `q` stops after them. */
  ghost predicate Holds(q: Quad, ch: seq<byte>, i: nat, f: seq<byte>, s: seq<byte>)
    requires |ch| == 4 && i <= 4 && Symbols(f) && |f| >= 4 - i
  {
    && q.Quad? && |q.ch| == 4 && q.used <= |s|
    && (forall k :: 0 <= k < i ==> q.ch[k] == ch[k])
    && (forall k :: i <= k < 4 ==> q.ch[k] == Value(f[k - i]))
    && q.padding == Pads(f[..4 - i])
    && Filter(s[q.used..]) == f[4 - i..]
    && Harmless(s[q.used..])
  }

  lemma HoldsStep(q: Quad, ch: seq<byte>, i: nat, f: seq<byte>, s: seq<byte>, used: nat)
    requires |ch| == 4 && i < 4 && Symbols(f) && |f| >= 4 - i && used <= |s|
    requires Holds(q, ch[i := Value(f[0])], i + 1, f[1..], s[used..])
    ensures Holds(MoreQuad(q, if f[0] == PAD then 1 else 0, used), ch, i, f, s)
  {
    hide Value;
    hide Filter;
    hide Harmless;
    assert q.ch[i] == ch[i := Value(f[0])][i];
    assert s[used..][q.used..] == s[used + q.used..];
    assert f[..4 - i][1..] == f[1..][..3 - i];
    assert f[1..][3 - i..] == f[4 - i..];
  }

  lemma HoldsAtEnd(s: seq<byte>, ch: seq<byte>)
    requires Harmless(s) && |ch| == 4 && Symbols(Filter(s))
    ensures Holds(NextQuad(s, ch, 4), ch, 4, Filter(s), s)
  {
    hide Filter, Harmless, Symbols;
    assert s[0..] == s && Filter(s)[0..] == Filter(s) && Pads(Filter(s)[..0]) == 0;
  }

  /** The next four digits are the next four symbols. */
  lemma {:induction false} NextQuadIsSymbols(s: seq<byte>, ch: seq<byte>, i: nat)
    requires Harmless(s) && |ch| == 4 && i <= 4
    ensures Symbols(Filter(s))
    ensures if |Filter(s)| >= 4 - i then Holds(NextQuad(s, ch, i), ch, i, Filter(s), s) else NextQuad(s, ch, i) == Short
    decreases 4 - i
  {
    var f := Filter(s);
    FilterKeepsSymbols(s);
    if i == 4 {
      HoldsAtEnd(s, ch);
    } else {
      NextDigitIsSymbol(s, ch[i]);
      NextQuadStep(s, 0, ch, i);
      assert s[0..] == s;
      hide NextDigit, NextQuad, Filter, Value, Harmless, Holds, Pads, IsSymbol;
      var r := NextDigit(s, ch[i]);
      if r.Digit? {
        var q := NextQuad(s[r.used..], ch[i := r.value], i + 1);
        HarmlessRest(s, r.used);
        NextQuadIsSymbols(s[r.used..], ch[i := r.value], i + 1);
        if |f| >= 4 - i {
          HoldsStep(q, ch, i, f, s, r.used);
        }
      }
    }
  }

  lemma WordBytes(a: int, b: int, c: int, d: int)
    requires 0 <= a < 64 && 0 <= b < 64 && 0 <= c < 64 && 0 <= d < 64
    ensures
      var l := Word(a, b, c, d);
      && l / 65536 % 256 == a * 4 + b / 16
      && l / 256 % 256 == b % 16 * 16 + c / 4
      && l % 256 == c % 4 * 64 + d
  {
    var l, x, y, z := Word(a, b, c, d), a * 4 + b / 16, b % 16 * 16 + c / 4, c % 4 * 64 + d;
    assert l == 256 * (256 * x + y) + z;
    DivModUnique(l, 65536, x, 256 * y + z);
    DivModUnique(l, 256, 256 * x + y, z);
    DivModUnique(256 * x + y, 256, x, y);
  }

  lemma YieldIsUngroup(a: int, b: int, c: int, d: int, padding: nat)
    requires 0 <= a < 64 && 0 <= b < 64 && 0 <= c < 64 && 0 <= d < 64
    ensures Yield(Word(a, b, c, d), padding) == Cut(Ungroup(a, b, c, d), padding)
  {
    WordBytes(a, b, c, d);
    hide Word, Cut;
  }

  /** The decoder sees the symbols only: foreign bytes have no effect anywhere. */
  lemma {:induction false} UnpackIgnoresForeign(s: seq<byte>, ch: seq<byte>)
    requires Harmless(s) && |ch| == 4
    ensures Symbols(Filter(s)) && Unpacked(s, ch).bytes == Decode(Filter(s))
    decreases |s|
  {
    hide Table;
    hide IsSymbol;
    hide Value;
    var f := Filter(s);
    FilterKeepsSymbols(s);
    NextQuadIsSymbols(s, ch, 0);
    hide NextQuad;
    hide Filter;
    if |s| >= 4 && |f| >= 4 {
      var q := NextQuad(s, ch, 0);
      YieldIsUngroup(Value(f[0]), Value(f[1]), Value(f[2]), Value(f[3]), q.padding);
      hide Ungroup;
      hide Yield;
      hide Word;
      if q.padding == 0 {
        UnpackIgnoresForeign(s[q.used..], q.ch);
      }
    }
  }

  lemma {:induction false} PadsOfAlphabet(t: seq<byte>)
    requires PAD !in t
    ensures Pads(t) == 0
  {
    if t != [] {
      PadsOfAlphabet(t[1..]);
    }
  }

  lemma DigitIsSymbol(d: int)
    requires 0 <= d < 64
    ensures IsSymbol(Char(d)) && Char(d) != PAD && Char(d) < 128 && Char(d) != NEWLINE && Value(Char(d)) == d
  {
  }

  lemma UngroupOfGroup(a: byte, b: byte, c: byte)
    ensures Ungroup(a / 4, a % 4 * 16 + b / 16, b % 16 * 4 + c / 64, c % 64) == [a, b, c]
  {
  }

  lemma {:induction false} PadsAppend(s: seq<byte>, t: seq<byte>)
    ensures Pads(s + t) == Pads(s) + Pads(t)
  {
    if s == [] {
      assert s + t == t;
    } else {
      assert (s + t)[1..] == s[1..] + t;
      PadsAppend(s[1..], t);
    }
  }

  lemma PadsOfPadding()
    ensures Pads([PAD]) == 1 && Pads([PAD, PAD]) == 2
  {
    PadsAppend([PAD], [PAD]);
    assert Pads([PAD]) == 1 && [PAD] + [PAD] == [PAD, PAD];
  }

  lemma PadValue()
    ensures IsSymbol(PAD) && Value(PAD) == 0
  {
  }

  /** The symbols left when the decoder stops after a padded group. */
  function Remaining(t: seq<byte>): (r: seq<byte>)
    ensures |r| <= |t|
  {
    if |t| < 4 then [] else if Pads(t[..4]) == 0 then Remaining(t[4..]) else t[4..]
  }

  lemma DecodeOneGroup(g: seq<byte>, rest: seq<byte>)
    requires |g| == 4 && Symbols(g) && Symbols(rest)
    ensures Symbols(g + rest)
    ensures
      var x := Ungroup(Value(g[0]), Value(g[1]), Value(g[2]), Value(g[3]));
      Decode(g + rest) == if Pads(g) == 0 then x + Decode(rest) else Cut(x, Pads(g))
    ensures Remaining(g + rest) == if Pads(g) == 0 then Remaining(rest) else rest
  {
    var t := g + rest;
    assert t[..4] == g && t[4..] == rest;
    hide Pads, IsSymbol, Value, Ungroup, Cut;
  }

  /** A group with these digits. */
  ghost predicate HasDigits(g: seq<byte>, a: int, b: int, c: int, d: int, padding: nat) {
    && |g| == 4 && Symbols(g) && Pads(g) == padding
    && Value(g[0]) == a && Value(g[1]) == b && Value(g[2]) == c && Value(g[3]) == d
  }

  lemma GroupHasDigits(a: byte, b: byte, c: byte)
    ensures HasDigits(Group(a, b, c), a / 4, a % 4 * 16 + b / 16, b % 16 * 4 + c / 64, c % 64, 0)
  {
    DigitIsSymbol(a / 4);
    DigitIsSymbol(a % 4 * 16 + b / 16);
    DigitIsSymbol(b % 16 * 4 + c / 64);
    DigitIsSymbol(c % 64);
    hide Char, IsSymbol, Value, Pads;
    PadsOfAlphabet(Group(a, b, c));
  }

  lemma PaddedGroup(g: seq<byte>, pads: seq<byte>, n: nat)
    requires |g| + |pads| == 4 && PAD !in g && Symbols(g)
    requires Pads(pads) == n && forall i :: 0 <= i < |pads| ==> pads[i] == PAD
    ensures Symbols(g + pads) && Pads(g + pads) == n
    ensures forall i :: |g| <= i < 4 ==> Value((g + pads)[i]) == 0
  {
    PadValue();
    PadsOfAlphabet(g);
    hide Pads, IsSymbol, Value;
    PadsAppend(g, pads);
  }

  lemma TailOfTwo(a: byte, b: byte)
    ensures HasDigits(Tail([a, b]), a / 4, a % 4 * 16 + b / 16, b % 16 * 4, 0, 1)
  {
    var g := Group(a, b, 0)[..3];
    DigitIsSymbol(a / 4);
    DigitIsSymbol(a % 4 * 16 + b / 16);
    DigitIsSymbol(b % 16 * 4);
    PadsOfPadding();
    hide Char, IsSymbol, Value, Pads;
    PaddedGroup(g, [PAD], 1);
  }

  lemma TailOfOne(a: byte)
    ensures HasDigits(Tail([a]), a / 4, a % 4 * 16, 0, 0, 2)
  {
    var g := Group(a, 0, 0)[..2];
    DigitIsSymbol(a / 4);
    DigitIsSymbol(a % 4 * 16);
    PadsOfPadding();
    hide Char, IsSymbol, Value, Pads;
    PaddedGroup(g, [PAD, PAD], 2);
  }

  lemma DecodeDigits(g: seq<byte>, a: int, b: int, c: int, d: int, padding: nat, rest: seq<byte>)
    requires 0 <= a < 64 && 0 <= b < 64 && 0 <= c < 64 && 0 <= d < 64
    requires HasDigits(g, a, b, c, d, padding) && Symbols(rest)
    ensures Symbols(g + rest)
    ensures Decode(g + rest) ==
            if padding == 0 then Ungroup(a, b, c, d) + Decode(rest) else Cut(Ungroup(a, b, c, d), padding)
    ensures Remaining(g + rest) == if padding == 0 then Remaining(rest) else rest
  {
    hide Ungroup, Cut, Decode, Remaining, Value, Pads, IsSymbol;
    DecodeOneGroup(g, rest);
  }

  lemma UngroupOfTwo(a: byte, b: byte)
    ensures Cut(Ungroup(a / 4, a % 4 * 16 + b / 16, b % 16 * 4, 0), 1) == [a, b]
  {
    UngroupOfGroup(a, b, 0);
    hide Ungroup;
  }

  lemma UngroupOfOne(a: byte)
    ensures Cut(Ungroup(a / 4, a % 4 * 16, 0, 0), 2) == [a]
  {
    UngroupOfGroup(a, 0, 0);
    hide Ungroup;
  }

  lemma DecodeFullGroup(a: byte, b: byte, c: byte, rest: seq<byte>)
    requires Symbols(rest)
    ensures Symbols(Group(a, b, c) + rest) && Decode(Group(a, b, c) + rest) == [a, b, c] + Decode(rest)
    ensures Remaining(Group(a, b, c) + rest) == Remaining(rest)
  {
    hide *;
    GroupHasDigits(a, b, c);
    UngroupOfGroup(a, b, c);
    DecodeDigits(Group(a, b, c), a / 4, a % 4 * 16 + b / 16, b % 16 * 4 + c / 64, c % 64, 0, rest);
  }

  lemma DecodeTwo(a: byte, b: byte, rest: seq<byte>)
    requires Symbols(rest)
    ensures var t := Tail([a, b]) + rest; Symbols(t) && Decode(t) == [a, b] && Remaining(t) == rest
  {
    hide *;
    TailOfTwo(a, b);
    UngroupOfTwo(a, b);
    DecodeDigits(Tail([a, b]), a / 4, a % 4 * 16 + b / 16, b % 16 * 4, 0, 1, rest);
  }

  lemma DecodeOne(a: byte, rest: seq<byte>)
    requires Symbols(rest)
    ensures var t := Tail([a]) + rest; Symbols(t) && Decode(t) == [a] && Remaining(t) == rest
  {
    hide *;
    TailOfOne(a);
    UngroupOfOne(a);
    DecodeDigits(Tail([a]), a / 4, a % 4 * 16, 0, 0, 2, rest);
  }

  /** After a padded group the decoder stops. */
  lemma DecodeTail(s: seq<byte>, rest: seq<byte>)
    requires 0 < |s| < 3 && Symbols(rest)
    ensures Symbols(Tail(s) + rest) && Decode(Tail(s) + rest) == s && Remaining(Tail(s) + rest) == rest
  {
    hide *;
    if |s| == 2 {
      assert s == [s[0], s[1]];
      DecodeTwo(s[0], s[1], rest);
    } else {
      assert s == [s[0]];
      DecodeOne(s[0], rest);
    }
  }

  /** Decoding the encoding with symbols after it: they are read on if and only if no group was padded. */
  lemma {:induction false} DecodeEncodeThen(s: seq<byte>, rest: seq<byte>)
    requires Symbols(rest)
    ensures Symbols(Encode(s) + rest)
    ensures Decode(Encode(s) + rest) == s + if |s| % 3 == 0 then Decode(rest) else []
    ensures Remaining(Encode(s) + rest) == if |s| % 3 == 0 then Remaining(rest) else rest
  {
    hide *;
    var after := if |s| % 3 == 0 then Decode(rest) else [];
    if |s| < 3 {
      EncodeShort(s);
      if |s| == 0 {
        assert Encode(s) + rest == rest && s + after == after;
      } else {
        DecodeTail(s, rest);
        assert s + after == s;
      }
    } else {
      var t, code := Group(s[0], s[1], s[2]), Encode(s[3..]);
      EncodeStep(s);
      DecodeEncodeThen(s[3..], rest);
      DecodeFullGroup(s[0], s[1], s[2], code + rest);
      SeqAssoc(t, code, rest);
      assert [s[0], s[1], s[2]] + s[3..] == s;
      SeqAssoc([s[0], s[1], s[2]], s[3..], after);
    }
  }

  lemma EncodeShort(s: seq<byte>)
    requires |s| < 3
    ensures Encode(s) == Tail(s) && (s == [] ==> Encode(s) == [])
  {
  }

  lemma DecodeEncode(s: seq<byte>)
    ensures Symbols(Encode(s)) && Decode(Encode(s)) == s
  {
    DecodeEncodeThen(s, []);
    hide Encode;
    assert Encode(s) + [] == Encode(s);
  }

  /** Where the decoder stops: past the group it stopped after, with the remaining symbols still to come. */
  lemma {:induction false} UnpackLeavesRemaining(s: seq<byte>, ch: seq<byte>)
    requires Harmless(s) && |ch| == 4 && |Filter(s)| % 4 == 0
    ensures
      var rest := s[Unpacked(s, ch).used..];
      Harmless(rest) && Filter(rest) == Remaining(Filter(s))
    decreases |s|
  {
    hide *;
    var f := Filter(s);
    NextQuadIsSymbols(s, ch, 0);
    RemainingStep(f);
    if |s| < 4 {
      UnpackedShort(s, ch);
      assert s[0..] == s;
    } else {
      UnpackedUsed(s, ch);
      if |f| >= 4 {
        var q := NextQuad(s, ch, 0);
        HoldsAll(q, ch, f, s);
        if q.padding == 0 {
          UnpackLeavesRemaining(s[q.used..], q.ch);
          var n := Unpacked(s[q.used..], q.ch).used;
          assert s[q.used..][n..] == s[q.used + n..];
        }
      } else {
        EmptyIsHarmless();
        assert s[|s|..] == [];
      }
    }
  }

  lemma RemainingStep(f: seq<byte>)
    ensures Remaining(f) == if |f| < 4 then [] else if Pads(f[..4]) == 0 then Remaining(f[4..]) else f[4..]
    ensures |f| < 4 && |f| % 4 == 0 ==> f == []
  {
    hide Pads;
  }

  lemma UnpackedUsed(s: seq<byte>, ch: seq<byte>)
    requires |ch| == 4 && |s| >= 4
    ensures
      var q := NextQuad(s, ch, 0);
      Unpacked(s, ch).used ==
      if q.Short? then |s| else if q.padding > 0 then q.used else q.used + Unpacked(s[q.used..], q.ch).used
  {
    hide NextQuad, Word, Yield;
  }

  lemma HoldsAll(q: Quad, ch: seq<byte>, f: seq<byte>, s: seq<byte>)
    requires |ch| == 4 && Symbols(f) && |f| >= 4 && Holds(q, ch, 0, f, s)
    ensures q.Quad? && |q.ch| == 4 && q.used <= |s| && q.padding == Pads(f[..4])
    ensures Harmless(s[q.used..]) && Filter(s[q.used..]) == f[4..]
  {
    hide Value, Pads, Filter, Harmless, IsSymbol;
  }

  lemma EmptyIsHarmless()
    ensures Harmless([]) && Filter([]) == []
  {
  }

  /** The bytes of a 24-bit number, most significant first. */
  function ThreeBytes(l: int): (t: seq<byte>)
    ensures |t| == 3
  {
    [l / 65536 % 256, l / 256 % 256, l % 256]
  }

  /**
   * Any four symbols make a 24-bit number, of which the decoder yields three bytes, two after
   * one `=`, and one after more.
   */
  lemma GroupYields(g: seq<byte>, ch: seq<byte>)
    requires |g| == 4 && Symbols(g) && |ch| == 4
    ensures
      var x := ThreeBytes(262144 * Value(g[0]) + 4096 * Value(g[1]) + 64 * Value(g[2]) + Value(g[3]));
      Unpacked(g, ch).bytes == if Pads(g) == 0 then x else if Pads(g) == 1 then x[..2] else x[..1]
  {
    hide Table, IsSymbol, Value, Cut, Yield, Word, Ungroup, Unpacked, Pads, ThreeBytes;
    var a: int, b: int, c: int, d: int := Value(g[0]), Value(g[1]), Value(g[2]), Value(g[3]);
    GroupDecoded(g, ch);
    YieldIsUngroup(a, b, c, d, Pads(g));
    YieldIs(a, b, c, d, Pads(g));
  }

  lemma YieldIs(a: int, b: int, c: int, d: int, padding: nat)
    ensures
      var x := ThreeBytes(262144 * a + 4096 * b + 64 * c + d);
      Yield(Word(a, b, c, d), padding) == if padding == 0 then x else if padding == 1 then x[..2] else x[..1]
  {
    var l := Word(a, b, c, d);
    var x := ThreeBytes(l);
    assert Yield(l, padding) == Cut(x, padding);
    hide ThreeBytes;
    hide Yield;
    CutIs(x, padding);
    hide Cut;
  }

  lemma CutIs(x: seq<byte>, padding: nat)
    requires |x| == 3
    ensures Cut(x, padding) == if padding == 0 then x else if padding == 1 then x[..2] else x[..1]
  {
  }

  lemma GroupDecoded(g: seq<byte>, ch: seq<byte>)
    requires |g| == 4 && Symbols(g) && |ch| == 4
    ensures Unpacked(g, ch).bytes == Cut(Ungroup(Value(g[0]), Value(g[1]), Value(g[2]), Value(g[3])), Pads(g))
  {
    hide *;
    SymbolsAreAscii(g);
    AsciiIsHarmless(g);
    FilterKeepsSymbols(g);
    UnpackIgnoresForeign(g, ch);
    NothingToDecode();
    NoSymbols();
    DecodeOneGroup(g, []);
    assert g + [] == g;
    WholeCut(Ungroup(Value(g[0]), Value(g[1]), Value(g[2]), Value(g[3])), Pads(g));
  }

  lemma NoSymbols()
    ensures Symbols([])
  {
  }

  lemma NothingToDecode()
    ensures Decode([]) == []
  {
  }

  lemma WholeCut(x: seq<byte>, padding: nat)
    requires |x| == 3
    ensures padding == 0 ==> Cut(x, padding) == x == x + []
  {
  }

  lemma {:induction false} LinesAreAscii(t: seq<byte>, w: nat)
    requires w > 0 && Ascii(t)
    ensures Ascii(Lines(t, w))
    decreases |t|
  {
    if |t| > w {
      LinesAreAscii(t[w..], w);
    }
  }

  lemma {:induction false} FilterLines(t: seq<byte>, w: nat)
    requires w > 0 && Symbols(t)
    ensures Filter(Lines(t, w)) == t
    decreases |t|
  {
    assert Filter([NEWLINE]) == [];
    hide IsSymbol;
    hide Filter;
    FilterKeepsSymbols(t);
    if |t| == 0 {
    } else if |t| <= w {
      FilterAppend(t, [NEWLINE]);
    } else {
      FilterLines(t[w..], w);
      FilterKeepsSymbols(t[..w]);
      FilterAppend(t[..w], [NEWLINE]);
      FilterAppend(t[..w] + [NEWLINE], Lines(t[w..], w));
    }
  }

  lemma SymbolsAreAscii(t: seq<byte>)
    requires Symbols(t)
    ensures Ascii(t)
  {
  }

  /** Without its newlines the packed text is the encoding. */
  lemma PackedTextIsEncoding(s: seq<byte>, count: int)
    requires count >= -1
    ensures Filter(PackedText(s, count)) == Encode(s)
    ensures Ascii(PackedText(s, count))
  {
    var g, t := LineGroups(count), Encode(s);
    DecodeEncode(s);
    SymbolsAreAscii(t);
    FilterKeepsSymbols(t);
    hide LineGroups;
    if |s| > 0 && g > 0 {
      FilterLines(t, 4 * g);
      LinesAreAscii(t, 4 * g);
      assert Filter([NEWLINE]) == [] && Filter([]) == [];
      hide Encode;
      hide Lines;
      hide Filter;
      FilterAppend(Lines(t, 4 * g), EmptyLine(|s|, 3 * g));
      assert t + [] == t;
    }
  }

  /** Packing and unpacking returns every byte string, for every line length. */
  lemma RoundTrip(s: seq<byte>, count: int, ch: seq<byte>)
    requires count >= -1 && |ch| == 4
    ensures Unpacked(PackedText(s, count), ch).bytes == s
  {
    PackedTextIsEncoding(s, count);
    AsciiIsHarmless(PackedText(s, count));
    UnpackIgnoresForeign(PackedText(s, count), ch);
    DecodeEncode(s);
  }

  /** What a byte leaves in a digit slot. */
  function Slot(c: byte, stale: byte): byte {
    if c < 128 then Table(c) else stale
  }

  /** The byte at `i` leaves `digit` in a slot that holds `stale`, and is not padding. */
  predicate Leaves(s: seq<byte>, i: nat, stale: byte, digit: byte)
    requires i < |s|
  {
    Slot(s[i], stale) == digit && digit != IGNORE && s[i] != PAD
  }

  lemma NextQuadSlot(s: seq<byte>, i: nat, ch: seq<byte>, k: nat, digit: byte)
    requires |ch| == 4 && k < 4 && i < |s| && Leaves(s, i, ch[k], digit)
    ensures NextQuad(s[i..], ch, k) == MoreQuad(NextQuad(s[i + 1..], ch[k := digit], k + 1), 0, 1)
  {
    hide Table;
    assert s[i..][1..] == s[i + 1..];
    assert NextDigit(s[i..], ch[k]) == Digit(digit, 0, 1);
  }

  /** Four bytes that leave `slots` in the digit slots `ch`. */
  predicate LeaveAll(s: seq<byte>, i: nat, ch: seq<byte>, slots: seq<byte>)
    requires |ch| == 4 == |slots| && i + 4 <= |s|
  {
    forall k :: 0 <= k < 4 ==> Leaves(s, i + k, ch[k], slots[k])
  }

  /** The digit slots with the first `k` filled. */
  function Filled(slots: seq<byte>, ch: seq<byte>, k: nat): (r: seq<byte>)
    requires |ch| == 4 == |slots| && k <= 4
    ensures |r| == 4
    ensures k < 4 ==> r[k] == ch[k]
  {
    slots[..k] + ch[k..]
  }

  lemma FilledStep(slots: seq<byte>, ch: seq<byte>, k: nat)
    requires |ch| == 4 == |slots| && k < 4
    ensures Filled(slots, ch, k)[k := slots[k]] == Filled(slots, ch, k + 1)
  {
  }

  /** With the first `k` slots filled, the rest of the group fills the others. */
  lemma {:induction false} QuadFrom(s: seq<byte>, i: nat, ch: seq<byte>, slots: seq<byte>, k: nat)
    requires |ch| == 4 == |slots| && i + 4 <= |s| && k <= 4 && LeaveAll(s, i, ch, slots)
    ensures NextQuad(s[i + k..], Filled(slots, ch, k), k) == Quad(slots, 0, 4 - k)
    decreases 4 - k
  {
    hide Leaves, NextQuad;
    if k == 4 {
      assert Filled(slots, ch, 4) == slots;
      NextQuadFull(s[i + 4..], slots);
    } else {
      assert Leaves(s, i + k, ch[k], slots[k]);
      QuadFrom(s, i, ch, slots, k + 1);
      hide *;
      NextQuadSlot(s, i + k, Filled(slots, ch, k), k, slots[k]);
      FilledStep(slots, ch, k);
      MoreQuadIs(slots, 3 - k);
    }
  }

  lemma MoreQuadIs(ch: seq<byte>, n: nat)
    ensures MoreQuad(Quad(ch, 0, n), 0, 1) == Quad(ch, 0, n + 1)
  {
  }

  /**
   * A byte of 128 or more does not touch its slot.  In a group of four bytes that leave
   * digits in the slots, it stands for the digit already there.
   */
  lemma QuadOfSlots(s: seq<byte>, i: nat, ch: seq<byte>, slots: seq<byte>)
    requires |ch| == 4 == |slots| && i + 4 <= |s| && LeaveAll(s, i, ch, slots)
    ensures NextQuad(s[i..], ch, 0) == Quad(slots, 0, 4)
  {
    hide NextQuad, LeaveAll;
    QuadFrom(s, i, ch, slots, 0);
    assert Filled(slots, ch, 0) == ch;
  }

  /** `QUJD`, a byte 200, `UJD` */
  const STRAY: seq<byte> := [81, 85, 74, 68, 200, 85, 74, 68]

  lemma FilterOfStray()
    ensures Filter(STRAY) == [81, 85, 74, 68, 85, 74, 68]
  {
    var u: seq<byte>, v: seq<byte> := [81, 85, 74, 68], [85, 74, 68];
    assert Filter(u) == u by {
      FilterOfSymbols(u);
    }
    assert Filter(v) == v by {
      FilterOfSymbols(v);
    }
    assert Filter([200]) == [];
    hide Filter, IsSymbol;
    FilterAppend(u + [200], v);
    FilterAppend(u, [200]);
    assert STRAY == u + [200] + v;
  }

  /** Foreign bytes are always ignored in ASCII, but here 200 is read as the `Q` four symbols before it. */
  lemma NonAsciiByteIsNotIgnored(ch: seq<byte>)
    requires |ch| == 4
    ensures Unpacked(STRAY, ch).bytes == [65, 66, 67, 65, 66, 67]
    ensures Symbols(Filter(STRAY)) && |Decode(Filter(STRAY))| == 3
  {
    FilterIsSymbols(STRAY);
    FilterOfStray();
    hide Filter;
    assert |Decode(Filter(STRAY))| == 3 by {
      PadsOfAlphabet(Filter(STRAY)[..4]);
      hide Ungroup;
      hide Table;
    }
    UnpackedOfStray(ch);
  }

  lemma UnpackedOfSlots(s: seq<byte>, i: nat, ch: seq<byte>, slots: seq<byte>)
    requires |ch| == 4 == |slots| && i + 4 <= |s| && LeaveAll(s, i, ch, slots)
    requires slots[0] < 64 && slots[1] < 64 && slots[2] < 64 && slots[3] < 64
    ensures Unpacked(s[i..], ch) ==
            After(Ungroup(slots[0], slots[1], slots[2], slots[3]), 4, Unpacked(s[i + 4..], slots))
  {
    QuadOfSlots(s, i, ch, slots);
    hide LeaveAll;
    YieldIsUngroup(slots[0], slots[1], slots[2], slots[3], 0);
    hide Yield;
    UnpackedStep(s, i, ch);
  }

  /** Two groups that leave the same digits. */
  lemma UnpackedTwice(s: seq<byte>, ch: seq<byte>, slots: seq<byte>)
    requires |ch| == 4 == |slots| && |s| == 8 && LeaveAll(s, 0, ch, slots) && LeaveAll(s, 4, slots, slots)
    requires slots[0] < 64 && slots[1] < 64 && slots[2] < 64 && slots[3] < 64
    ensures
      var x := Ungroup(slots[0], slots[1], slots[2], slots[3]);
      Unpacked(s, ch).bytes == x + x
  {
    hide LeaveAll;
    hide Ungroup;
    hide Unpacked;
    var x := Ungroup(slots[0], slots[1], slots[2], slots[3]);
    UnpackedOfSlots(s, 0, ch, slots);
    UnpackedOfSlots(s, 4, slots, slots);
    UnpackedShort(s[8..], slots);
    assert s[0..] == s && x + (x + []) == x + x;
  }

  lemma UnpackedOfStray(ch: seq<byte>)
    requires |ch| == 4
    ensures Unpacked(STRAY, ch).bytes == [65, 66, 67, 65, 66, 67]
  {
    hide Unpacked;
    var digits: seq<byte> := [16, 20, 9, 3];
    assert LeaveAll(STRAY, 0, ch, digits) && LeaveAll(STRAY, 4, digits, digits);
    UnpackedTwice(STRAY, ch, digits);
  }
}
