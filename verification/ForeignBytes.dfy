/**
 * Exactly which foreign bytes the base64 decoder ignores.
 *
 * The decoder skips a byte of 128 or more without writing its digit slot, and then tests that
 * slot (src/ext/pack.c, lines 466-473).  So the byte is ignored if the slot was just made
 * foreign, and repeats an old digit otherwise.
 */
module ForeignBytes {
  import opened Bytes
  import opened Base64

  predicate AllFull(ch: seq<byte>) {
    forall k :: 0 <= k < |ch| ==> ch[k] != IGNORE
  }

  /** The decoder reads the next symbol exactly when no byte of 128 or more meets a digit in the slot. */
  lemma ReadsSymbolExactly(s: seq<byte>, stale: byte)
    ensures ReadsSymbol(NextDigit(s, stale), s) <==> s == [] || s[0] < 128 || stale == IGNORE
  {
    if s == [] || s[0] < 128 || stale == IGNORE {
      NextDigitIsSymbol(s, stale);
    } else {
      assert NextDigit(s, stale) == Digit(stale, 0, 1);
      assert Filter(s) == Filter(s[1..]);
    }
  }

  /** Which of the slots from `i` on hold something to repeat. */
  function Marks(ch: seq<byte>, i: nat): (marks: seq<bool>)
    requires i <= |ch|
    ensures |marks| == |ch| - i && forall k :: 0 <= k < |marks| ==> marks[k] == (ch[i + k] != IGNORE)
  {
    seq(|ch| - i, k requires 0 <= k < |ch| - i => ch[i + k] != IGNORE)
  }

  predicate Full(marks: seq<bool>) {
    marks == [] || marks[0]
  }

  function Rest(marks: seq<bool>): seq<bool> {
    if marks == [] then [] else marks[1..]
  }

  /** How many digits the decoder finds; `marks` are those of the next slots, and later ones are full. */
  function Digits(s: seq<byte>, marks: seq<bool>): (n: nat)
    ensures n <= |s|
  {
    if s == [] then 0
    else if IsSymbol(s[0]) || (s[0] >= 128 && Full(marks)) then 1 + Digits(s[1..], Rest(marks))
    else Digits(s[1..], [false] + Rest(marks))
  }

  lemma {:induction false} DigitRead(s: seq<byte>, stale: byte, rest: seq<bool>)
    requires PAD !in s
    ensures
      var r, n := NextDigit(s, stale), Digits(s, [stale != IGNORE] + rest);
      if n == 0 then r == End
      else r.Digit? && r.value != IGNORE && r.padding == 0 && Digits(s[r.used..], rest) == n - 1
  {
    assert Rest([stale != IGNORE] + rest) == rest;
    if s != [] && (IsSymbol(s[0]) || (s[0] >= 128 && stale != IGNORE)) {
      assert NextDigit(s, stale).used == 1;
    } else if s != [] {
      DigitRead(s[1..], IGNORE, rest);
      var r := NextDigit(s[1..], IGNORE);
      if r.Digit? {
        assert s[1..][r.used..] == s[r.used + 1..];
      }
    }
  }

  lemma {:induction false} QuadRead(s: seq<byte>, ch: seq<byte>, i: nat)
    requires |ch| == 4 && i <= 4 && AllFull(ch[..i]) && PAD !in s
    ensures
      var q, n := NextQuad(s, ch, i), Digits(s, Marks(ch, i));
      if n < 4 - i then q == Short
      else q.Quad? && AllFull(q.ch) && q.padding == 0 && Digits(s[q.used..], []) == n - (4 - i)
    decreases 4 - i
  {
    hide *;
    if i == 4 {
      QuadIsFull(s, ch);
    } else {
      MarksStep(ch, i);
      DigitRead(s, ch[i], Marks(ch, i + 1));
      NextQuadStep(s, 0, ch, i);
      assert s[0..] == s;
      var r := NextDigit(s, ch[i]);
      if r.Digit? {
        var next := ch[i := r.value];
        SlotFilled(ch, i, r.value);
        PadFreeRest(s, r.used);
        QuadRead(s[r.used..], next, i + 1);
        var q := NextQuad(s[r.used..], next, i + 1);
        MoreQuadOf(q, r.used);
        if q.Quad? {
          assert s[r.used..][q.used..] == s[r.used + q.used..];
        }
      }
    }
  }

  lemma QuadIsFull(s: seq<byte>, ch: seq<byte>)
    requires |ch| == 4 && AllFull(ch[..4])
    ensures NextQuad(s, ch, 4) == Quad(ch, 0, 0) && AllFull(ch) && Marks(ch, 4) == [] && s[0..] == s
  {
    assert ch[..4] == ch;
  }

  lemma MarksStep(ch: seq<byte>, i: nat)
    requires i < |ch|
    ensures Marks(ch, i) == [ch[i] != IGNORE] + Marks(ch, i + 1)
  {
  }

  lemma SlotFilled(ch: seq<byte>, i: nat, v: byte)
    requires i < |ch| && AllFull(ch[..i]) && v != IGNORE
    ensures var next := ch[i := v]; AllFull(next[..i + 1]) && Marks(next, i + 1) == Marks(ch, i + 1)
  {
    assert ch[i := v][..i + 1] == ch[..i] + [v];
  }

  lemma PadFreeRest(s: seq<byte>, n: nat)
    requires PAD !in s && n <= |s|
    ensures PAD !in s[n..]
  {
  }

  lemma MoreQuadOf(q: Quad, n: nat)
    ensures MoreQuad(q, 0, n) == if q.Short? then Short else Quad(q.ch, q.padding, q.used + n)
  {
  }

  lemma {:induction false} FullMarks(s: seq<byte>, marks: seq<bool>, first: seq<bool>)
    requires (forall k :: 0 <= k < |marks| ==> marks[k]) && |first| <= 1
    ensures Digits(s, first + marks) == Digits(s, first)
    decreases |s|
  {
    hide IsSymbol;
    if s != [] {
      var all := first + marks;
      if first == [] {
        assert Rest(all) == if marks == [] then [] else marks[1..];
        assert all == marks && Full(all);
        FullMarks(s[1..], Rest(all), []);
        FullMarks(s[1..], Rest(all), [false]);
        assert [] + Rest(all) == Rest(all);
      } else {
        assert Rest(all) == marks && Rest(first) == [] && Full(all) == Full(first);
        FullMarks(s[1..], marks, []);
        FullMarks(s[1..], marks, [false]);
        assert [] + marks == marks && [false] + [] == [false];
      }
    }
  }

  lemma UnpackedQuad(s: seq<byte>, ch: seq<byte>)
    requires |ch| == 4 && |s| >= 4
    ensures
      match NextQuad(s, ch, 0)
      case Short => Unpacked(s, ch).bytes == []
      case Quad(ch', padding, used) =>
        padding == 0 ==> |Unpacked(s, ch).bytes| == 3 + |Unpacked(s[used..], ch').bytes|
  {
    hide NextQuad, Word, Yield;
    var q := NextQuad(s, ch, 0);
    if q.Quad? && q.padding == 0 {
      YieldLength(Word(q.ch[0], q.ch[1], q.ch[2], q.ch[3]), 0);
    }
  }

  /** Until a `=` comes, every four digits the decoder finds make three bytes. */
  lemma {:induction false} UnpackedCount(s: seq<byte>, ch: seq<byte>)
    requires |ch| == 4 && PAD !in s
    ensures |Unpacked(s, ch).bytes| == Digits(s, Marks(ch, 0)) / 4 * 3
    decreases |s|
  {
    hide *;
    var n := Digits(s, Marks(ch, 0));
    if |s| < 4 {
      UnpackedShort(s, ch);
    } else {
      assert AllFull(ch[..0]) by {
        NoSlots(ch);
      }
      QuadRead(s, ch, 0);
      UnpackedQuad(s, ch);
      var q := NextQuad(s, ch, 0);
      if q.Quad? {
        UnpackedCount(s[q.used..], q.ch);
        FullSlots(s[q.used..], q.ch);
        assert n / 4 == (n - 4) / 4 + 1;
      }
    }
  }

  lemma NoSlots(ch: seq<byte>)
    ensures AllFull(ch[..0])
  {
  }

  lemma FullSlots(s: seq<byte>, ch: seq<byte>)
    requires AllFull(ch)
    ensures Digits(s, Marks(ch, 0)) == Digits(s, [])
  {
    FullMarks(s, Marks(ch, 0), []);
    assert [] + Marks(ch, 0) == Marks(ch, 0);
  }

  lemma {:induction false} DecodedCount(t: seq<byte>)
    requires Symbols(t) && PAD !in t
    ensures |Decode(t)| == |t| / 4 * 3
    decreases |t|
  {
    hide IsSymbol, Value, Ungroup;
    if |t| >= 4 {
      PadsOfAlphabet(t[..4]);
      hide Pads;
      DecodedCount(t[4..]);
    }
  }

  lemma {:induction false} DigitsCoverSymbols(s: seq<byte>, marks: seq<bool>)
    ensures |Filter(s)| <= Digits(s, marks)
  {
    hide IsSymbol;
    if s != [] {
      DigitsCoverSymbols(s[1..], Rest(marks));
      DigitsCoverSymbols(s[1..], [false] + Rest(marks));
    }
  }

  /** A byte of 128 or more right after a symbol is a digit too many. */
  lemma {:induction false} StrayDigit(s: seq<byte>, i: nat, full: bool)
    requires i < |s| && s[i] >= 128 && (if i == 0 then full else IsSymbol(s[i - 1]))
    ensures |Filter(s)| < Digits(s, if full then [] else [false])
  {
    if i == 0 {
      DigitsCoverSymbols(s[1..], []);
    } else {
      hide IsSymbol;
      assert [false] + [] == [false];
      StrayDigit(s[1..], i - 1, IsSymbol(s[0]) || (s[0] >= 128 && full));
    }
  }

  function Zeros(n: nat): (t: seq<byte>)
    ensures |t| == n && forall k :: 0 <= k < n ==> t[k] == Char(0)
  {
    if n == 0 then [] else [Char(0)] + Zeros(n - 1)
  }

  lemma {:induction false} DigitsWithZeros(s: seq<byte>, n: nat, marks: seq<bool>)
    ensures Digits(s + Zeros(n), marks) == Digits(s, marks) + n
    decreases |s| + n
  {
    DigitIsSymbol(0);
    hide IsSymbol, Char;
    if s != [] {
      assert (s + Zeros(n))[1..] == s[1..] + Zeros(n);
      DigitsWithZeros(s[1..], n, Rest(marks));
      DigitsWithZeros(s[1..], n, [false] + Rest(marks));
    } else if n > 0 {
      assert [] + Zeros(n - 1) == Zeros(n - 1) == Zeros(n)[1..] && [] + Zeros(n) == Zeros(n);
      DigitsWithZeros([], n - 1, Rest(marks));
    }
  }

  lemma FilterWithZeros(s: seq<byte>, n: nat)
    ensures Filter(s + Zeros(n)) == Filter(s) + Zeros(n)
  {
    DigitIsSymbol(0);
    hide IsSymbol, Filter, Char;
    FilterAppend(s, Zeros(n));
    FilterKeepsSymbols(Zeros(n));
  }

  lemma {:induction false} FilterKeepsPadFree(s: seq<byte>)
    requires PAD !in s
    ensures PAD !in Filter(s)
  {
    hide IsSymbol;
    if s != [] {
      FilterKeepsPadFree(s[1..]);
    }
  }

  /** Foreign bytes have no effect on what is decoded. */
  ghost predicate SameAsFiltered(s: seq<byte>, ch: seq<byte>)
    requires |ch| == 4
  {
    Symbols(Filter(s)) && Unpacked(s, ch).bytes == Decode(Filter(s))
  }

  /** A digit too many shows once enough digits follow to complete its group. */
  lemma StrayDigitShows(s: seq<byte>, i: nat) returns (t: seq<byte>)
    requires PAD !in s && i < |s| && s[i] >= 128 && (i > 0 ==> IsSymbol(s[i - 1]))
    ensures Ascii(t) && !SameAsFiltered(s + t, [0, 0, 0, 0])
  {
    hide *;
    var ch: seq<byte>, n := [0, 0, 0, 0], 3 - |Filter(s)| % 4;
    t := Zeros(n);
    StrayDigit(s, i, true);
    ZerosAreDigits(n);
    NoneIsIgnored(ch);
    DigitsWithZeros(s, n, []);
    FullSlots(s + t, ch);
    FilterWithZeros(s, n);
    FilterKeepsSymbols(s + t);
    FilterKeepsPadFree(s + t);
    UnpackedCount(s + t, ch);
    DecodedCount(Filter(s + t));
    GroupsDiffer(|Filter(s)|, Digits(s, []), n);
    NotTheSame(s + t, ch);
  }

  lemma ZerosAreDigits(n: nat)
    ensures Ascii(Zeros(n)) && PAD !in Zeros(n)
  {
  }

  lemma NoneIsIgnored(ch: seq<byte>)
    requires forall k :: 0 <= k < |ch| ==> ch[k] == 0
    ensures AllFull(ch)
  {
  }

  lemma NotTheSame(s: seq<byte>, ch: seq<byte>)
    requires |ch| == 4 && Symbols(Filter(s)) && |Unpacked(s, ch).bytes| != |Decode(Filter(s))|
    ensures !SameAsFiltered(s, ch)
  {
    hide Unpacked, Decode, Filter, Symbols;
  }

  lemma GroupsDiffer(m: nat, k: nat, n: nat)
    requires m < k && n == 3 - m % 4
    ensures (m + n) / 4 < (k + n) / 4
  {
    assert (m + n) / 4 == m / 4;
  }

  /**
   * Foreign bytes in a string without `=` have no effect, whatever ASCII follows it and
   * whatever the digit slots hold, exactly when those of 128 or more come right after
   * foreign bytes.
   */
  lemma IgnoredExactly(s: seq<byte>)
    requires PAD !in s
    ensures (forall t: seq<byte>, ch: seq<byte> | Ascii(t) && |ch| == 4 :: SameAsFiltered(s + t, ch)) <==> Harmless(s)
  {
    if Harmless(s) {
      forall t: seq<byte>, ch: seq<byte> | Ascii(t) && |ch| == 4
        ensures SameAsFiltered(s + t, ch)
      {
        UnpackIgnoresForeign(s + t, ch);
      }
    } else {
      var i :| 0 <= i < |s| && s[i] >= 128 && !(i > 0 && !IsSymbol(s[i - 1]));
      var t := StrayDigitShows(s, i);
    }
  }

  // ---------------------------------------------------------------------------
  // After padding

  lemma PadDigit(s: seq<byte>, stale: byte)
    requires s != [] && s[0] == PAD
    ensures NextDigit(s, stale) == Digit(0, 1, 1)
  {
  }

  /** A byte of 128 or more, then `====`, with digits in the slots. */
  lemma StrayQuad(s: seq<byte>, ch: seq<byte>)
    requires |ch| == 4 && ch[0] < 64 && |s| >= 5 && s[..5] == [200, PAD, PAD, PAD, PAD]
    ensures NextQuad(s, ch, 0) == Quad([ch[0], 0, 0, 0], 3, 4)
  {
    var ch1, ch2 := ch[1 := 0], ch[1 := 0][2 := 0];
    assert s[0] == s[..5][0] && s[1] == s[..5][1] && s[2] == s[..5][2] && s[3] == s[..5][3];
    assert s[0..] == s && ch[0 := ch[0]] == ch && ch2[3 := 0] == [ch[0], 0, 0, 0];
    assert NextDigit(s, ch[0]) == Digit(ch[0], 0, 1);
    PadDigit(s[1..], ch[1]);
    PadDigit(s[2..], ch[2]);
    PadDigit(s[3..], ch[3]);
    hide NextDigit, NextQuad;
    NextQuadStep(s, 0, ch, 0);
    NextQuadStep(s, 1, ch, 1);
    NextQuadStep(s, 2, ch1, 2);
    NextQuadStep(s, 3, ch2, 3);
    NextQuadFull(s[4..], ch2[3 := 0]);
  }

  /** The bytes of one full group and a cut one. */
  lemma UnpackedTwoGroups(s: seq<byte>, ch: seq<byte>, a: seq<byte>, b: seq<byte>)
    requires |ch| == |a| == |b| == 4 && |s| >= 8
    requires NextQuad(s, ch, 0) == Quad(a, 0, 4) && NextQuad(s[4..], a, 0) == Quad(b, 3, 4)
    ensures Unpacked(s, ch).bytes == Yield(Word(a[0], a[1], a[2], a[3]), 0) + Yield(Word(b[0], b[1], b[2], b[3]), 3)
  {
    hide Unpacked, NextQuad, Yield, Word;
    UnpackedStep(s, 0, ch);
    UnpackedStep(s, 4, a);
    assert s[0..] == s;
  }

  lemma FourPads(pads: seq<byte>)
    requires |pads| == 4 && forall i :: 0 <= i < 4 ==> pads[i] == PAD
    ensures Pads(pads) == 4 && Symbols(pads)
  {
    PadsOfPadding();
    hide Pads;
    PadsAppend([PAD, PAD], [PAD, PAD]);
    assert [PAD, PAD] + [PAD, PAD] == pads;
  }

  /** The byte of a group with two or more `=`, when its other digits are 0. */
  lemma FirstByte(a: int, padding: nat)
    requires 0 <= a < 64 && padding >= 2
    ensures Cut(Ungroup(a, 0, 0, 0), padding) == [4 * a]
  {
  }

  lemma PadGroup(pads: seq<byte>, rest: seq<byte>)
    requires |pads| == 4 && Symbols(rest) && forall i :: 0 <= i < 4 ==> pads[i] == PAD
    ensures Symbols(pads + rest) && Decode(pads + rest) == [0]
  {
    hide *;
    FourPads(pads);
    PadValue();
    FirstByte(0, 4);
    DecodeOneGroup(pads, rest);
  }

  lemma DecodedTwoGroups(g: seq<byte>, rest: seq<byte>)
    requires |g| == 4 && PAD !in g && Symbols(g) && Symbols(rest)
    ensures
      var t := g + ([PAD, PAD, PAD, PAD] + rest);
      && Symbols(t)
      && Decode(t) == Ungroup(Value(g[0]), Value(g[1]), Value(g[2]), Value(g[3])) + [0]
  {
    hide Pads, Decode, Value, IsSymbol, Ungroup, Cut;
    PadsOfAlphabet(g);
    PadGroup([PAD, PAD, PAD, PAD], rest);
    DecodeOneGroup(g, [PAD, PAD, PAD, PAD] + rest);
  }

  lemma FilterOfTwoGroups(g: seq<byte>, t: seq<byte>)
    requires Symbols(g)
    ensures Filter(g + ([200, PAD, PAD, PAD, PAD] + t)) == g + ([PAD, PAD, PAD, PAD] + Filter(t))
  {
    var pads: seq<byte> := [PAD, PAD, PAD, PAD];
    assert Symbols(pads);
    assert Filter([200]) == [];
    hide IsSymbol, Filter;
    FilterKeepsSymbols(g);
    FilterKeepsSymbols(pads);
    FilterAppend(g, [200] + pads + t);
    FilterAppend([200] + pads, t);
    FilterAppend([200], pads);
    assert [200] + pads + t == [200, PAD, PAD, PAD, PAD] + t && [] + pads == pads;
  }

  /** Four symbols, a byte of 128 or more, and `====`. */
  function Stray(g: seq<byte>, t: seq<byte>): (s: seq<byte>)
    requires |g| == 4
    ensures |s| == 9 + |t| && s[..4] == g && s[4..] == [200, PAD, PAD, PAD, PAD] + t
  {
    g + ([200, PAD, PAD, PAD, PAD] + t)
  }

  function Values(g: seq<byte>): (a: seq<byte>)
    requires Symbols(g)
    ensures |a| == |g| && forall k :: 0 <= k < |g| ==> a[k] == Value(g[k]) < 64
  {
    seq(|g|, k requires 0 <= k < |g| => Value(g[k]))
  }

  lemma GroupLeaves(g: seq<byte>, t: seq<byte>, ch: seq<byte>)
    requires |g| == 4 && Symbols(g) && PAD !in g && |ch| == 4
    ensures LeaveAll(Stray(g, t), 0, ch, Values(g))
  {
    forall k | 0 <= k < 4
      ensures Leaves(Stray(g, t), 0 + k, ch[k], Values(g)[k])
    {
      assert Stray(g, t)[k] == g[k] && IsSymbol(g[k]);
    }
  }

  lemma StrayUnpacked(g: seq<byte>, t: seq<byte>, ch: seq<byte>)
    requires |g| == 4 && Symbols(g) && PAD !in g && |ch| == 4
    ensures
      var a := Values(g);
      Unpacked(Stray(g, t), ch).bytes == Ungroup(a[0], a[1], a[2], a[3]) + [4 * a[0] as int]
  {
    hide *;
    var s, a := Stray(g, t), Values(g);
    GroupLeaves(g, t, ch);
    QuadOfSlots(s, 0, ch, a);
    assert s[0..] == s && s[4..][..5] == [200, PAD, PAD, PAD, PAD];
    assert a[0] < 64;
    StrayQuad(s[4..], a);
    UnpackedTwoGroups(s, ch, a, [a[0], 0, 0, 0]);
    YieldIsUngroup(a[0], a[1], a[2], a[3], 0);
    YieldIsUngroup(a[0], 0, 0, 0, 3);
    FirstByte(a[0], 3);
    WholeGroup(Ungroup(a[0], a[1], a[2], a[3]));
  }

  lemma StrayFiltered(g: seq<byte>, t: seq<byte>)
    requires |g| == 4 && Symbols(g) && PAD !in g
    ensures
      var f, a := Filter(Stray(g, t)), Values(g);
      Symbols(f) && Decode(f) == Ungroup(a[0], a[1], a[2], a[3]) + [0]
  {
    hide Decode, Filter, Ungroup, Value, IsSymbol;
    FilterKeepsSymbols(t);
    FilterOfTwoGroups(g, t);
    DecodedTwoGroups(g, Filter(t));
  }

  lemma StrayIsNotHarmless(g: seq<byte>, t: seq<byte>)
    requires |g| == 4 && Symbols(g)
    ensures !Harmless(Stray(g, t))
  {
    var s := Stray(g, t);
    assert s[4] == 200 && s[3] == g[3] && IsSymbol(g[3]);
  }

  /**
   * With a `=` after it, a digit too many can fall on a cut group and then shows or not by its
   * value: here it is the first digit of the group before, and has no effect exactly if that is 0.
   */
  lemma StrayBeforePadding(g: seq<byte>, t: seq<byte>, ch: seq<byte>)
    requires |g| == 4 && Symbols(g) && PAD !in g && |ch| == 4
    ensures !Harmless(Stray(g, t))
    ensures SameAsFiltered(Stray(g, t), ch) <==> Value(g[0]) == 0
  {
    StrayIsNotHarmless(g, t);
    StrayUnpacked(g, t, ch);
    StrayFiltered(g, t);
    hide Harmless, Stray, Unpacked, Decode, Filter, Ungroup;
    var a := Values(g);
    var x := Ungroup(a[0], a[1], a[2], a[3]);
    assert (x + [4 * a[0] as int])[3] == 4 * a[0] as int && (x + [0])[3] == 0;
  }

  lemma WholeGroup(x: seq<byte>)
    requires |x| == 3
    ensures Cut(x, 0) == x
  {
  }
}
