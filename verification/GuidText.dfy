/** Reading and printing GUIDs undo each other. */
module GuidText {
  import opened Bytes
  import opened Guid
  import Hex
  import I = Integers

  predicate NoDash(f: seq<byte>) {
    DASH !in f
  }

  lemma {:induction false} FieldsOfOne(f: seq<byte>)
    requires NoDash(f)
    ensures Fields(f) == [f]
  {
    if f != [] {
      assert f[0] in f;
      FieldsOfOne(f[1..]);
      assert [f[0]] + f[1..] == f;
    }
  }

  lemma {:induction false} FieldsOfJoin(f: seq<byte>, rest: seq<byte>)
    requires NoDash(f)
    ensures Fields(f + [DASH] + rest) == [f] + Fields(rest)
  {
    var s := f + [DASH] + rest;
    if f == [] {
      assert s[0] == DASH && s[1..] == rest;
    } else {
      assert f[0] in f;
      assert s[0] == f[0] && s[1..] == f[1..] + [DASH] + rest;
      FieldsOfJoin(f[1..], rest);
      assert [f[0]] + f[1..] == f;
    }
  }

  /** Splitting joined fields gives them back, unless the last ones are empty. */
  lemma {:induction false} SplitJoined(fs: seq<seq<byte>>)
    requires fs != [] && forall i :: 0 <= i < |fs| ==> NoDash(fs[i])
    ensures Fields(Join(fs)) == fs
  {
    if |fs| == 1 {
      FieldsOfOne(fs[0]);
    } else {
      SplitJoined(fs[1..]);
      FieldsOfJoin(fs[0], Join(fs[1..]));
    }
  }

  // ---------------------------------------------------------------------------
  // Digits of a field

  lemma TwoDigits(n: byte)
    ensures RJust(ToS16(n), 2) == [Hex.HexChar(n / 16), Hex.HexChar(n % 16)]
  {
    if n < 16 {
      assert seq(1, _ => 48 as byte) == [48];
    }
  }

  /** The printed digits of bytes: two for each, high one first, in lower case. */
  lemma {:induction false} HexTextAt(bytes: seq<byte>, i: nat)
    requires i < |bytes|
    ensures HexText(bytes)[2 * i] == Hex.HexChar(bytes[i] / 16)
    ensures HexText(bytes)[2 * i + 1] == Hex.HexChar(bytes[i] % 16)
  {
    TwoDigits(bytes[0]);
    hide ToS16, RJust;
    if i > 0 {
      HexTextAt(bytes[1..], i - 1);
    }
  }

  ghost predicate LowerHex(t: seq<byte>) {
    forall i :: 0 <= i < |t| ==> Hex.IsHexDigit(t[i]) && Hex.LowerCase(t[i]) == t[i]
  }

  lemma {:induction false} HexTextIsLower(bytes: seq<byte>)
    ensures LowerHex(HexText(bytes)) && NoDash(HexText(bytes))
  {
    if bytes != [] {
      TwoDigits(bytes[0]);
      hide ToS16, RJust;
      HexTextIsLower(bytes[1..]);
    }
  }

  /** Reading printed digits gives the bytes back. */
  lemma PairsOfHexText(bytes: seq<byte>)
    ensures Pairs(HexText(bytes)) == bytes
  {
    forall i | 0 <= i < |bytes|
      ensures Pairs(HexText(bytes))[i] == bytes[i]
    {
      HexTextAt(bytes, i);
    }
  }

  /** Printing the numbers of a field gives the field in lower case. */
  lemma HexTextOfPairs(f: seq<byte>)
    requires |f| % 2 == 0 && Hex.HexDigits(f)
    ensures HexText(Pairs(f)) == Hex.Lower(f)
  {
    var n, t, low := |Pairs(f)|, HexText(Pairs(f)), Hex.Lower(f);
    assert |f| == 2 * n;
    forall i | 0 <= i < n
      ensures PairAgrees(t, low, i)
    {
      PrintedPair(f, n, i);
    }
    hide HexText, Hex.Lower, Pairs;
    PairsMakeEqual(t, low, n);
  }

  lemma PairsMakeEqual(t: seq<byte>, u: seq<byte>, n: nat)
    requires |t| == |u| == 2 * n && forall i :: 0 <= i < n ==> PairAgrees(t, u, i)
    ensures t == u
  {
    forall k | 0 <= k < |t|
      ensures t[k] == u[k]
    {
      var i := k / 2;
      assert PairAgrees(t, u, i);
      assert k == 2 * i || k == 2 * i + 1;
    }
  }

  predicate PairAgrees(t: seq<byte>, u: seq<byte>, i: nat) {
    2 * i + 1 < |t| && 2 * i + 1 < |u| && t[2 * i] == u[2 * i] && t[2 * i + 1] == u[2 * i + 1]
  }

  lemma PrintedPair(f: seq<byte>, n: nat, i: nat)
    requires |f| == 2 * n && i < n && Hex.HexDigits(f)
    ensures PairAgrees(HexText(Pairs(f)), Hex.Lower(f), i)
  {
    hide HexText, Number, Hex.Lower;
    HexTextAt(Pairs(f), i);
    assert Hex.IsHexDigit(f[2 * i]) && Hex.IsHexDigit(f[2 * i + 1]);
    NumberDigits(f[2 * i], f[2 * i + 1]);
  }

  lemma NumberDigits(high: byte, low: byte)
    requires Hex.IsHexDigit(high) && Hex.IsHexDigit(low)
    ensures Hex.HexChar(Number(high, low) / 16) == Hex.LowerCase(high)
    ensures Hex.HexChar(Number(high, low) % 16) == Hex.LowerCase(low)
  {
    Hex.LowerCaseOfDigit(high);
    Hex.LowerCaseOfDigit(low);
    assert Number(high, low) / 16 == Hex.HexToInt(high) && Number(high, low) % 16 == Hex.HexToInt(low);
  }

  // ---------------------------------------------------------------------------
  // The five groups

  /** The groups of data as they are printed. */
  function Groups(data: seq<byte>): seq<seq<byte>>
    requires |data| >= 10
  {
    [I.Reverse(data[..4]), I.Reverse(data[4..6]), I.Reverse(data[6..8]), data[8..10], data[10..Min(16, |data|)]]
  }

  function Texts(gs: seq<seq<byte>>): (fs: seq<seq<byte>>)
    requires |gs| == 5
    ensures |fs| == 5
  {
    [HexText(gs[0]), HexText(gs[1]), HexText(gs[2]), HexText(gs[3]), HexText(gs[4])]
  }

  lemma PrintedIsJoin(data: seq<byte>)
    requires |data| >= 10
    ensures Printed(data) == Some(Join(Texts(Groups(data))))
  {
    hide HexText, I.Reverse, Join;
  }

  lemma TextsSplit(gs: seq<seq<byte>>)
    requires |gs| == 5
    ensures Fields(Join(Texts(gs))) == Texts(gs)
    ensures |Join(Texts(gs))| == 4 + 2 * (|gs[0]| + |gs[1]| + |gs[2]| + |gs[3]| + |gs[4]|)
  {
    var fs := Texts(gs);
    forall i | 0 <= i < 5
      ensures NoDash(fs[i])
    {
      HexTextIsLower(gs[i]);
    }
    SplitJoined(fs);
    JoinFive(fs);
    hide *;
  }

  lemma JoinFive(fs: seq<seq<byte>>)
    requires |fs| == 5
    ensures Join(fs) == fs[0] + [DASH] + (fs[1] + [DASH] + (fs[2] + [DASH] + (fs[3] + [DASH] + fs[4])))
  {
    var a, b, c := fs[1..], fs[2..], fs[3..];
    assert a[1..] == b && b[1..] == c && c[1..] == [fs[4]];
    assert Join(c) == fs[3] + [DASH] + fs[4];
    assert Join(b) == fs[2] + [DASH] + Join(c);
    assert Join(a) == fs[1] + [DASH] + Join(b);
  }

  lemma FiveFieldsOfTexts(gs: seq<seq<byte>>)
    requires |gs| == 5
    ensures Even(Texts(gs))
    ensures FiveFields(Texts(gs)) == I.Reverse(gs[0]) + I.Reverse(gs[1]) + I.Reverse(gs[2]) + gs[3] + gs[4]
  {
    hide HexText, I.Reverse;
    var fs := Texts(gs);
    forall i | 0 <= i < 5
      ensures |fs[i]| % 2 == 0 && Pairs(fs[i]) == gs[i]
    {
      PairsOfHexText(gs[i]);
    }
    hide Texts;
    assert Pairs(fs[0]) == gs[0] && Pairs(fs[1]) == gs[1] && Pairs(fs[2]) == gs[2];
    assert Pairs(fs[3]) == gs[3] && Pairs(fs[4]) == gs[4];
    hide Pairs;
  }

  lemma GroupsRejoin(data: seq<byte>)
    requires |data| >= 10
    ensures
      var gs := Groups(data);
      I.Reverse(gs[0]) + I.Reverse(gs[1]) + I.Reverse(gs[2]) + gs[3] + gs[4] == data[..Min(16, |data|)]
  {
    I.ReverseTwice(data[..4]);
    I.ReverseTwice(data[4..6]);
    I.ReverseTwice(data[6..8]);
    hide I.Reverse;
    assert data[..4] + data[4..6] + data[6..8] + data[8..10] + data[10..Min(16, |data|)] == data[..Min(16, |data|)];
  }

  /** A text of five fields is read unless the last one is empty. */
  lemma ReadFields(t: seq<byte>, fs: seq<seq<byte>>)
    requires |t| != 16 && t != [BRACE] && Fields(t) == fs && |fs| == 5 && Even(fs)
    ensures Parsed(t) == if fs[4] == [] then InvalidGuid else Ok(FiveFields(fs))
  {
    StartsWithIsEquality(t, [BRACE]);
    hide StartsWith, Fields, FiveFields;
    if fs[4] == [] {
      DropsLast(fs);
    }
  }

  lemma ReadJoined(gs: seq<seq<byte>>)
    requires |gs| == 5 && |gs[0]| == 4 && |gs[1]| == |gs[2]| == |gs[3]| == 2 && |gs[4]| <= 6
    ensures Parsed(Join(Texts(gs))) ==
            if gs[4] == [] then InvalidGuid
            else Ok(I.Reverse(gs[0]) + I.Reverse(gs[1]) + I.Reverse(gs[2]) + gs[3] + gs[4])
  {
    hide *;
    var fs := Texts(gs);
    var t := Join(fs);
    FiveFieldsOfTexts(gs);
    LastText(gs);
    assert Fields(t) == fs && |t| != 16 && t != [BRACE] by {
      TextsSplit(gs);
    }
    ReadFields(t, fs);
  }

  lemma LastText(gs: seq<seq<byte>>)
    requires |gs| == 5
    ensures Texts(gs)[4] == [] <==> gs[4] == []
  {
    assert |Texts(gs)[4]| == 2 * |gs[4]|;
  }

  /** Reading a printed GUID gives its data back exactly when it has 11 to 16 bytes; a proper one has 16. */
  lemma ReadPrinted(data: seq<byte>)
    requires |data| >= 10
    ensures Printed(data).Some?
    ensures Parsed(Printed(data).value) == Ok(data) <==> 11 <= |data| <= 16
  {
    var gs := Groups(data);
    PrintedIsJoin(data);
    GroupsRejoin(data);
    GroupLengths(data);
    hide *;
    ReadJoined(gs);
    assert data[..Min(16, |data|)] == data <==> Min(16, |data|) == |data|;
    MinIs(16, |data|);
  }

  /** Raw data, as it comes from firmware, makes a GUID of that data, whose text is read back to it. */
  lemma RawIsItself(raw: seq<byte>)
    requires |raw| == 16
    ensures Parsed(raw) == Ok(raw) && Printed(raw).Some? && |Printed(raw).value| == 36
    ensures Parsed(Printed(raw).value) == Ok(raw)
  {
    ReadPrinted(raw);
    PrintedIsJoin(raw);
    GroupLengths(raw);
    TextsSplit(Groups(raw));
    hide Printed, Join, Texts, Groups, Fields;
  }

  /** The text of 16 bytes has dashes, code 45, after 8, 12, 16 and 20 digits, and lower-case digits elsewhere. */
  lemma DashesByPlace(raw: seq<byte>, i: nat)
    requires |raw| == 16 && i < 36
    ensures Printed(raw).Some? && |Printed(raw).value| == 36
    ensures Printed(raw).value[i] == 45 <==> i in {8, 13, 18, 23}
    ensures i !in {8, 13, 18, 23} ==>
              48 <= Printed(raw).value[i] <= 57 || 97 <= Printed(raw).value[i] <= 102
  {
    var fs := Texts(Groups(raw));
    PrintedIsJoin(raw);
    GroupLengths(raw);
    JoinFive(fs);
    forall k | 0 <= k < 5
      ensures LowerHex(fs[k])
    {
      HexTextIsLower(Groups(raw)[k]);
    }
    hide Printed, Join, Groups, HexText, Texts;
    DigitOrDash(fs, fs[0] + [DASH] + (fs[1] + [DASH] + (fs[2] + [DASH] + (fs[3] + [DASH] + fs[4]))), i);
  }

  lemma DigitOrDash(fs: seq<seq<byte>>, t: seq<byte>, i: nat)
    requires |fs| == 5 && |fs[0]| == 8 && |fs[1]| == |fs[2]| == |fs[3]| == 4 && |fs[4]| == 12 && i < 36
    requires forall k :: 0 <= k < 5 ==> LowerHex(fs[k])
    requires t == fs[0] + [DASH] + (fs[1] + [DASH] + (fs[2] + [DASH] + (fs[3] + [DASH] + fs[4])))
    ensures |t| == 36 && (t[i] == 45 <==> i in {8, 13, 18, 23})
    ensures i !in {8, 13, 18, 23} ==> 48 <= t[i] <= 57 || 97 <= t[i] <= 102
  {
    if i < 8 {
      assert t[i] == fs[0][i];
    } else if 8 < i < 13 {
      assert t[i] == fs[1][i - 9];
    } else if 13 < i < 18 {
      assert t[i] == fs[2][i - 14];
    } else if 18 < i < 23 {
      assert t[i] == fs[3][i - 19];
    } else if 23 < i {
      assert t[i] == fs[4][i - 24];
    }
  }

  /** Only data of fewer than ten bytes cannot be printed, and of longer data the first 16 bytes are. */
  lemma PrintedExactly(data: seq<byte>)
    ensures Printed(data).None? <==> |data| < 10
    ensures |data| >= 16 ==> Printed(data) == Printed(data[..16])
  {
    hide HexText, Join, I.Reverse;
    if |data| >= 16 {
      var d := data[..16];
      assert d[..4] == data[..4] && d[4..6] == data[4..6] && d[6..8] == data[6..8];
      assert d[8..10] == data[8..10] && d[10..16] == data[10..16];
    }
  }

  /**
   * The text of fields without dashes, some empty ones at the end being dropped: it must be five
   * fields of even length.  A single brace is refused, and 16 bytes are never taken as a text.
   */
  lemma ParsedByFields(fs: seq<seq<byte>>)
    requires fs != [] && (forall i :: 0 <= i < |fs| ==> NoDash(fs[i])) && fs[|fs| - 1] != []
    requires |Join(fs)| != 16 && Join(fs) != [123]
    ensures Parsed(Join(fs)) ==
            if |fs| != 5 then InvalidGuid
            else if exists i :: 0 <= i < 5 && |fs[i]| % 2 == 1 then NoDigit
            else Ok(FiveFields(fs))
  {
    SplitJoined(fs);
    assert DropEmpty(fs) == fs;
    StartsWithIsEquality(Join(fs), [BRACE]);
    hide Fields, Join, StartsWith, FiveFields, DropEmpty;
    if |fs| == 5 && !Even(fs) {
      var i :| 0 <= i < 5 && |fs[i]| % 2 != 0;
    }
  }

  lemma MinIs(a: nat, b: nat)
    ensures Min(a, b) == if a <= b then a else b
  {
  }

  lemma GroupLengths(data: seq<byte>)
    requires |data| >= 10
    ensures
      var gs := Groups(data);
      |gs[0]| == 4 && |gs[1]| == 2 && |gs[2]| == 2 && |gs[3]| == 2 && |gs[4]| == Min(16, |data|) - 10
  {
  }

  lemma DropsLast(fs: seq<seq<byte>>)
    requires |fs| == 5 && fs[4] == []
    ensures |DropEmpty(fs)| < 5
  {
    DropEmptyShortens(fs[..4]);
  }

  lemma {:induction false} DropEmptyShortens(fs: seq<seq<byte>>)
    ensures |DropEmpty(fs)| <= |fs|
  {
    if fs != [] && fs[|fs| - 1] == [] {
      DropEmptyShortens(fs[..|fs| - 1]);
    }
  }

  // ---------------------------------------------------------------------------
  // Texts

  /** The parts between the places where a GUID text has its dashes. */
  function Parts(t: seq<byte>): (fs: seq<seq<byte>>)
    requires |t| >= 24
    ensures |fs| == 5
  {
    [t[..8], t[9..13], t[14..18], t[19..23], t[24..]]
  }

  predicate Dashed(t: seq<byte>) {
    24 <= |t| <= 36 && |t| % 2 == 0 && t[8] == t[13] == t[18] == t[23] == DASH
  }

  ghost predicate AllHex(fs: seq<seq<byte>>) {
    forall i :: 0 <= i < |fs| ==> Hex.HexDigits(fs[i])
  }

  /** Four dashes in their places, hexadecimal digits elsewhere, and a last group of 1 to 6 bytes. */
  ghost predicate WellFormed(t: seq<byte>) {
    Dashed(t) && |t| > 24 && AllHex(Parts(t))
  }

  lemma DashedIsJoin(t: seq<byte>)
    requires Dashed(t)
    ensures t == Join(Parts(t))
  {
    JoinFive(Parts(t));
    hide Join;
    assert t == t[..8] + [t[8]] + (t[9..13] + [t[13]] + (t[14..18] + [t[18]] + (t[19..23] + [t[23]] + t[24..])));
  }

  lemma HexHasNoDash(f: seq<byte>)
    requires Hex.HexDigits(f)
    ensures NoDash(f)
  {
  }

  /** A dashed text of hexadecimal parts is read unless its last part is empty. */
  lemma ReadDashed(t: seq<byte>)
    requires Dashed(t) && AllHex(Parts(t))
    ensures Even(Parts(t)) && Parsed(t) == if |t| == 24 then InvalidGuid else Ok(FiveFields(Parts(t)))
  {
    var fs := Parts(t);
    DashedIsJoin(t);
    forall i | 0 <= i < 5
      ensures NoDash(fs[i])
    {
      assert Hex.HexDigits(fs[i]);
      HexHasNoDash(fs[i]);
    }
    SplitJoined(fs);
    hide Join, Fields, FiveFields, Parsed;
    assert Even(fs);
    assert |fs[4]| == |t| - 24;
    ReadFields(t, fs);
  }

  /** The groups of the data of a dashed text are the numbers of its parts. */
  lemma GroupsOfParts(t: seq<byte>)
    requires Dashed(t) && |t| > 24 && Even(Parts(t))
    ensures
      var fs, data := Parts(t), FiveFields(Parts(t));
      && 11 <= |data| <= 16
      && Groups(data) == [Pairs(fs[0]), Pairs(fs[1]), Pairs(fs[2]), Pairs(fs[3]), Pairs(fs[4])]
  {
    var fs, data := Parts(t), FiveFields(Parts(t));
    I.ReverseTwice(Pairs(fs[0]));
    I.ReverseTwice(Pairs(fs[1]));
    I.ReverseTwice(Pairs(fs[2]));
    hide I.Reverse;
    assert data[..4] == I.Reverse(Pairs(fs[0]));
    assert data[4..6] == I.Reverse(Pairs(fs[1]));
    assert data[6..8] == I.Reverse(Pairs(fs[2]));
    assert data[8..10] == Pairs(fs[3]);
    assert data[10..] == Pairs(fs[4]);
    assert |fs[4]| == |t| - 24 && |data| == 10 + |Pairs(fs[4])|;
    assert data[10..|data|] == data[10..];
    MinIs(16, |data|);
  }

  lemma LowerOfJoin(t: seq<byte>)
    requires Dashed(t)
    ensures
      var fs := Parts(t);
      Hex.Lower(t) == Join([Hex.Lower(fs[0]), Hex.Lower(fs[1]), Hex.Lower(fs[2]), Hex.Lower(fs[3]), Hex.Lower(fs[4])])
  {
    var fs, low := Parts(t), Hex.Lower(t);
    assert Dashed(low);
    DashedIsJoin(low);
    assert Hex.Lower(fs[0]) == low[..8];
    assert Hex.Lower(fs[1]) == low[9..13];
    assert Hex.Lower(fs[2]) == low[14..18];
    assert Hex.Lower(fs[3]) == low[19..23];
    assert Hex.Lower(fs[4]) == low[24..];
  }

  /** A well-formed text is printed in lower case. */
  lemma PrintWellFormed(t: seq<byte>)
    requires WellFormed(t)
    ensures Parsed(t).Ok? && |Parsed(t).data| >= 10
    ensures Printed(Parsed(t).data) == Some(Hex.Lower(t))
  {
    var fs := Parts(t);
    ReadDashed(t);
    GroupsOfParts(t);
    var data := FiveFields(fs);
    PrintedIsJoin(data);
    LowerOfJoin(t);
    hide *;
    TextsOfPairs(fs);
  }

  lemma TextsOfPairs(fs: seq<seq<byte>>)
    requires |fs| == 5 && Even(fs) && AllHex(fs)
    ensures Texts([Pairs(fs[0]), Pairs(fs[1]), Pairs(fs[2]), Pairs(fs[3]), Pairs(fs[4])]) ==
            [Hex.Lower(fs[0]), Hex.Lower(fs[1]), Hex.Lower(fs[2]), Hex.Lower(fs[3]), Hex.Lower(fs[4])]
  {
    hide Pairs, HexText, Hex.Lower, Hex.HexDigits;
    HexTextOfPairs(fs[0]);
    HexTextOfPairs(fs[1]);
    HexTextOfPairs(fs[2]);
    HexTextOfPairs(fs[3]);
    HexTextOfPairs(fs[4]);
  }

  /** A text whose lower case is a printed GUID has its dashes in their places and digits elsewhere. */
  lemma PrintedIsDashed(t: seq<byte>, data: seq<byte>)
    requires |data| >= 10 && Printed(data) == Some(Hex.Lower(t))
    ensures Dashed(t) && AllHex(Parts(t))
  {
    var gs, low := Groups(data), Hex.Lower(t);
    var fs := Texts(gs);
    PrintedIsJoin(data);
    GroupLengths(data);
    JoinFive(fs);
    forall i | 0 <= i < 5
      ensures LowerHex(fs[i]) && |fs[i]| == 2 * |gs[i]|
    {
      HexTextIsLower(gs[i]);
    }
    hide Groups, Texts, Join, Printed;
    ChainIsDashed(low, fs);
    hide Parts, Dashed;
    PartsOfLower(t, fs);
  }

  lemma ChainIsDashed(t: seq<byte>, fs: seq<seq<byte>>)
    requires |fs| == 5 && |fs[0]| == 8 && |fs[1]| == |fs[2]| == |fs[3]| == 4 && |fs[4]| <= 12 && |fs[4]| % 2 == 0
    requires t == fs[0] + [DASH] + (fs[1] + [DASH] + (fs[2] + [DASH] + (fs[3] + [DASH] + fs[4])))
    ensures Dashed(t) && Parts(t) == fs
  {
    assert t[..8] == fs[0] && t[9..13] == fs[1] && t[14..18] == fs[2] && t[19..23] == fs[3] && t[24..] == fs[4];
  }

  lemma PartsOfLower(t: seq<byte>, fs: seq<seq<byte>>)
    requires Dashed(Hex.Lower(t)) && Parts(Hex.Lower(t)) == fs
    requires forall i :: 0 <= i < 5 ==> LowerHex(fs[i])
    ensures Dashed(t) && AllHex(Parts(t))
  {
    var low := Hex.Lower(t);
    assert Dashed(t);
    forall i | 0 <= i < 5
      ensures Hex.HexDigits(Parts(t)[i])
    {
      assert |Parts(t)[i]| == |Parts(low)[i]|;
      forall k | 0 <= k < |Parts(t)[i]|
        ensures Hex.IsHexDigit(Parts(t)[i][k])
      {
        assert Parts(low)[i][k] == Hex.LowerCase(Parts(t)[i][k]);
        assert Hex.IsHexDigit(fs[i][k]);
      }
    }
  }

  /** Reading a text and printing it gives the text in lower case exactly for the well-formed ones. */
  lemma PrintRead(t: seq<byte>)
    ensures WellFormed(t) <==> Parsed(t).Ok? && Printed(Parsed(t).data) == Some(Hex.Lower(t))
  {
    if WellFormed(t) {
      PrintWellFormed(t);
    } else if Parsed(t).Ok? && Printed(Parsed(t).data) == Some(Hex.Lower(t)) {
      PrintedIsDashed(t, Parsed(t).data);
      ReadDashed(t);
    }
  }

  /** The value of the two digits at `i` of a text. */
  function ByteAt(t: seq<byte>, i: nat): int
    requires i + 1 < |t|
  {
    Hex.HexToInt(t[i]) * 16 + Hex.HexToInt(t[i + 1])
  }

  /** The numbers of the part of a text that starts at `at`. */
  lemma PairsOfPart(t: seq<byte>, f: seq<byte>, at: nat, i: nat)
    requires at + |f| <= |t| && f == t[at..at + |f|] && |f| % 2 == 0 && 2 * i + 1 < |f|
    ensures Pairs(f)[i] == ByteAt(t, at + 2 * i)
  {
    assert f[2 * i] == t[at + 2 * i] && f[2 * i + 1] == t[at + 2 * i + 1];
  }

  lemma PartsAt(t: seq<byte>)
    requires |t| == 36
    ensures
      var fs := Parts(t);
      && fs[0] == t[0..0 + |fs[0]|] && |fs[0]| == 8 && fs[1] == t[9..9 + |fs[1]|] && |fs[1]| == 4
      && fs[2] == t[14..14 + |fs[2]|] && |fs[2]| == 4 && fs[3] == t[19..19 + |fs[3]|] && |fs[3]| == 4
      && fs[4] == t[24..24 + |fs[4]|] && |fs[4]| == 12
  {
  }

  /** Where a GUID text has the digits of each byte of its data. */
  function Place(k: nat): (i: nat)
    requires k < 16
    ensures i < 35
  {
    if k < 4 then 2 * (3 - k)
    else if k < 6 then 9 + 2 * (5 - k)
    else if k < 8 then 14 + 2 * (7 - k)
    else if k < 10 then 19 + 2 * (k - 8)
    else 24 + 2 * (k - 10)
  }

  /** The field a byte of the data comes from, and its place among the pairs of that field. */
  function FieldOf(k: nat): (i: nat)
    requires k < 16
    ensures i < 5
  {
    if k < 4 then 0 else if k < 6 then 1 else if k < 8 then 2 else if k < 10 then 3 else 4
  }

  function PairOf(k: nat): (j: nat)
    requires k < 16
    ensures j < if k < 4 then 4 else if k < 10 then 2 else 6
  {
    if k < 4 then 3 - k else if k < 6 then 5 - k else if k < 8 then 7 - k else if k < 10 then k - 8 else k - 10
  }

  lemma FiveFieldsAt(fs: seq<seq<byte>>, k: nat)
    requires |fs| == 5 && Even(fs) && |fs[0]| == 8 && |fs[1]| == |fs[2]| == |fs[3]| == 4 && |fs[4]| == 12 && k < 16
    ensures |FiveFields(fs)| == 16 && FiveFields(fs)[k] == Pairs(fs[FieldOf(k)])[PairOf(k)]
  {
    hide I.Reverse, Pairs;
    if k < 4 {
      ReverseAt(Pairs(fs[0]), k);
    } else if k < 6 {
      ReverseAt(Pairs(fs[1]), k - 4);
    } else if k < 8 {
      ReverseAt(Pairs(fs[2]), k - 6);
    }
  }

  /** The mixed byte order: the first three fields are stored least significant byte first, the others as written. */
  lemma MixedByteOrder(t: seq<byte>, k: nat)
    requires WellFormed(t) && |t| == 36 && k < 16
    ensures Parsed(t).Ok? && |Parsed(t).data| == 16
    ensures Parsed(t).data[k] == ByteAt(t, Place(k))
  {
    ReadDashed(t);
    FieldsAtPlaces(t, k);
    hide *;
  }

  /** Where the parts of a GUID text start. */
  function Start(i: nat): nat
    requires i < 5
  {
    if i == 0 then 0 else if i == 4 then 24 else 4 + 5 * i
  }

  lemma PartAt(t: seq<byte>, i: nat, j: nat)
    requires |t| == 36 && i < 5 && Even(Parts(t)) && 2 * j + 1 < |Parts(t)[i]|
    ensures Pairs(Parts(t)[i])[j] == ByteAt(t, Start(i) + 2 * j)
  {
    PartsAt(t);
    hide ByteAt, Pairs, Parts;
    PairsOfPart(t, Parts(t)[i], Start(i), j);
  }

  lemma PartLengths(t: seq<byte>, k: nat)
    requires |t| == 36 && k < 16
    ensures var fs := Parts(t); |fs[0]| == 8 && |fs[1]| == |fs[2]| == |fs[3]| == 4 && |fs[4]| == 12
    ensures 2 * PairOf(k) + 1 < |Parts(t)[FieldOf(k)]| && Start(FieldOf(k)) + 2 * PairOf(k) == Place(k)
  {
  }

  lemma FieldsAtPlaces(t: seq<byte>, k: nat)
    requires |t| == 36 && Even(Parts(t)) && k < 16
    ensures |FiveFields(Parts(t))| == 16 && FiveFields(Parts(t))[k] == ByteAt(t, Place(k))
  {
    hide *;
    PartLengths(t, k);
    FiveFieldsAt(Parts(t), k);
    PartAt(t, FieldOf(k), PairOf(k));
  }

  lemma BracedFields(t: seq<byte>)
    requires WellFormed(t)
    ensures
      var fs := Parts(t);
      Fields([BRACE] + t + [125]) == [[BRACE] + fs[0], fs[1], fs[2], fs[3], fs[4] + [125]]
  {
    var s, fs := [BRACE] + t + [125], Parts(t);
    var gs := [[BRACE] + fs[0], fs[1], fs[2], fs[3], fs[4] + [125]];
    assert s == Join(gs) by {
      hide Join, Parts;
      DashedIsJoin(t);
      JoinFive(fs);
      JoinFive(gs);
    }
    hide Join, Fields, Parts, Dashed;
    forall i | 0 <= i < 5
      ensures NoDash(gs[i])
    {
      assert Hex.HexDigits(fs[i]);
      HexHasNoDash(fs[i]);
    }
    SplitJoined(gs);
  }

  /** A text in braces is not read: the braces are not stripped, and the first field is odd. */
  lemma BracedIsRejected(t: seq<byte>)
    requires WellFormed(t) && |t| == 36
    ensures !Parsed([BRACE] + t + [125]).Ok?
  {
    var s := [BRACE] + t + [125];
    BracedFields(t);
    StartsWithIsEquality(s, [BRACE]);
    PartLengths(t, 0);
    hide Fields, StartsWith, FiveFields, Parts, WellFormed;
    assert |Fields(s)[0]| == 9;
  }

  // ---------------------------------------------------------------------------
  // Order

  /** Comparison tells equal data apart from different data. */
  lemma {:induction false} CompareZero(a: seq<byte>, b: seq<byte>)
    ensures Compare(a, b) == 0 <==> a == b
    ensures Compare(a, b) == -Compare(b, a)
  {
    if a != [] && b != [] {
      CompareZero(a[1..], b[1..]);
      if a[1..] == b[1..] && a[0] == b[0] {
        assert a == [a[0]] + a[1..] && b == [b[0]] + b[1..];
      }
    }
  }

  /** The first byte that differs decides, and otherwise the shorter data comes first. */
  lemma {:induction false} CompareFirstDifference(a: seq<byte>, b: seq<byte>, k: nat)
    requires k <= |a| && k <= |b| && a[..k] == b[..k]
    ensures k < |a| && k < |b| && a[k] < b[k] ==> Compare(a, b) == -1 && Compare(b, a) == 1
    ensures k == |a| < |b| ==> Compare(a, b) == -1 && Compare(b, a) == 1
    decreases k
  {
    if k > 0 {
      assert a[0] == a[..k][0] == b[..k][0] == b[0];
      assert a[1..][..k - 1] == a[..k][1..] == b[..k][1..] == b[1..][..k - 1];
      CompareFirstDifference(a[1..], b[1..], k - 1);
    }
  }

  lemma {:induction false} CompareTransitive(a: seq<byte>, b: seq<byte>, c: seq<byte>)
    requires Compare(a, b) <= 0 && Compare(b, c) <= 0
    ensures Compare(a, c) <= 0
  {
    if a != [] && b != [] && c != [] && a[0] == b[0] == c[0] {
      CompareTransitive(a[1..], b[1..], c[1..]);
    }
  }

  /** Two GUIDs are equal under `<=>` exactly when their printed texts are. */
  lemma EqualWhenPrintedEqual(a: seq<byte>, b: seq<byte>)
    requires |a| == |b| == 16
    ensures Compare(a, b) == 0 <==> Printed(a) == Printed(b)
  {
    CompareZero(a, b);
    ReadPrinted(a);
    ReadPrinted(b);
  }
}
