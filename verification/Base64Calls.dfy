/** The `m` directive over whole calls: when packing stays in its buffer, and what unpacking returns. */
module Base64Calls {
  import opened Bytes
  import opened Template
  import opened TemplateText
  import opened Pack
  import opened PackBuffer
  import opened PackUnpack
  import opened Base64
  import U = Unpack

  // ---------------------------------------------------------------------------
  // Staying in the buffer

  function Lengths(ss: seq<seq<byte>>): (ns: seq<nat>)
    ensures |ns| == |ss| && forall i :: 0 <= i < |ss| ==> ns[i] == |ss[i]|
  {
    seq(|ss|, i requires 0 <= i < |ss| => |ss[i]|)
  }

  /**
   * Strings of these lengths can be packed into a buffer of capacity `cap` that holds `len`
   * bytes.  The count falls by one for each string, and is the line length of the next.
   */
  predicate ListFits(ns: seq<nat>, count: Repetition, len: nat, cap: nat)
    requires cap > 0
    decreases |ns|
  {
    ns == [] ||
    var end, grown := len + TextLength(ns[0], count), Grow(cap, len + Reserved(ns[0], count));
    end <= grown && ListFits(ns[1..], Less(count), end, grown)
  }

  /** The texts of a list of strings. */
  function Texts(ss: seq<seq<byte>>, count: Repetition): seq<byte> {
    if ss == [] then [] else PackedText(ss[0], count) + Texts(ss[1..], Less(count))
  }

  lemma PackOneText(d: Directive, count: Repetition, s: seq<byte>, out: Output)
    requires d.dir == Base64Dir && out.cap > 0
    ensures
      var end, grown := |out.bytes| + TextLength(|s|, count), Grow(out.cap, |out.bytes| + Reserved(|s|, count));
      PackOne(d, count, Str(s), out) ==
      if end <= grown then Ok(Output(out.bytes + PackedText(s, count), grown)) else Overrun
  {
    TextHasLength(s, count);
    hide PackedText, TextLength, Reserved, Grow;
  }

  /**
   * A base64 directive over any list of strings, on any buffer, stores their texts one after the
   * other exactly if their lengths fit, and overruns its buffer otherwise.
   */
  lemma {:induction false} PackTexts(d: Directive, count: Repetition, ss: seq<seq<byte>>, out: Output)
    requires d.dir == Base64Dir && out.cap > 0
    ensures
      var r := PackElements(d, count, Strs(ss), out);
      if ListFits(Lengths(ss), count, |out.bytes|, out.cap)
      then r.Ok? && r.value.bytes == out.bytes + Texts(ss, count)
      else r == Overrun
    decreases |ss|
  {
    hide *;
    if ss == [] {
      NoTexts(d, count, out);
      assert Strs(ss) == [] && Lengths(ss) == [] && out.bytes + [] == out.bytes;
    } else {
      PackOneText(d, count, ss[0], out);
      TextHasLength(ss[0], count);
      assert Strs(ss)[1..] == Strs(ss[1..]) && Lengths(ss)[1..] == Lengths(ss[1..]);
      FitsStep(Lengths(ss), count, |out.bytes|, out.cap);
      ElementsStep(d, count, Strs(ss), out);
      TextsStep(ss, count);
      var r := PackOne(d, count, Str(ss[0]), out);
      if r.Ok? {
        PackTexts(d, Less(count), ss[1..], r.value);
        SeqAssoc(out.bytes, PackedText(ss[0], count), Texts(ss[1..], Less(count)));
      }
    }
  }

  lemma NoTexts(d: Directive, count: Repetition, out: Output)
    requires out.cap > 0
    ensures PackElements(d, count, [], out) == Ok(out)
    ensures ListFits([], count, |out.bytes|, out.cap) && Texts([], count) == []
  {
  }

  lemma FitsStep(ns: seq<nat>, count: Repetition, len: nat, cap: nat)
    requires cap > 0 && ns != []
    ensures
      var end, grown := len + TextLength(ns[0], count), Grow(cap, len + Reserved(ns[0], count));
      ListFits(ns, count, len, cap) <==> end <= grown && ListFits(ns[1..], Less(count), end, grown)
  {
    hide TextLength, Reserved, Grow;
  }

  lemma ElementsStep(d: Directive, count: Repetition, elements: seq<Pack.Value>, out: Output)
    requires out.cap > 0 && elements != [] && d.dir == Base64Dir
    ensures
      var r := PackOne(d, count, elements[0], out);
      PackElements(d, count, elements, out) ==
      if r.Ok? then PackElements(d, Less(count), elements[1..], r.value) else r
  {
    hide PackOne;
  }

  lemma TextsStep(ss: seq<seq<byte>>, count: Repetition)
    requires ss != []
    ensures Texts(ss, count) == PackedText(ss[0], count) + Texts(ss[1..], Less(count))
  {
  }

  lemma ReadM(item: Item, littleEndian: bool)
    requires Valid(item) && item.letter == 'm'
    ensures
      var d := Meaning(item, littleEndian);
      && ReadAll(RenderAll([item]), 0, littleEndian) == [Some(d)]
      && d.dir == Base64Dir && d.count == CountValue(item.count)
  {
    ReadOne(item, littleEndian);
    MeaningOf(item, littleEndian);
    hide ReadAll, RenderAll, Meaning;
  }

  /** A whole call with one `m` directive, in terms of the lengths of the strings. */
  lemma PackedTexts(ss: seq<seq<byte>>, item: Item, littleEndian: bool)
    requires Valid(item) && item.letter == 'm'
    ensures
      var count := CountValue(item.count);
      Packed(Strs(ss), RenderAll([item]), littleEndian) ==
      if ListFits(Lengths(ss), count, 0, INITIAL) then Ok(Texts(ss, count)) else Overrun
  {
    var d, out, count := Meaning(item, littleEndian), Output([], INITIAL), CountValue(item.count);
    ReadM(item, littleEndian);
    hide ReadAll, RenderAll, Meaning, PackElements, ListFits, Texts, PackProgram;
    PackTexts(d, count, ss, out);
    RunsAlone(d, Strs(ss), out);
    assert [] + Texts(ss, count) == Texts(ss, count);
  }

  /** One string: its text is at most as long as the buffer grown for its reservation. */
  predicate Fits(n: nat, count: Repetition) {
    TextLength(n, count) <= Grow(INITIAL, Reserved(n, count))
  }

  lemma OneFits(n: nat, count: Repetition)
    ensures ListFits([n], count, 0, INITIAL) <==> Fits(n, count)
  {
    hide TextLength, Reserved, Grow;
    assert [n][1..] == [];
  }

  /** It overruns exactly when a doubling of 128 covers the reservation but not the text. */
  lemma OverrunsAtDoubling(n: nat, count: Repetition)
    ensures !Fits(n, count) <==> exists j: nat :: Reserved(n, count) <= Doubled(INITIAL, j) < TextLength(n, count)
  {
    var reserved := Reserved(n, count);
    hide Reserved, TextLength, Grow, Doubled;
    GrowIsLeastDoubling(INITIAL, reserved, 0);
    forall j: nat
      ensures Doubled(INITIAL, j) >= reserved ==> Grow(INITIAL, reserved) <= Doubled(INITIAL, j)
    {
      GrowIsLeastDoubling(INITIAL, reserved, j);
    }
  }

  const M := Item('m', "", Once)

  lemma RenderM()
    ensures RenderAll([M]) == "m" && Valid(M)
  {
    assert [M][1..] == [];
  }

  /** Any 94 bytes under `m` overrun: their text takes 131 bytes of a buffer of 128, for 127 reserved. */
  lemma NinetyFourBytesOverrun(s: seq<byte>, littleEndian: bool)
    requires |s| == 94
    ensures TextLength(94, 1) == 131 && Reserved(94, 1) == 127
    ensures Packed([Str(s)], "m", littleEndian) == Overrun
  {
    hide RenderAll, Packed;
    RenderM();
    PackedTexts([s], M, littleEndian);
    OneFits(94, 1);
    assert Strs([s]) == [Str(s)] && Lengths([s]) == [94];
    hide ListFits;
  }

  /** Two strings that fit one by one, under either count, can overrun together. */
  lemma TwoStringsOverrun(s: seq<byte>, t: seq<byte>, littleEndian: bool)
    requires |s| == 45 && |t| == 49
    ensures Fits(45, 1) && Fits(49, 1) && Fits(49, 0)
    ensures Packed([Str(s), Str(t)], "m", littleEndian) == Overrun
  {
    hide RenderAll, Packed;
    RenderM();
    PackedTexts([s, t], M, littleEndian);
    assert Strs([s, t]) == [Str(s), Str(t)] && Lengths([s, t]) == [45, 49];
    hide ListFits;
    TwoLengths();
  }

  lemma TwoLengths()
    ensures !ListFits([45, 49], 1, 0, INITIAL)
  {
    assert [45, 49][1..] == [49];
    assert TextLength(45, 1) == 62 && Reserved(45, 1) == 61;
    assert TextLength(49, 0) == 68 && Reserved(49, 0) == 64;
  }

  // ---------------------------------------------------------------------------
  // Reading lists back

  /** The encodings of a list of strings. */
  function Codes(ss: seq<seq<byte>>): seq<byte> {
    if ss == [] then [] else Encode(ss[0]) + Codes(ss[1..])
  }

  lemma {:induction false} TextsAreCodes(ss: seq<seq<byte>>, count: Repetition)
    ensures Ascii(Texts(ss, count)) && Filter(Texts(ss, count)) == Codes(ss)
    decreases |ss|
  {
    hide PackedText, Encode, Filter;
    if ss == [] {
      EmptyIsHarmless();
    } else {
      PackedTextIsEncoding(ss[0], count);
      TextsAreCodes(ss[1..], Less(count));
      FilterAppend(PackedText(ss[0], count), Texts(ss[1..], Less(count)));
    }
  }

  /** All strings are empty. */
  predicate AllEmpty(ss: seq<seq<byte>>) {
    forall i :: 0 <= i < |ss| ==> ss[i] == []
  }

  /** Every string that has a non-empty one after it ends in a padded group. */
  predicate Separated(ss: seq<seq<byte>>) {
    forall i, j :: 0 <= i < j < |ss| && ss[j] != [] ==> |ss[i]| % 3 != 0
  }

  lemma {:induction false} CodesAreGroups(ss: seq<seq<byte>>)
    ensures Symbols(Codes(ss)) && |Codes(ss)| % 4 == 0 && (Codes(ss) == [] <==> AllEmpty(ss))
    decreases |ss|
  {
    hide *;
    if ss == [] {
      NoCodes();
      assert ss == [];
    } else {
      var a, b := Encode(ss[0]), Codes(ss[1..]);
      CodesAreGroups(ss[1..]);
      DecodeEncode(ss[0]);
      EncodedLengthIsGroups(|ss[0]|);
      CodesStep(ss);
      FirstAndRest(ss);
      GroupsAdd(a, b);
      assert ss[0] == [] <==> |ss[0]| == 0;
    }
  }

  lemma NoCodes()
    ensures Codes([]) == [] && Symbols([]) && AllEmpty([])
  {
  }

  lemma GroupsAdd(a: seq<byte>, b: seq<byte>)
    requires Symbols(a) && Symbols(b) && |a| % 4 == 0 && |b| % 4 == 0
    ensures Symbols(a + b) && |a + b| % 4 == 0 && (a + b == [] <==> a == [] && b == [])
  {
    hide IsSymbol;
    var x, y := |a| / 4, |b| / 4;
    assert |a + b| == 4 * (x + y);
    if a + b == [] {
      assert |a| == 0 && |b| == 0;
    }
  }

  lemma CodesStep(ss: seq<seq<byte>>)
    requires ss != []
    ensures Codes(ss) == Encode(ss[0]) + Codes(ss[1..])
  {
  }

  lemma FirstAndRest(ss: seq<seq<byte>>)
    requires ss != []
    ensures AllEmpty(ss) <==> ss[0] == [] && AllEmpty(ss[1..])
    ensures Separated(ss) <==> (AllEmpty(ss[1..]) || |ss[0]| % 3 != 0) && Separated(ss[1..])
  {
    var rest := ss[1..];
    if AllEmpty(rest) {
      assert forall j :: 0 < j < |ss| ==> ss[j] == rest[j - 1];
    }
    if Separated(ss) {
      forall i, j | 0 <= i < j < |rest| && rest[j] != []
        ensures |rest[i]| % 3 != 0
      {
        assert ss[i + 1] == rest[i] && ss[j + 1] == rest[j];
      }
      if !AllEmpty(rest) {
        var j :| 0 <= j < |rest| && rest[j] != [];
        assert ss[j + 1] != [];
      }
    }
    if Separated(rest) && (AllEmpty(rest) || |ss[0]| % 3 != 0) {
      forall i, j | 0 <= i < j < |ss| && ss[j] != []
        ensures |ss[i]| % 3 != 0
      {
        assert ss[j] == rest[j - 1];
        if i > 0 {
          assert ss[i] == rest[i - 1];
        }
      }
    }
  }

  /** What one decoding takes from the codes of a list: the first string, or more if it is not separated. */
  lemma FirstOfCodes(ss: seq<seq<byte>>)
    requires ss != []
    ensures
      var f, rest := Codes(ss), Codes(ss[1..]);
      && Symbols(f)
      && (Decode(f) == ss[0] <==> rest == [] || |ss[0]| % 3 != 0)
      && (Decode(f) == ss[0] ==> Remaining(f) == rest)
  {
    CodesAreGroups(ss[1..]);
    CodesStep(ss);
    DecodeEncodeThen(ss[0], Codes(ss[1..]));
    GroupDecodes(Codes(ss[1..]));
    hide Codes, Decode, Remaining, Encode, Symbols;
    var rest := Codes(ss[1..]);
    if |ss[0]| % 3 == 0 && rest != [] {
      assert |ss[0] + Decode(rest)| > |ss[0]|;
    }
  }

  lemma GroupDecodes(t: seq<byte>)
    requires Symbols(t) && |t| % 4 == 0
    ensures t == [] <==> Decode(t) == []
    ensures t == [] ==> Remaining(t) == []
  {
    hide Base64.Value, Pads, Ungroup, IsSymbol;
  }

  /** Reading as many strings as were packed gives them back exactly when they are separated. */
  lemma {:induction false} ReadCodes(d: Directive, ss: seq<seq<byte>>, src: seq<byte>, sidx: nat, m: U.Machine)
    requires d.dir == Base64Dir && sidx <= |src|
    requires Harmless(src[sidx..]) && Filter(src[sidx..]) == Codes(ss)
    ensures U.UnpackMany(d, |ss|, src, sidx, m).values == Strs(ss) <==> Separated(ss)
    decreases |ss|
  {
    hide Harmless, Filter, Codes, Base64.Unpacked, Decode, Remaining, Symbols, Separated, AllEmpty, U.UnpackMany;
    if ss == [] {
      NothingRead(d, src, sidx, m);
      assert Strs(ss) == [] && Separated(ss) by {
        NoneIsSeparated();
      }
    } else {
      var rest := ss[1..];
      var r := Base64.Unpacked(src[sidx..], m.slots(sidx));
      CodesAreGroups(ss);
      CodesAreGroups(rest);
      FirstOfCodes(ss);
      FirstAndRest(ss);
      UnpackIgnoresForeign(src[sidx..], m.slots(sidx));
      UnpackLeavesRemaining(src[sidx..], m.slots(sidx));
      OneText(d, |ss|, src, sidx, m);
      var more := U.UnpackMany(d, |rest|, src, sidx + r.used, m).values;
      assert Strs(ss) == [Str(ss[0])] + Strs(rest);
      FirstAndMore(Str(r.bytes), more, Str(ss[0]), Strs(rest));
      if r.bytes == ss[0] {
        assert src[sidx..][r.used..] == src[sidx + r.used..];
        ReadCodes(d, rest, src, sidx + r.used, m);
      }
    }
  }

  lemma NothingRead(d: Directive, src: seq<byte>, sidx: nat, m: U.Machine)
    requires d.dir == Base64Dir && sidx <= |src|
    ensures U.UnpackMany(d, 0, src, sidx, m).values == []
  {
  }

  lemma NoneIsSeparated()
    ensures Separated([])
  {
  }

  lemma FirstAndMore(a: Pack.Value, more: seq<Pack.Value>, b: Pack.Value, others: seq<Pack.Value>)
    ensures [a] + more == [b] + others <==> a == b && more == others
  {
    if [a] + more == [b] + others {
      assert ([a] + more)[0] == a && ([b] + others)[0] == b;
      assert ([a] + more)[1..] == more && ([b] + others)[1..] == others;
    }
  }

  lemma OneText(d: Directive, n: nat, src: seq<byte>, sidx: nat, m: U.Machine)
    requires d.dir == Base64Dir && n > 0 && sidx <= |src|
    ensures
      var r := Base64.Unpacked(src[sidx..], m.slots(sidx));
      && sidx + r.used <= |src|
      && U.UnpackMany(d, n, src, sidx, m).values ==
         [Str(r.bytes)] + U.UnpackMany(d, n - 1, src, sidx + r.used, m).values
  {
    hide Base64.Unpacked;
    U.UnpackManyStep(d, n, src, sidx, m);
    hide U.UnpackMany;
  }

  /** The directive that reads `n` strings. */
  function ReadTimes(n: nat): Item {
    Item('m', "", Times(n))
  }

  /**
   * Packing a list of strings with any `m` directive and unpacking as many with `m` returns the
   * list exactly when every string that has a non-empty one after it has a length that is not a
   * multiple of three.  The last group of any other is not padded, and reading goes on.
   */
  lemma ListRoundTrip(ss: seq<seq<byte>>, item: Item, m: U.Machine)
    requires Valid(item) && item.letter == 'm'
    ensures
      var packed := Packed(Strs(ss), RenderAll([item]), m.littleEndian);
      packed.Ok? ==>
        var r := U.Unpacked(packed.value, RenderAll([ReadTimes(|ss|)]), m);
        r.Ok? && (r.progress.values == Strs(ss) <==> Separated(ss))
  {
    hide *;
    var count, reader := CountValue(item.count), ReadTimes(|ss|);
    var d, src := Meaning(reader, m.littleEndian), Texts(ss, count);
    ReaderIs(|ss|, m.littleEndian);
    PackedTexts(ss, item, m.littleEndian);
    TextsAreCodes(ss, count);
    AsciiIsHarmless(src);
    assert src[0..] == src;
    ReadCodes(d, ss, src, 0, m);
    ReadCallOfOne(reader, src, m);
    UnpackAlone(d, src, m);
  }

  lemma ReaderIs(n: nat, littleEndian: bool)
    ensures Valid(ReadTimes(n))
    ensures var d := Meaning(ReadTimes(n), littleEndian); d.dir == Base64Dir && d.count == n
  {
    MeaningOf(ReadTimes(n), littleEndian);
    hide Meaning;
  }

  lemma UnpackAlone(d: Directive, src: seq<byte>, m: U.Machine)
    requires d.dir == Base64Dir && d.count >= 0
    ensures
      var p := U.UnpackMany(d, d.count, src, 0, m);
      U.UnpackProgram([Some(d)], src, 0, m) == U.Ok(p)
  {
    var p := U.UnpackMany(d, d.count, src, 0, m);
    hide U.UnpackMany;
    assert [Some(d)][1..] == [] && p.values + [] == p.values;
  }

  /** One string is packed within its buffer exactly when its length fits, and then unpacking returns it. */
  lemma Base64RoundTrip(s: seq<byte>, item: Item, m: U.Machine)
    requires Valid(item) && item.letter == 'm'
    ensures
      var count, packed := CountValue(item.count), Packed([Str(s)], RenderAll([item]), m.littleEndian);
      && (if Fits(|s|, count) then packed == Ok(PackedText(s, count)) else packed == Overrun)
      && (packed.Ok? ==> U.Unpacked(packed.value, "m", m).Ok? &&
                         U.Unpacked(packed.value, "m", m).progress.values == [Str(s)])
  {
    hide *;
    var count, text := CountValue(item.count), PackedText(s, CountValue(item.count));
    PackedTexts([s], item, m.littleEndian);
    OneFits(|s|, count);
    assert Strs([s]) == [Str(s)] && Lengths([s]) == [|s|];
    OneOfTexts(s, count);
    ReadOneText(text, m);
    RoundTrip(s, count, m.slots(0));
  }

  lemma OneOfTexts(s: seq<byte>, count: Repetition)
    ensures Texts([s], count) == PackedText(s, count)
  {
    hide PackedText;
    assert [s][1..] == [] && PackedText(s, count) + [] == PackedText(s, count);
  }

  /** Unpacking with `m` reads one string. */
  lemma ReadOneText(src: seq<byte>, m: U.Machine)
    ensures
      var r := U.Unpacked(src, "m", m);
      r.Ok? && r.progress.values == [Str(Base64.Unpacked(src, m.slots(0)).bytes)]
  {
    var d := Meaning(M, m.littleEndian);
    RenderM();
    MeaningOf(M, m.littleEndian);
    assert d.dir == Base64Dir && d.count == 1;
    hide *;
    var used := Base64.Unpacked(src[0..], m.slots(0)).used;
    ReadCallOfOne(M, src, m);
    UnpackAlone(d, src, m);
    OneText(d, 1, src, 0, m);
    NothingRead(d, src, used, m);
    assert src[0..] == src;
  }
}
