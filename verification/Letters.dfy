/** What each directive letter of a template writes and reads, over whole pack and unpack calls. */
module Letters {
  import opened Bytes
  import opened Template
  import opened TemplateText
  import opened Pack
  import opened PackBuffer
  import U = Unpack
  import I = Integers
  import PackUnpack
  import PaddedString
  import Hex
  import Slices

  const INTEGERS := "CcSsnLlN"
  const STRINGS := "aAZhH"

  /** The text of a letter with modifiers; only `s`, `S`, `l` and `L` take any of `_`, `!`, `<` and `>`. */
  predicate IsText(t: char, mods: string) {
    && (mods == "" || t in "sSlL")
    && forall k :: 0 <= k < |mods| ==> mods[k] in "_!<>"
  }

  /** A letter with modifiers and no count. */
  function Alone(t: char, mods: string): Item {
    Item(t, mods, Once)
  }

  lemma TextIsValid(t: char, mods: string)
    requires t in INTEGERS && IsText(t, mods)
    ensures Valid(Alone(t, mods)) && RenderAll([Alone(t, mods)]) == [t] + mods
  {
    LetterHasParts(t);
    hide Letter;
    assert [Alone(t, mods)][1..] == [] && mods + "" == mods;
  }

  lemma ReadLetter(t: char, mods: string, littleEndian: bool)
    requires t in INTEGERS && IsText(t, mods)
    ensures ReadAll([t] + mods, 0, littleEndian) == [Some(Meaning(Alone(t, mods), littleEndian))]
  {
    hide *;
    TextIsValid(t, mods);
    PackUnpack.ReadOne(Alone(t, mods), littleEndian);
  }

  /** The order of an integer: `<` is little-endian, else `>`, `n` and `N` are not, else it is the machine's. */
  function IsLittle(t: char, mods: string, littleEndian: bool): bool {
    if '<' in mods then true else if '>' in mods || t == 'n' || t == 'N' then false else littleEndian
  }

  function WidthOfLetter(t: char): I.Width {
    if t in "Cc" then I.Char else if t in "Ssn" then I.Short else I.Long
  }

  /** The directive of an integer letter, in terms of its width, sign and order. */
  function LetterParts(t: char): (Dir, bool, bool)
    requires t in INTEGERS
  {
    match t
    case 'C' => (CharDir, false, false)
    case 'c' => (CharDir, true, false)
    case 'S' => (ShortDir, false, false)
    case 's' => (ShortDir, true, false)
    case 'n' => (ShortDir, false, true)
    case 'L' => (LongDir, false, false)
    case 'l' => (LongDir, true, false)
    case _ => (LongDir, false, true)
  }

  lemma LetterHasParts(t: char)
    requires t in INTEGERS
    ensures
      var d, parts := Letter(t), LetterParts(t);
      && d.dir == parts.0 && d.flags.signed == parts.1 && d.flags.gt == parts.2
      && !d.flags.lt && !d.flags.little
  {
    assert t == 'C' || t == 'c' || t == 'S' || t == 's' || t == 'n' || t == 'L' || t == 'l' || t == 'N';
  }

  /** Width, sign and byte order of an integer letter with modifiers. */
  lemma IntegerLetter(t: char, mods: string, littleEndian: bool)
    requires t in INTEGERS && IsText(t, mods)
    ensures
      var d := Meaning(Alone(t, mods), littleEndian);
      && d.IsInteger() && d.count == 1 && WidthOf(d.dir) == WidthOfLetter(t)
      && d.flags.signed == (t in "csl") && d.flags.little == IsLittle(t, mods, littleEndian)
  {
    LetterHasParts(t);
    hide Letter;
  }

  lemma RunAlone(d: Directive, o: Value, bytes: seq<byte>, cap: nat)
    requires d.dir != InvalidDir && (d.count != 0 || d.IsWidth())
    requires cap > 0 && PackOne(d, d.count, o, Output([], INITIAL)) == Ok(Output(bytes, cap))
    ensures PackProgram([Some(d)], [o], Output([], INITIAL)) == Ok(Output(bytes, cap))
  {
    hide PackOne;
    assert [o][1..] == [] && [Some(d)][1..] == [];
    assert PackElements(d, Less(d.count), [], Output(bytes, cap)) == Ok(Output(bytes, cap));
    assert PackElements(d, d.count, [o], Output([], INITIAL)) == Ok(Output(bytes, cap));
  }

  /** What an integer of width `w` is written as, in either order. */
  lemma BytesOfWidth(w: I.Width, n: int, little: bool)
    ensures
      var bytes := if w == I.Short then I.PackedShort(n, true) else I.LittleEndian(n, w.Size());
      I.PackedInt(w, n, little) == if little then bytes else I.Reverse(bytes)
  {
    I.OtherByteOrder(w, n);
    I.PackedIntIsTwosComplement(w, n);
    hide I.PackedLong, I.LittleEndian, I.Reverse, I.PackedShort;
  }

  /** One integer letter writes the two's complement of its number, a 16-bit one as pack_s does. */
  lemma IntegerBytes(t: char, mods: string, n: int, littleEndian: bool)
    requires t in INTEGERS && IsText(t, mods)
    ensures
      var bytes := if t in "Ssn" then I.PackedShort(n, true) else I.LittleEndian(n, WidthOfLetter(t).Size());
      Packed([Fixnum(n)], [t] + mods, littleEndian) ==
      Ok(if IsLittle(t, mods, littleEndian) then bytes else I.Reverse(bytes))
  {
    var d, out := Meaning(Alone(t, mods), littleEndian), Output([], INITIAL);
    ReadLetter(t, mods, littleEndian);
    IntegerLetter(t, mods, littleEndian);
    var w := WidthOfLetter(t);
    BytesOfWidth(w, n, d.flags.little);
    assert w == I.Short <==> t in "Ssn";
    hide Meaning, ReadAll, Letter, WidthOfLetter, IsLittle, Grow, PackOne, PackProgram;
    hide I.PackedInt, I.LittleEndian, I.Reverse, I.PackedShort;
    PackUnpack.PackOneInteger(d, 1, n, out);
    var bytes := I.PackedInt(w, n, d.flags.little);
    assert [] + bytes == bytes;
    RunAlone(d, Fixnum(n), bytes, Grow(out.cap, |bytes|));
  }

  /** The bytes of a 32-bit number one by one, most significant first in network order. */
  lemma LongBytes(n: int, littleEndian: bool)
    ensures
      var b0, b1, b2, b3 := n % 0x100, n / 0x100 % 0x100, n / 0x1_0000 % 0x100, n / 0x100_0000 % 0x100;
      && Packed([Fixnum(n)], "N", littleEndian) == Packed([Fixnum(n)], "L>", littleEndian) == Ok([b3, b2, b1, b0])
      && Packed([Fixnum(n)], "L<", littleEndian) == Packed([Fixnum(n)], "l<", littleEndian) == Ok([b0, b1, b2, b3])
  {
    hide Packed, I.LittleEndian, I.Reverse;
    var b0, b1, b2, b3 := n % 0x100, n / 0x100 % 0x100, n / 0x1_0000 % 0x100, n / 0x100_0000 % 0x100;
    IntegerBytes('N', "", n, littleEndian);
    IntegerBytes('L', ">", n, littleEndian);
    IntegerBytes('L', "<", n, littleEndian);
    IntegerBytes('l', "<", n, littleEndian);
    assert ['N'] + "" == "N" && ['L'] + ">" == "L>" && ['L'] + "<" == "L<" && ['l'] + "<" == "l<";
    I.LittleEndianFour(n);
    ReverseFour(b0, b1, b2, b3);
  }

  lemma ReverseFour(a: byte, b: byte, c: byte, d: byte)
    ensures I.Reverse([a, b, c, d]) == [d, c, b, a]
  {
    assert [d][1..] == [] && I.Reverse([d]) == [d];
    assert [c, d][1..] == [d] && I.Reverse([c, d]) == [d, c];
    assert [b, c, d][1..] == [c, d] && I.Reverse([b, c, d]) == [d, c, b];
    assert [a, b, c, d][1..] == [b, c, d];
  }

  /** A Float is packed as the integer its `to_i` gives. */
  lemma FloatBytes(t: char, mods: string, n: int, littleEndian: bool)
    requires t in INTEGERS && IsText(t, mods)
    ensures Packed([Float(n)], [t] + mods, littleEndian) == Packed([Fixnum(n)], [t] + mods, littleEndian)
  {
    var d, out := Meaning(Alone(t, mods), littleEndian), Output([], INITIAL);
    ReadLetter(t, mods, littleEndian);
    IntegerLetter(t, mods, littleEndian);
    hide Meaning, ReadAll, Letter, PackElements, PackProgram;
    PackUnpack.RunsAlone(d, [Float(n)], out);
    PackUnpack.RunsAlone(d, [Fixnum(n)], out);
    SameElement(d, Float(n), Fixnum(n), out);
  }

  lemma SameElement(d: Directive, o: Value, q: Value, out: Output)
    requires out.cap > 0 && PackOne(d, d.count, o, out) == PackOne(d, d.count, q, out)
    ensures PackElements(d, d.count, [o], out) == PackElements(d, d.count, [q], out)
  {
    hide PackOne;
    assert [o][1..] == [] && [q][1..] == [];
  }

  lemma ReadAlone(d: Directive, s: seq<byte>, rest: seq<byte>, m: U.Machine)
    requires d.IsInteger() && d.count == 1 && |s| == d.Size()
    ensures U.UnpackProgram([Some(d)], s + rest, 0, m) ==
            var n := I.UnpackedInt(WidthOf(d.dir), s, d.flags.little, d.flags.signed, m.longWider);
            U.Ok(U.Progress([Fixnum(n)], |s|))
  {
    hide I.UnpackedInt;
    var src := s + rest;
    assert src[0..|s|] == s && [Some(d)][1..] == [];
    var p := U.UnpackOne(d, src, 0, m);
    U.UnpackManyEnds(d, 0, src, |s|, m);
    U.UnpackManyStep(d, 1, src, 0, m);
    hide U.UnpackMany, U.UnpackOne;
    assert p.values + [] == p.values;
  }

  /** Reading in the other order is reading the string backwards. */
  lemma ReadInOrder(w: I.Width, s: seq<byte>, little: bool, signed: bool, longWider: bool)
    requires |s| == w.Size()
    ensures I.UnpackedInt(w, s, little, signed, longWider) ==
            I.UnpackedInt(w, if little then s else I.Reverse(s), true, signed, longWider)
  {
    hide I.UnpackedInt;
    if !little {
      I.UnpackOtherByteOrder(w, I.Reverse(s), signed, longWider);
      I.ReverseTwice(s);
    }
  }

  /** One integer letter reads one number of its width, signed for the lower-case ones but `n`. */
  lemma IntegerRead(t: char, mods: string, s: seq<byte>, rest: seq<byte>, m: U.Machine)
    requires t in INTEGERS && IsText(t, mods) && |s| == WidthOfLetter(t).Size()
    ensures
      var bytes := if IsLittle(t, mods, m.littleEndian) then s else I.Reverse(s);
      U.Unpacked(s + rest, [t] + mods, m) ==
      U.Ok(U.Progress([Fixnum(I.UnpackedInt(WidthOfLetter(t), bytes, true, t in "csl", m.longWider))], |s|))
  {
    var d := Meaning(Alone(t, mods), m.littleEndian);
    ReadLetter(t, mods, m.littleEndian);
    IntegerLetter(t, mods, m.littleEndian);
    assert d.Size() == WidthOf(d.dir).Size();
    hide Meaning, ReadAll, Letter, I.UnpackedInt, I.Reverse, U.UnpackProgram, WidthOf, WidthOfLetter, IsLittle;
    ReadAlone(d, s, rest, m);
    ReadInOrder(WidthOfLetter(t), s, d.flags.little, d.flags.signed, m.longWider);
  }

  // ---------------------------------------------------------------------------
  // Letters, modifiers and types that are refused

  predicate IsMark(c: char) {
    c == '_' || c == '!' || c == '<' || c == '>'
  }

  /**
   * A modifier anywhere in the suffix is accepted after `s`, `S`, `i`, `I`, `l`, `L` and a NUL
   * character, and rejected after any other letter.
   */
  lemma ModifierAccepted(t: char, run: string, littleEndian: bool)
    requires forall k :: 0 <= k < |run| ==> '0' <= run[k] <= '9' || run[k] == '*' || IsMark(run[k])
    ensures ReadAt([t] + run, 0, littleEndian).Accepted? <==>
            t in "sSiIlL" || t == '\0' || forall k :: 0 <= k < |run| ==> !IsMark(run[k])
  {
    hide Letter, Modified, WithByteOrder, TakesModifier;
    var str := [t] + run;
    SuffixEndUnique(str, 1, |str|);
    assert str[1..|str|] == run;
    MarksAreModifiers(run);
    TakersByCode(t);
  }

  lemma MarksAreModifiers(run: string)
    ensures HasModifier(run) <==> exists k :: 0 <= k < |run| && IsMark(run[k])
  {
  }

  lemma TakersByCode(t: char)
    ensures TakesModifier(t) <==> t in "sSiIlL" || t == '\0'
  {
  }

  /** The letters that mean something; a directive with any other is skipped. */
  lemma KnownLetter(t: char)
    ensures Letter(t).dir != InvalidDir <==> t in INTEGERS || t in STRINGS || t == 'm'
  {
  }

  /** A letter that means nothing packs nothing and reads nothing. */
  lemma UnknownLetterIsSkipped(t: char, elements: seq<Value>, src: seq<byte>, m: U.Machine)
    requires t !in INTEGERS && t !in STRINGS && t != 'm' && !IsSuffix(t)
    ensures Packed(elements, [t], m.littleEndian) == Ok([])
    ensures U.Unpacked(src, [t], m) == U.Ok(U.Progress([], 0))
  {
    KnownLetter(t);
    UnknownRead(t, m.littleEndian);
    hide Letter, ReadAll, PackProgram, U.UnpackProgram;
    SkippedRun(ReadAll([t], 0, m.littleEndian), elements, src, m);
  }

  lemma SkippedRun(ds: seq<Option<Directive>>, elements: seq<Value>, src: seq<byte>, m: U.Machine)
    requires |ds| == 1 && ds[0].Some? && ds[0].value.dir == InvalidDir
    ensures PackProgram(ds, elements, Output([], INITIAL)) == Ok(Output([], INITIAL))
    ensures U.UnpackProgram(ds, src, 0, m) == U.Ok(U.Progress([], 0))
  {
    assert ds[1..] == [];
    ProgramEnds(elements, Output([], INITIAL));
    assert U.UnpackProgram([], src, 0, m) == U.Ok(U.Progress([], 0));
  }

  lemma UnknownRead(t: char, littleEndian: bool)
    requires Letter(t).dir == InvalidDir
    ensures
      var ds := ReadAll([t], 0, littleEndian);
      |ds| == 1 && ds[0].Some? && ds[0].value.dir == InvalidDir
  {
    hide Letter;
    SuffixEndUnique([t], 1, 1);
  }

  /** Integers are packed from numbers only, and strings from strings only. */
  lemma WrongTypes(t: char, o: Value, littleEndian: bool)
    requires t in INTEGERS || t in STRINGS || t == 'm'
    requires if t in INTEGERS then o.Str? || o.Nil? else !o.Str?
    ensures Packed([o], [t], littleEndian) == TypeError
  {
    var item := Item(t, "", Once);
    assert Valid(item) && RenderAll([item]) == [t] by {
      KnownLetter(t);
      assert [item][1..] == [];
    }
    TypeOfLetter(t, littleEndian);
    hide Letter, Valid, RenderAll, Meaning;
    PackUnpack.CallOfOne(item, [o], littleEndian);
  }

  lemma TypeOfLetter(t: char, littleEndian: bool)
    requires t in INTEGERS || t in STRINGS || t == 'm'
    ensures
      var d := Meaning(Item(t, "", Once), littleEndian);
      d.count == 1 && d.dir != InvalidDir && if t in INTEGERS then d.IsInteger() else d.IsString() && !d.IsInteger()
  {
    var item := Item(t, "", Once);
    if t in INTEGERS {
      IntegerLetter(t, "", littleEndian);
    } else if t in STRINGS {
      KnownLetter(t);
      assert Valid(item);
      StringLetter(item, littleEndian);
    } else {
      PackUnpack.MeaningOf(item, littleEndian);
    }
    hide Letter, Meaning;
  }

  /** How a string directive writes: as hexadecimal digits in a nibble order, or padded in a style. */
  datatype Form = Hexadecimal(lowFirst: bool) | Padded(style: PaddedString.Style)

  function FormOf(d: Directive): Form {
    if d.dir == HexDir then Hexadecimal(d.flags.lsb) else Padded(StyleOf(d.flags))
  }

  /** `h` and `H` are digits, low or high nibble first; `a` pads with NULs, `A` with spaces, `Z` adds a NUL. */
  function FormOfLetter(t: char): Form {
    match t
    case 'h' => Hexadecimal(true)
    case 'H' => Hexadecimal(false)
    case 'a' => Padded(PaddedString.Nul)
    case 'A' => Padded(PaddedString.Space)
    case _ => Padded(PaddedString.NulEnd)
  }

  function PackedAs(f: Form, s: seq<byte>, n: Repetition): seq<byte> {
    match f
    case Hexadecimal(low) => Hex.PackedHex(s, n, low)
    case Padded(style) => PaddedString.PackedStr(s, n, style)
  }

  function UnpackedAs(f: Form, s: seq<byte>, n: Repetition): seq<byte> {
    match f
    case Hexadecimal(low) => Hex.UnpackedHex(s, n, low)
    case Padded(style) => PaddedString.UnpackedStr(s, n, style)
  }

  lemma StringLetter(item: Item, littleEndian: bool)
    requires Valid(item) && item.letter in STRINGS
    ensures
      var d := Meaning(item, littleEndian);
      d.count == CountValue(item.count) && d.IsLength() && FormOf(d) == FormOfLetter(item.letter)
  {
  }

  /** The width of the string at `i`: a count falls by one for each string, `*` stays. */
  function WidthAt(count: Repetition, i: nat): Repetition {
    if count == -1 then -1 else if i < count then count - i else 0
  }

  /** A list of strings, each in its own width. */
  function AllPackedAs(f: Form, ss: seq<seq<byte>>, count: Repetition): seq<byte> {
    Slices.Concat(seq(|ss|, i requires 0 <= i < |ss| => PackedAs(f, ss[i], WidthAt(count, i))))
  }

  lemma AllPackedStep(f: Form, ss: seq<seq<byte>>, count: Repetition)
    requires ss != []
    ensures AllPackedAs(f, ss, count) == PackedAs(f, ss[0], count) + AllPackedAs(f, ss[1..], Less(count))
  {
    hide PackedAs;
    var all := seq(|ss|, i requires 0 <= i < |ss| => PackedAs(f, ss[i], WidthAt(count, i)));
    var rest := seq(|ss| - 1, i requires 0 <= i < |ss| - 1 => PackedAs(f, ss[1..][i], WidthAt(Less(count), i)));
    assert all[1..] == rest;
  }

  /** Digits of width 0 are no bytes, so it makes no difference that they end the directive. */
  lemma {:induction false} NoDigits(f: Form, ss: seq<seq<byte>>)
    requires f.Hexadecimal?
    ensures AllPackedAs(f, ss, 0) == []
    decreases |ss|
  {
    hide AllPackedAs, PackedAs;
    if ss == [] {
      NoStrings(f, 0);
    } else {
      AllPackedStep(f, ss, 0);
      NoDigits(f, ss[1..]);
      NoDigit(f, ss[0]);
    }
  }

  lemma NoDigit(f: Form, s: seq<byte>)
    requires f.Hexadecimal?
    ensures PackedAs(f, s, 0) == []
  {
  }

  lemma NoStrings(f: Form, count: Repetition)
    ensures AllPackedAs(f, [], count) == []
  {
  }

  lemma PackOneString(d: Directive, count: Repetition, s: seq<byte>, out: Output)
    requires d.IsLength() && out.cap > 0
    ensures
      var r := PackOne(d, count, Str(s), out);
      r.Ok? && r.value.bytes == out.bytes + PackedAs(FormOf(d), s, count)
  {
    hide Grow, StyleOf, Hex.PackedHex, PaddedString.PackedStr;
  }

  /** A string directive writes every string of the array, in its width. */
  lemma {:induction false} PackStrings(d: Directive, count: Repetition, ss: seq<seq<byte>>, out: Output)
    requires d.IsLength() && out.cap > 0
    ensures
      var r := PackElements(d, count, PackUnpack.Strs(ss), out);
      r.Ok? && r.value.bytes == out.bytes + AllPackedAs(FormOf(d), ss, count)
    decreases |ss|
  {
    var f := FormOf(d);
    hide AllPackedAs, PackedAs, PackOne, StyleOf;
    if ss == [] {
      NoStrings(f, count);
      assert out.bytes + [] == out.bytes;
    } else if count == 0 && d.dir == HexDir {
      NoDigits(f, ss);
      assert out.bytes + [] == out.bytes;
    } else {
      PackOneString(d, count, ss[0], out);
      AllPackedStep(f, ss, count);
      assert PackUnpack.Strs(ss)[1..] == PackUnpack.Strs(ss[1..]);
      var next := PackOne(d, count, Str(ss[0]), out).value;
      PackStrings(d, Less(count), ss[1..], next);
      SeqAssoc(out.bytes, PackedAs(f, ss[0], count), AllPackedAs(f, ss[1..], Less(count)));
    }
  }

  /**
   * One string directive packs every string of the array: the count is the width of the first,
   * and each later one is one byte or digit narrower, down to nothing.
   */
  lemma StringBytes(item: Item, ss: seq<seq<byte>>, littleEndian: bool)
    requires Valid(item) && item.letter in STRINGS
    ensures Packed(PackUnpack.Strs(ss), RenderAll([item]), littleEndian) ==
            Ok(AllPackedAs(FormOfLetter(item.letter), ss, CountValue(item.count)))
  {
    var d, out := Meaning(item, littleEndian), Output([], INITIAL);
    StringLetter(item, littleEndian);
    PackUnpack.CallOfOne(item, PackUnpack.Strs(ss), littleEndian);
    hide Packed, Meaning, Letter, RenderAll, FormOf, FormOfLetter, PackElements, AllPackedAs;
    PackStrings(d, d.count, ss, out);
    var bytes := AllPackedAs(FormOf(d), ss, d.count);
    assert [] + bytes == bytes;
  }

  /**
   * One string directive reads one string from the front of the source, and moves by the length
   * of the string after stripping, or by the bytes whose digits it read.
   */
  lemma StringRead(item: Item, s: seq<byte>, m: U.Machine)
    requires Valid(item) && item.letter in STRINGS
    ensures
      var f, n := FormOfLetter(item.letter), CountValue(item.count);
      var x := UnpackedAs(f, s, n);
      U.Unpacked(s, RenderAll([item]), m) ==
      U.Ok(U.Progress([Str(x)], if f.Hexadecimal? then (|x| + 1) / 2 else |x|))
  {
    var d := Meaning(item, m.littleEndian);
    PackUnpack.ReadCallOfOne(item, s, m);
    StringLetter(item, m.littleEndian);
    hide *;
    LengthAlone(d, s, m);
  }

  lemma LengthAlone(d: Directive, s: seq<byte>, m: U.Machine)
    requires d.IsLength()
    ensures
      var f, x := FormOf(d), UnpackedAs(FormOf(d), s, d.count);
      U.UnpackProgram([Some(d)], s, 0, m) ==
      U.Ok(U.Progress([Str(x)], if f.Hexadecimal? then (|x| + 1) / 2 else |x|))
  {
    hide StyleOf, Hex.UnpackedHex, PaddedString.UnpackedStr;
    assert s[0..] == s && [Some(d)][1..] == [];
    var p := U.UnpackLength(d, s, 0);
    assert p.values + [] == p.values;
  }
}
