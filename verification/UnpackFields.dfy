/**
 * String#unpack reads its fields one after the other: where a field is read depends only on what
 * the fields before it took, and what it gives only on the bytes from there on.
 */
module UnpackFields {
  import opened Bytes
  import opened Template
  import opened TemplateText
  import opened Unpack
  import opened PackUnpack
  import Pack
  import I = Integers
  import PaddedString
  import Slices
  import Letters

  /** The machine as seen from source index `n` on. */
  function Later(m: Machine, n: nat): Machine {
    Machine(m.littleEndian, m.longWider, (k: nat) => m.slots(n + k))
  }

  function Moved(p: Progress, n: nat): Progress {
    Progress(p.values, n + p.sidx)
  }

  function MovedOutcome(r: Outcome, n: nat): Outcome {
    match r
    case Ok(p) => Ok(Moved(p, n))
    case error => error
  }

  // ---------------------------------------------------------------------------
  // Nothing depends on the bytes already read

  lemma RestAfter(before: seq<byte>, s: seq<byte>, k: nat)
    requires k <= |s|
    ensures (before + s)[|before| + k..] == s[k..]
    ensures forall j :: k <= j <= |s| ==> (before + s)[|before| + k..|before| + j] == s[k..j]
  {
  }

  lemma OneMoved(d: Directive, before: seq<byte>, s: seq<byte>, k: nat, m: Machine)
    requires Repeats(d) && k + d.Size() <= |s|
    ensures UnpackOne(d, before + s, |before| + k, m) == Moved(UnpackOne(d, s, k, Later(m, |before|)), |before|)
  {
    hide Base64.Unpacked, I.UnpackedInt;
    RestAfter(before, s, k);
  }

  lemma {:induction false} ManyMoved(d: Directive, count: Repetition, before: seq<byte>, s: seq<byte>, k: nat,
                                     m: Machine)
    requires Repeats(d) && k <= |s| && (d.dir == Base64Dir ==> count >= 0)
    ensures UnpackMany(d, count, before + s, |before| + k, m) ==
            Moved(UnpackMany(d, count, s, k, Later(m, |before|)), |before|)
    decreases if count >= 0 then count else |s| - k
  {
    hide UnpackMany, UnpackOne;
    if count == 0 || |s| - k < d.Size() {
      UnpackManyEnds(d, count, before + s, |before| + k, m);
      UnpackManyEnds(d, count, s, k, Later(m, |before|));
    } else {
      OneMoved(d, before, s, k, m);
      UnpackManyStep(d, count, before + s, |before| + k, m);
      UnpackManyStep(d, count, s, k, Later(m, |before|));
      ManyMoved(d, Pack.Less(count), before, s, UnpackOne(d, s, k, Later(m, |before|)).sidx, m);
    }
  }

  lemma LengthMoved(d: Directive, before: seq<byte>, s: seq<byte>, k: nat)
    requires k <= |s|
    ensures UnpackLength(d, before + s, |before| + k) == Moved(UnpackLength(d, s, k), |before|)
  {
    hide Hex.UnpackedHex, PaddedString.UnpackedStr, Pack.StyleOf;
    RestAfter(before, s, k);
  }

  /** The directives read from `before + s`, at the start of `s`, what they read from `s` alone. */
  lemma {:induction false} ProgramMoved(ds: seq<Option<Directive>>, before: seq<byte>, s: seq<byte>, k: nat, m: Machine)
    requires k <= |s|
    ensures UnpackProgram(ds, before + s, |before| + k, m) ==
            MovedOutcome(UnpackProgram(ds, s, k, Later(m, |before|)), |before|)
    decreases |ds|
  {
    hide UnpackMany, UnpackLength;
    if ds != [] && ds[0].Some? && !Endless(ds[0].value) {
      var d := ds[0].value;
      if d.dir == InvalidDir {
        ProgramMoved(ds[1..], before, s, k, m);
      } else if d.IsLength() {
        LengthMoved(d, before, s, k);
        ProgramMoved(ds[1..], before, s, UnpackLength(d, s, k).sidx, m);
      } else {
        ManyMoved(d, d.count, before, s, k, m);
        ProgramMoved(ds[1..], before, s, UnpackMany(d, d.count, s, k, Later(m, |before|)).sidx, m);
      }
    }
  }

  /** Directives in a row read one after the other, each from where the one before it ended. */
  lemma {:induction false} ProgramInTurn(ds: seq<Option<Directive>>, more: seq<Option<Directive>>, src: seq<byte>,
                                         k: nat, m: Machine)
    requires k <= |src|
    ensures UnpackProgram(ds + more, src, k, m) ==
            match UnpackProgram(ds, src, k, m)
            case Ok(p) => Prefixed(p.values, UnpackProgram(more, src, p.sidx, m))
            case error => error
    decreases |ds|
  {
    hide UnpackMany, UnpackLength;
    if ds == [] {
      assert ds + more == more;
      PrefixedTwice([], [], UnpackProgram(more, src, k, m));
    } else {
      assert (ds + more)[0] == ds[0] && (ds + more)[1..] == ds[1..] + more;
      if ds[0].Some? && !Endless(ds[0].value) {
        var d := ds[0].value;
        var p := if d.dir == InvalidDir then Progress([], k)
                 else if d.IsLength() then UnpackLength(d, src, k) else UnpackMany(d, d.count, src, k, m);
        ProgramInTurn(ds[1..], more, src, p.sidx, m);
        var r := UnpackProgram(ds[1..], src, p.sidx, m);
        if r.Ok? && d.dir != InvalidDir {
          PrefixedTwice(p.values, r.progress.values, UnpackProgram(more, src, r.progress.sidx, m));
        }
      }
    }
  }

  /**
   * Unpacking with two templates in one gives what the first gives and then what the second gives
   * on the bytes that the first left, if the second does not start with a suffix character.
   */
  lemma TemplatesInTurn(first: string, second: string, src: seq<byte>, m: Machine)
    requires second == "" || !IsSuffix(second[0])
    ensures
      var r := Unpacked(src, first, m);
      if r.Ok? then
        var p := r.progress;
        p.sidx <= |src| && Unpacked(src, first + second, m) ==
        Prefixed(p.values, MovedOutcome(Unpacked(src[p.sidx..], second, Later(m, p.sidx)), p.sidx))
      else Unpacked(src, first + second, m) == r
  {
    var a, b := ReadAll(first, 0, m.littleEndian), ReadAll(second, 0, m.littleEndian);
    hide ReadAll, IsSuffix, UnpackProgram, Rejects, Prefixed, MovedOutcome;
    ReadAllConcat(first, second, 0, m.littleEndian);
    if Rejects(a) {
      RejectedNeverRuns(a, src, m);
    } else {
      ProgramsInTurn(a, b, src, m);
    }
  }

  lemma ProgramsInTurn(a: seq<Option<Directive>>, b: seq<Option<Directive>>, src: seq<byte>, m: Machine)
    ensures
      var r := UnpackProgram(a, src, 0, m);
      if r.Ok? then
        var p := r.progress;
        p.sidx <= |src| && UnpackProgram(a + b, src, 0, m) ==
        Prefixed(p.values, MovedOutcome(UnpackProgram(b, src[p.sidx..], 0, Later(m, p.sidx)), p.sidx))
      else UnpackProgram(a + b, src, 0, m) == r
  {
    hide UnpackProgram, Prefixed, MovedOutcome;
    ProgramInTurn(a, b, src, 0, m);
    var r := UnpackProgram(a, src, 0, m);
    if r.Ok? {
      var k := r.progress.sidx;
      ProgramMoved(b, src[..k], src[k..], 0, m);
      assert src[..k] + src[k..] == src;
    }
  }

  lemma RejectedNeverRuns(ds: seq<Option<Directive>>, src: seq<byte>, m: Machine)
    requires Rejects(ds)
    ensures !UnpackProgram(ds, src, 0, m).Ok?
  {
    UnpackFillsTemplate(ds, src, 0, m);
    assert ds[|ds| - 1].None?;
    hide UnpackProgram;
  }

  // ---------------------------------------------------------------------------
  // Fields of bytes

  /** An `a` field of a width. */
  function ByteField(width: nat): Item {
    Item('a', "", Times(width))
  }

  function ByteFields(fs: seq<seq<byte>>): (items: seq<Item>)
    ensures |items| == |fs| && forall i :: 0 <= i < |fs| ==> items[i] == ByteField(|fs[i]|)
  {
    seq(|fs|, i requires 0 <= i < |fs| => ByteField(|fs[i]|))
  }

  /** A field of bytes is read as it stands, and passed. */
  lemma ReadByteField(f: seq<byte>, rest: seq<byte>, m: Machine)
    ensures Unpacked(f + rest, Render(ByteField(|f|)), m) == Ok(Progress([Pack.Str(f)], |f|))
  {
    var item := ByteField(|f|);
    assert RenderAll([item]) == Render(item) by {
      assert [item][1..] == [];
    }
    WholeField(f, rest);
    hide Unpacked, RenderAll, Render, PaddedString.UnpackedStr;
    Letters.StringRead(item, f + rest, m);
  }

  lemma WholeField(f: seq<byte>, rest: seq<byte>)
    ensures PaddedString.UnpackedStr(f + rest, |f|, PaddedString.Nul) == f
  {
  }

  lemma ItemsStart(items: seq<Item>)
    requires forall i :: 0 <= i < |items| ==> Valid(items[i])
    ensures RenderAll(items) == "" || !IsSuffix(RenderAll(items)[0])
  {
    StartsWithLetter(items);
  }

  lemma FieldIsValid(width: nat)
    ensures Valid(ByteField(width))
  {
  }

  /** Fields of bytes split a string back into the pieces it was joined from. */
  lemma {:induction false} FieldsSplit(fs: seq<seq<byte>>, m: Machine)
    ensures Unpacked(Slices.Concat(fs), RenderAll(ByteFields(fs)), m) ==
            Ok(Progress(Strs(fs), |Slices.Concat(fs)|))
    decreases |fs|
  {
    hide *;
    if fs == [] {
      NoFields(m);
      assert fs == [];
    } else {
      var f, rest := fs[0], fs[1..];
      var src, own, others := Slices.Concat(fs), Render(ByteField(|f|)), RenderAll(ByteFields(rest));
      FieldsStep(fs);
      ReadByteField(f, Slices.Concat(rest), m);
      TemplatesInTurn(own, others, src, m);
      FieldsSplit(rest, Later(m, |f|));
      OneMoreField(f, rest);
      assert [f] + rest == fs;
    }
  }

  lemma NoFields(m: Machine)
    ensures Slices.Concat<byte>([]) == [] && RenderAll(ByteFields([])) == "" && Strs([]) == []
    ensures Unpacked([], "", m) == Ok(Progress([], 0))
  {
  }

  lemma FieldsStep(fs: seq<seq<byte>>)
    requires fs != []
    ensures
      var f, rest := fs[0], fs[1..];
      var others := RenderAll(ByteFields(rest));
      && Slices.Concat(fs) == f + Slices.Concat(rest) && Slices.Concat(fs)[|f|..] == Slices.Concat(rest)
      && RenderAll(ByteFields(fs)) == Render(ByteField(|f|)) + others
      && (others == "" || !IsSuffix(others[0]))
  {
    hide Render, Valid, IsSuffix;
    forall w: nat
      ensures Valid(ByteField(w))
    {
      FieldIsValid(w);
    }
    assert ByteFields(fs)[1..] == ByteFields(fs[1..]);
    ItemsStart(ByteFields(fs[1..]));
  }

  /** A field, and what the others give. */
  lemma OneMoreField(f: seq<byte>, rest: seq<seq<byte>>)
    ensures
      var n := |Slices.Concat(rest)|;
      Prefixed([Pack.Str(f)], MovedOutcome(Ok(Progress(Strs(rest), n)), |f|)) ==
      Ok(Progress(Strs([f] + rest), |f| + n))
  {
    hide Slices.Concat;
    assert Strs([f] + rest) == [Pack.Str(f)] + Strs(rest);
  }

  /** Any string directive after a field of bytes reads from where that field ends. */
  lemma FieldAfterBytes(before: seq<byte>, item: Item, s: seq<byte>, m: Machine)
    requires Valid(item) && item.letter in Letters.STRINGS
    ensures
      var x := Letters.UnpackedAs(Letters.FormOfLetter(item.letter), s, CountValue(item.count));
      var r := Unpacked(before + s, Render(ByteField(|before|)) + RenderAll([item]), m);
      r.Ok? && r.progress.values == [Pack.Str(before), Pack.Str(x)]
  {
    ItemsStart([item]);
    hide Unpacked, RenderAll, Render, Valid, IsSuffix, Letters.UnpackedAs, Letters.FormOfLetter;
    ReadByteField(before, s, m);
    TemplatesInTurn(Render(ByteField(|before|)), RenderAll([item]), before + s, m);
    assert (before + s)[|before|..] == s;
    Letters.StringRead(item, s, Later(m, |before|));
  }

  /** Any string directive after an integer reads from the byte after it. */
  lemma FieldAfterInteger(t: char, mods: string, number: seq<byte>, item: Item, s: seq<byte>, m: Machine)
    requires t in Letters.INTEGERS && Letters.IsText(t, mods) && |number| == Letters.WidthOfLetter(t).Size()
    requires Valid(item) && item.letter in Letters.STRINGS
    ensures
      var little := Letters.IsLittle(t, mods, m.littleEndian);
      var n := I.UnpackedInt(Letters.WidthOfLetter(t), if little then number else I.Reverse(number), true,
                             t in "csl", m.longWider);
      var x := Letters.UnpackedAs(Letters.FormOfLetter(item.letter), s, CountValue(item.count));
      var r := Unpacked(number + s, [t] + mods + RenderAll([item]), m);
      r.Ok? && r.progress.values == [Pack.Fixnum(n), Pack.Str(x)]
  {
    ItemsStart([item]);
    hide Unpacked, RenderAll, Valid, IsSuffix, Letters.UnpackedAs, Letters.FormOfLetter, I.UnpackedInt, I.Reverse;
    Letters.IntegerRead(t, mods, number, s, m);
    TemplatesInTurn([t] + mods, RenderAll([item]), number + s, m);
    assert (number + s)[|number|..] == s;
    Letters.StringRead(item, s, Later(m, |number|));
  }
}
