/**
 * Templates of several integer directives.  Packing starts every directive at element 0, so each
 * packs its own prefix of the array, and unpacking returns those prefixes one after the other.
 */
module IntegerFields {
  import opened Bytes
  import opened Template
  import opened TemplateText
  import opened Pack
  import opened PackBuffer
  import opened PackUnpack
  import U = Unpack
  import I = Integers

  /** An integer directive whose count the array can meet. */
  predicate Takes(d: Directive, n: nat) {
    d.IsInteger() && 0 <= d.count <= n
  }

  predicate AllTake(ds: seq<Option<Directive>>, n: nat) {
    forall i :: 0 <= i < |ds| ==> ds[i].Some? && Takes(ds[i].value, n)
  }

  /** The bytes of the prefixes. */
  function FieldBytes(ds: seq<Option<Directive>>, ns: seq<int>): seq<byte>
    requires AllTake(ds, |ns|)
  {
    if ds == [] then []
    else
      var d := ds[0].value;
      IntBytes(WidthOf(d.dir), d.flags.little, ns[..d.count]) + FieldBytes(ds[1..], ns)
  }

  /** The prefixes. */
  function Prefixes(ds: seq<Option<Directive>>, ns: seq<int>): seq<Value>
    requires AllTake(ds, |ns|)
  {
    if ds == [] then [] else Fixnums(ns[..ds[0].value.count]) + Prefixes(ds[1..], ns)
  }

  /** What the prefixes are read back as. */
  function PrefixBacks(ds: seq<Option<Directive>>, ns: seq<int>, longWider: bool): seq<Value>
    requires AllTake(ds, |ns|)
  {
    if ds == [] then []
    else Backs(ds[0].value, ns[..ds[0].value.count], longWider) + PrefixBacks(ds[1..], ns, longWider)
  }

  predicate Keeps(d: Directive, ns: seq<int>, longWider: bool) {
    forall i :: 0 <= i < d.count && i < |ns| ==> I.Faithful(WidthOf(d.dir), d.flags.signed, longWider, ns[i])
  }

  predicate AllKeep(ds: seq<Option<Directive>>, ns: seq<int>, longWider: bool) {
    forall i :: 0 <= i < |ds| && ds[i].Some? ==> Keeps(ds[i].value, ns, longWider)
  }

  lemma {:induction false} PackFields(ds: seq<Option<Directive>>, ns: seq<int>, out: Output)
    requires AllTake(ds, |ns|) && out.cap > 0
    ensures
      var r := PackProgram(ds, Fixnums(ns), out);
      r.Ok? && r.value.bytes == out.bytes + FieldBytes(ds, ns)
    decreases |ds|
  {
    hide PackElements, IntBytes;
    if ds == [] {
      assert out.bytes + [] == out.bytes;
    } else {
      var d := ds[0].value;
      PackIntegers(d, d.count, ns, out);
      assert Taken(d.count, |ns|) == d.count;
      var r := PackElements(d, d.count, Fixnums(ns), out);
      PackFields(ds[1..], ns, r.value);
      hide PackProgram;
      SeqAssoc(out.bytes, IntBytes(WidthOf(d.dir), d.flags.little, ns[..d.count]), FieldBytes(ds[1..], ns));
    }
  }

  lemma {:induction false} UnpackFields(ds: seq<Option<Directive>>, before: seq<byte>, ns: seq<int>, m: U.Machine)
    requires AllTake(ds, |ns|)
    ensures
      var src := before + FieldBytes(ds, ns);
      U.UnpackProgram(ds, src, |before|, m) == U.Ok(U.Progress(PrefixBacks(ds, ns, m.longWider), |src|))
    decreases |ds|
  {
    hide U.UnpackMany, IntBytes, Backs;
    if ds == [] {
      assert before + [] == before;
    } else {
      var d, rest := ds[0].value, FieldBytes(ds[1..], ns);
      var own := IntBytes(WidthOf(d.dir), d.flags.little, ns[..d.count]);
      SeqAssoc(before, own, rest);
      UnpackIntegers(d, d.count, before, ns[..d.count], rest, m);
      assert Backs(d, ns[..d.count], m.longWider) + U.Nils(0) == Backs(d, ns[..d.count], m.longWider);
      UnpackFields(ds[1..], before + own, ns, m);
      hide FieldBytes, PrefixBacks;
    }
  }

  lemma SameParts(a: seq<Value>, x: seq<Value>, b: seq<Value>, y: seq<Value>)
    requires |a| == |b|
    ensures a + x == b + y <==> a == b && x == y
  {
    if a + x == b + y {
      assert (a + x)[..|a|] == a && (b + y)[..|a|] == b;
      assert (a + x)[|a|..] == x && (b + y)[|a|..] == y;
    }
  }

  lemma {:induction false} BacksArePrefixes(ds: seq<Option<Directive>>, ns: seq<int>, longWider: bool)
    requires AllTake(ds, |ns|)
    ensures PrefixBacks(ds, ns, longWider) == Prefixes(ds, ns) <==> AllKeep(ds, ns, longWider)
    decreases |ds|
  {
    hide Backs, Keeps;
    if ds != [] {
      var d := ds[0].value;
      var own := ns[..d.count];
      BacksFaithful(d, own, longWider);
      KeepsPrefix(d, ns, longWider);
      BacksArePrefixes(ds[1..], ns, longWider);
      SameParts(Backs(d, own, longWider), PrefixBacks(ds[1..], ns, longWider), Fixnums(own), Prefixes(ds[1..], ns));
      assert AllKeep(ds, ns, longWider) <==> Keeps(d, ns, longWider) && AllKeep(ds[1..], ns, longWider) by {
        FirstKeeps(ds, ns, longWider);
      }
    }
  }

  lemma FirstKeeps(ds: seq<Option<Directive>>, ns: seq<int>, longWider: bool)
    requires ds != [] && ds[0].Some?
    ensures AllKeep(ds, ns, longWider) <==> Keeps(ds[0].value, ns, longWider) && AllKeep(ds[1..], ns, longWider)
  {
    hide Keeps;
    if Keeps(ds[0].value, ns, longWider) && AllKeep(ds[1..], ns, longWider) {
      assert forall i :: 0 < i < |ds| ==> ds[i] == ds[1..][i - 1];
    }
  }

  lemma KeepsPrefix(d: Directive, ns: seq<int>, longWider: bool)
    requires Takes(d, |ns|)
    ensures Keeps(d, ns, longWider) <==>
            forall i :: 0 <= i < |ns[..d.count]| ==>
              I.Faithful(WidthOf(d.dir), d.flags.signed, longWider, ns[..d.count][i])
  {
    hide I.Faithful;
    assert forall i :: 0 <= i < d.count ==> ns[..d.count][i] == ns[i];
  }

  /** The items of a template are integer directives with counts the array can meet. */
  predicate AreFields(items: seq<Item>, n: nat) {
    forall i :: 0 <= i < |items| ==>
      Valid(items[i]) && Letter(items[i].letter).IsInteger() && 0 <= CountValue(items[i].count) <= n
  }

  lemma {:induction false} FieldsTake(items: seq<Item>, n: nat, littleEndian: bool)
    requires AreFields(items, n)
    ensures AllTake(Meanings(items, littleEndian), n)
    decreases |items|
  {
    hide Letter, Valid;
    if items != [] {
      MeaningOf(items[0], littleEndian);
      hide Meaning;
      FieldsTake(items[1..], n, littleEndian);
    }
  }

  /**
   * Packing an array with a template of integer directives writes the prefix of each, and
   * unpacking with the same template returns the prefixes one after the other exactly when every
   * directive keeps the elements of its own.
   */
  lemma FieldsRoundTrip(items: seq<Item>, ns: seq<int>, m: U.Machine)
    requires AreFields(items, |ns|)
    ensures
      var ds, t := Meanings(items, m.littleEndian), RenderAll(items);
      var packed := Packed(Fixnums(ns), t, m.littleEndian);
      && AllTake(ds, |ns|)
      && packed == Ok(FieldBytes(ds, ns)) && U.Unpacked(packed.value, t, m).Ok?
      && (U.Unpacked(packed.value, t, m).progress.values == Prefixes(ds, ns) <==> AllKeep(ds, ns, m.longWider))
  {
    var ds, t := Meanings(items, m.littleEndian), RenderAll(items);
    FieldsTake(items, |ns|, m.littleEndian);
    assert forall i :: 0 <= i < |items| ==> Valid(items[i]);
    hide Valid, Letter, Meanings, RenderAll, ReadAll, AreFields, AllTake, AllKeep, PackProgram, U.UnpackProgram;
    ReadAllRendered("", items, m.littleEndian);
    assert "" + t == t;
    PackFields(ds, ns, Output([], INITIAL));
    hide FieldBytes, Prefixes, PrefixBacks;
    var src := FieldBytes(ds, ns);
    assert [] + src == src;
    UnpackFields(ds, [], ns, m);
    BacksArePrefixes(ds, ns, m.longWider);
  }

  lemma FieldStep(ds: seq<Option<Directive>>, ns: seq<int>)
    requires ds != [] && AllTake(ds, |ns|)
    ensures
      var d := ds[0].value;
      FieldBytes(ds, ns) == IntBytes(WidthOf(d.dir), d.flags.little, ns[..d.count]) + FieldBytes(ds[1..], ns)
  {
    hide IntBytes;
  }

  lemma OneByte(n: int, little: bool)
    ensures IntBytes(I.Char, little, [n]) == [LowByte(n)]
  {
    hide LowByte;
    assert [n][1..] == [];
  }

  /** Twice a directive that takes one element. */
  lemma BothTakeFirst(d: Directive, a: int, b: int)
    requires d.dir == CharDir && d.count == 1
    ensures AllTake([Some(d), Some(d)], 2) && FieldBytes([Some(d), Some(d)], [a, b]) == [LowByte(a), LowByte(a)]
  {
    var ds: seq<Option<Directive>>, ns := [Some(d), Some(d)], [a, b];
    assert Takes(d, 2) && AllTake(ds, |ns|) && ds[1..] == [Some(d)] && ds[1..][1..] == [] && ns[..1] == [a];
    assert FieldBytes([], ns) == [];
    OneByte(a, d.flags.little);
    hide FieldBytes, IntBytes, LowByte;
    FieldStep(ds, ns);
    FieldStep(ds[1..], ns);
  }

  const C := Item('C', "", Once)

  lemma RenderBoth(littleEndian: bool)
    ensures
      var d: Option<Directive> := Some(Meaning(C, littleEndian));
      RenderAll([C, C]) == "CC" && Valid(C) && Meanings([C, C], littleEndian) == [d, d]
  {
    hide Meaning;
    var d: Option<Directive> := Some(Meaning(C, littleEndian));
    assert [C, C][1..] == [C] && [C][1..] == [];
    assert Render(C) == "C" && RenderAll([]) == "" && Meanings([], littleEndian) == [];
    assert RenderAll([C]) == Render(C) + RenderAll([]) && Meanings([C], littleEndian) == [d] + [];
    assert RenderAll([C, C]) == Render(C) + RenderAll([C]);
    assert Meanings([C, C], littleEndian) == [d] + Meanings([C], littleEndian);
  }

  /** An input on which packing is not element by element: both directives take the first of two. */
  lemma SecondDirectiveStartsOver(a: int, b: int, littleEndian: bool)
    ensures Packed([Fixnum(a), Fixnum(b)], "CC", littleEndian) == Ok([LowByte(a), LowByte(a)])
  {
    var d := Meaning(C, littleEndian);
    assert d.dir == CharDir && d.count == 1;
    RenderBoth(littleEndian);
    BothTakeFirst(d, a, b);
    assert Fixnums([a, b]) == [Fixnum(a), Fixnum(b)];
    hide RenderAll, ReadAll, Meaning, Meanings, AllTake, FieldBytes, PackProgram, LowByte, Valid;
    ReadAllRendered("", [C, C], littleEndian);
    assert "" + RenderAll([C, C]) == "CC";
    PackFields([Some(d), Some(d)], [a, b], Output([], INITIAL));
    var bytes: seq<byte> := [LowByte(a), LowByte(a)];
    assert [] + bytes == bytes;
  }
}
