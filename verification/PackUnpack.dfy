/** What Array#pack and String#unpack promise together, over whole templates. */
module PackUnpack {
  import opened Bytes
  import opened Template
  import opened TemplateText
  import opened Pack
  import opened PackBuffer
  import U = Unpack
  import I = Integers
  import Base64

  // ---------------------------------------------------------------------------
  // Integers

  function Fixnums(ns: seq<int>): (r: seq<Value>)
    ensures |r| == |ns|
    ensures forall i :: 0 <= i < |ns| ==> r[i] == Fixnum(ns[i])
  {
    seq(|ns|, i requires 0 <= i < |ns| => Fixnum(ns[i]))
  }

  function Strs(ss: seq<seq<byte>>): (r: seq<Value>)
    ensures |r| == |ss|
    ensures forall i :: 0 <= i < |ss| ==> r[i] == Str(ss[i])
  {
    seq(|ss|, i requires 0 <= i < |ss| => Str(ss[i]))
  }

  /** The bytes of each number in turn. */
  function IntBytes(w: I.Width, little: bool, ns: seq<int>): seq<byte> {
    if ns == [] then [] else I.PackedInt(w, ns[0], little) + IntBytes(w, little, ns[1..])
  }

  /** How many of `n` elements a count takes. */
  function Taken(count: Repetition, n: nat): nat {
    if count == -1 then n else Min(count, n)
  }

  /** An integer directive writes the elements its count takes, one after the other. */
  lemma {:induction false} PackIntegers(d: Directive, count: Repetition, ns: seq<int>, out: Output)
    requires d.IsInteger() && out.cap > 0
    ensures
      var r := PackElements(d, count, Fixnums(ns), out);
      r.Ok? && r.value.bytes == out.bytes + IntBytes(WidthOf(d.dir), d.flags.little, ns[..Taken(count, |ns|)])
    decreases |ns|
  {
    var w, little, k := WidthOf(d.dir), d.flags.little, Taken(count, |ns|);
    if k == 0 {
      assert ns[..k] == [] && out.bytes + [] == out.bytes;
    } else {
      var bytes := I.PackedInt(w, ns[0], little);
      var next := Output(out.bytes + bytes, Grow(out.cap, |out.bytes + bytes|));
      PackOneInteger(d, count, ns[0], out);
      hide Grow, I.PackedInt, PackOne;
      PackIntegers(d, Less(count), ns[1..], next);
      assert Fixnums(ns)[1..] == Fixnums(ns[1..]);
      assert ns[..k][1..] == ns[1..][..k - 1];
      hide PackElements;
      SeqAssoc(out.bytes, bytes, IntBytes(w, little, ns[1..][..k - 1]));
    }
  }

  lemma PackOneInteger(d: Directive, count: Repetition, n: int, out: Output)
    requires d.IsInteger() && out.cap > 0
    ensures
      var bytes := I.PackedInt(WidthOf(d.dir), n, d.flags.little);
      PackOne(d, count, Fixnum(n), out) == Ok(Output(out.bytes + bytes, Grow(out.cap, |out.bytes + bytes|)))
  {
    hide I.PackedInt, Grow;
  }

  /** What each number is read back as. */
  function Backs(d: Directive, ns: seq<int>, longWider: bool): (r: seq<Value>)
    requires d.IsInteger()
    ensures |r| == |ns|
  {
    var w, f := WidthOf(d.dir), d.flags;
    seq(|ns|, i requires 0 <= i < |ns| =>
      Fixnum(I.UnpackedInt(w, I.PackedInt(w, ns[i], f.little), f.little, f.signed, longWider)))
  }

  /** How many values a count still asks for after `n`; `*` asks for none. */
  function Missing(count: Repetition, n: nat): nat {
    if count > n then count - n else 0
  }

  /**
   * An integer directive reads the numbers stored from the source index on.  It stops after them
   * if they are all its count asks for, and at the end of the source adds nils for those missing.
   */
  lemma {:induction false} UnpackIntegers(d: Directive, count: Repetition, before: seq<byte>, ns: seq<int>,
                                          after: seq<byte>, m: U.Machine)
    requires d.IsInteger() && (count == |ns| || (after == [] && (count == -1 || count >= |ns|)))
    ensures
      var end := before + IntBytes(WidthOf(d.dir), d.flags.little, ns);
      U.UnpackMany(d, count, end + after, |before|, m) ==
      U.Progress(Backs(d, ns, m.longWider) + U.Nils(Missing(count, |ns|)), |end|)
    decreases |ns|
  {
    hide I.PackedInt, I.UnpackedInt, U.UnpackMany, U.UnpackOne, IntBytes, Backs;
    var w, little := WidthOf(d.dir), d.flags.little;
    var src := before + IntBytes(w, little, ns) + after;
    if ns == [] {
      NoIntegers(d, m.longWider);
      assert before + [] == before;
      U.UnpackManyEnds(d, count, src, |before|, m);
      assert [] + U.Nils(Missing(count, 0)) == U.Nils(Missing(count, 0));
    } else {
      var bytes := I.PackedInt(w, ns[0], little);
      OneIntegerAt(d, before, ns, after, m);
      U.UnpackManyStep(d, count, src, |before|, m);
      UnpackIntegers(d, Less(count), before + bytes, ns[1..], after, m);
      BacksStep(d, ns, m.longWider, U.Nils(Missing(count, |ns|)));
    }
  }

  lemma NoIntegers(d: Directive, longWider: bool)
    requires d.IsInteger()
    ensures IntBytes(WidthOf(d.dir), d.flags.little, []) == [] && Backs(d, [], longWider) == []
  {
  }

  /** The first of the numbers stored at a place. */
  lemma OneIntegerAt(d: Directive, before: seq<byte>, ns: seq<int>, after: seq<byte>, m: U.Machine)
    requires d.IsInteger() && ns != []
    ensures
      var w, f := WidthOf(d.dir), d.flags;
      var bytes, rest := I.PackedInt(w, ns[0], f.little), IntBytes(w, f.little, ns[1..]);
      var src := before + IntBytes(w, f.little, ns) + after;
      && before + IntBytes(w, f.little, ns) == before + bytes + rest
      && src == before + bytes + rest + after && |before| + d.Size() <= |src|
      && U.UnpackOne(d, src, |before|, m) ==
         U.Progress([Fixnum(I.UnpackedInt(w, bytes, f.little, f.signed, m.longWider))], |before + bytes|)
  {
    hide I.PackedInt, I.UnpackedInt;
    var w, f := WidthOf(d.dir), d.flags;
    var bytes, rest := I.PackedInt(w, ns[0], f.little), IntBytes(w, f.little, ns[1..]);
    assert IntBytes(w, f.little, ns) == bytes + rest;
    hide IntBytes;
    SeqAssoc(before, bytes, rest);
    var src := before + bytes + rest + after;
    assert src[|before|..|before| + d.Size()] == bytes;
  }

  lemma BacksStep(d: Directive, ns: seq<int>, longWider: bool, rest: seq<Value>)
    requires d.IsInteger() && ns != []
    ensures
      var w, f := WidthOf(d.dir), d.flags;
      var first := I.UnpackedInt(w, I.PackedInt(w, ns[0], f.little), f.little, f.signed, longWider);
      Backs(d, ns, longWider) + rest == [Fixnum(first)] + (Backs(d, ns[1..], longWider) + rest)
  {
    hide I.PackedInt, I.UnpackedInt;
    assert Backs(d, ns, longWider) == Backs(d, ns[..1], longWider) + Backs(d, ns[1..], longWider);
  }

  /** A template of one integer directive. */
  predicate IsIntegerItem(item: Item) {
    Valid(item) && Letter(item.letter).IsInteger()
  }

  lemma RunsAlone(d: Directive, elements: seq<Value>, out: Output)
    requires d.dir != InvalidDir && out.cap > 0
    ensures PackProgram([Some(d)], elements, out) == PackElements(d, d.count, elements, out)
  {
    hide PackElements;
    assert [Some(d)][1..] == [];
  }

  /** A call with one directive is a run of it over the array. */
  lemma CallOfOne(item: Item, elements: seq<Value>, littleEndian: bool)
    requires Valid(item)
    ensures
      var d := Meaning(item, littleEndian);
      Packed(elements, RenderAll([item]), littleEndian) ==
      Pack.Finished(PackElements(d, d.count, elements, Output([], INITIAL)))
  {
    var d := Meaning(item, littleEndian);
    ReadOne(item, littleEndian);
    MeaningOf(item, littleEndian);
    hide ReadAll, RenderAll, Meaning, PackElements, PackProgram, Letter;
    RunsAlone(d, elements, Output([], INITIAL));
  }

  lemma MeaningOf(item: Item, littleEndian: bool)
    ensures Meaning(item, littleEndian).dir == Letter(item.letter).dir
    ensures Meaning(item, littleEndian).count == CountValue(item.count)
  {
    hide Letter;
  }

  lemma ReadOne(item: Item, littleEndian: bool)
    requires Valid(item)
    ensures ReadAll(RenderAll([item]), 0, littleEndian) == [Some(Meaning(item, littleEndian))]
  {
    ReadAllRendered("", [item], littleEndian);
    assert "" + RenderAll([item]) == RenderAll([item]);
    assert [item][1..] == [];
  }

  /** An unpacking call with one directive is a run of it. */
  lemma ReadCallOfOne(item: Item, src: seq<byte>, m: U.Machine)
    requires Valid(item)
    ensures U.Unpacked(src, RenderAll([item]), m) == U.UnpackProgram([Some(Meaning(item, m.littleEndian))], src, 0, m)
  {
    hide Meaning, RenderAll, ReadAll, Valid, U.UnpackProgram;
    ReadOne(item, m.littleEndian);
  }

  /**
   * Packing an array of integers with a single directive and unpacking the string with the same
   * directive returns the elements its count takes, and a nil for each one the array is short of,
   * exactly when every element taken is one the directive keeps.
   */
  lemma IntegerArrayRoundTrip(item: Item, ns: seq<int>, m: U.Machine)
    requires IsIntegerItem(item)
    ensures
      var d, t, k := Meaning(item, m.littleEndian), RenderAll([item]), Taken(CountValue(item.count), |ns|);
      var packed := Packed(Fixnums(ns), t, m.littleEndian);
      && packed.Ok? && U.Unpacked(packed.value, t, m).Ok?
      && (U.Unpacked(packed.value, t, m).progress.values ==
          Fixnums(ns[..k]) + U.Nils(Missing(CountValue(item.count), k)) <==>
          forall i :: 0 <= i < k ==> I.Faithful(WidthOf(d.dir), d.flags.signed, m.longWider, ns[i]))
  {
    var d := Meaning(item, m.littleEndian);
    ReadOne(item, m.littleEndian);
    MeaningOf(item, m.littleEndian);
    var k := Taken(d.count, |ns|);
    var nils := U.Nils(Missing(d.count, k));
    hide Meaning, Letter, RenderAll, ReadAll;
    SingleDirectiveRoundTrip(d, ns, m);
    BacksFaithful(d, ns[..k], m.longWider);
    hide Backs, I.Faithful, PackProgram, U.UnpackProgram, U.Nils;
    var a, b := Backs(d, ns[..k], m.longWider), Fixnums(ns[..k]);
    assert (a + nils)[..k] == a && (b + nils)[..k] == b;
    assert forall i :: 0 <= i < k ==> ns[..k][i] == ns[i];
  }

  /** The bytes that one integer directive packs. */
  lemma PackedAlone(d: Directive, ns: seq<int>)
    requires d.IsInteger()
    ensures
      var r := PackProgram([Some(d)], Fixnums(ns), Output([], INITIAL));
      r.Ok? && r.value.bytes == IntBytes(WidthOf(d.dir), d.flags.little, ns[..Taken(d.count, |ns|)])
  {
    var out, bytes := Output([], INITIAL), IntBytes(WidthOf(d.dir), d.flags.little, ns[..Taken(d.count, |ns|)]);
    PackIntegers(d, d.count, ns, out);
    RunsAlone(d, Fixnums(ns), out);
    hide PackElements, PackProgram, IntBytes;
    assert [] + bytes == bytes;
  }

  /** The values that one integer directive reads from them. */
  lemma UnpackedAlone(d: Directive, ns: seq<int>, m: U.Machine)
    requires d.IsInteger() && (d.count == -1 || d.count >= |ns|)
    ensures
      var src := IntBytes(WidthOf(d.dir), d.flags.little, ns);
      U.UnpackProgram([Some(d)], src, 0, m) ==
      U.Ok(U.Progress(Backs(d, ns, m.longWider) + U.Nils(Missing(d.count, |ns|)), |src|))
  {
    var src := IntBytes(WidthOf(d.dir), d.flags.little, ns);
    hide U.UnpackMany, U.UnpackProgram, IntBytes, Backs, Missing;
    UnpackIntegers(d, d.count, [], ns, [], m);
    assert [] + src + [] == src && [] + src == src;
    ReadsAlone(d, src, m);
  }

  lemma ReadsAlone(d: Directive, src: seq<byte>, m: U.Machine)
    requires d.IsInteger()
    ensures U.UnpackProgram([Some(d)], src, 0, m) == U.Ok(U.UnpackMany(d, d.count, src, 0, m))
  {
    hide U.UnpackMany;
    var p := U.UnpackMany(d, d.count, src, 0, m);
    assert [Some(d)][1..] == [] && p.values + [] == p.values;
  }

  lemma SingleDirectiveRoundTrip(d: Directive, ns: seq<int>, m: U.Machine)
    requires d.IsInteger()
    ensures
      var r, k := PackProgram([Some(d)], Fixnums(ns), Output([], INITIAL)), Taken(d.count, |ns|);
      && r.Ok?
      && U.UnpackProgram([Some(d)], r.value.bytes, 0, m) ==
         U.Ok(U.Progress(Backs(d, ns[..k], m.longWider) + U.Nils(Missing(d.count, k)), |r.value.bytes|))
  {
    hide PackProgram, U.UnpackProgram, IntBytes, Backs;
    PackedAlone(d, ns);
    UnpackedAlone(d, ns[..Taken(d.count, |ns|)], m);
  }

  lemma BacksFaithful(d: Directive, ns: seq<int>, longWider: bool)
    requires d.IsInteger()
    ensures Backs(d, ns, longWider) == Fixnums(ns) <==>
            forall i :: 0 <= i < |ns| ==> I.Faithful(WidthOf(d.dir), d.flags.signed, longWider, ns[i])
  {
    var b, w, f := Backs(d, ns, longWider), WidthOf(d.dir), d.flags;
    forall i | 0 <= i < |ns|
      ensures b[i] == Fixnum(ns[i]) <==> I.Faithful(w, f.signed, longWider, ns[i])
    {
      I.IntRoundTrip(w, ns[i], f.little, f.signed, longWider);
    }
    hide I.Faithful, I.PackedInt, I.UnpackedInt;
    if b == Fixnums(ns) {
      forall i | 0 <= i < |ns|
        ensures I.Faithful(w, f.signed, longWider, ns[i])
      {
        assert b[i] == Fixnums(ns)[i];
      }
    }
  }

  // ---------------------------------------------------------------------------
  // Directives one after the other

  type Run = Pack.Outcome<Output>

  lemma PackOneAnywhere(d: Directive, count: Repetition, o: Value, out: Output, other: Output)
    requires out.cap > 0 && other.cap > 0
    ensures
      var r, q := PackOne(d, count, o, out), PackOne(d, count, o, other);
      && (!r.Overrun? && !q.Overrun? ==> (r.Ok? <==> q.Ok?) && (!r.Ok? ==> r == q))
      && (r.Ok? ==> out.bytes <= r.value.bytes)
      && (r.Ok? && q.Ok? ==> r.value.bytes[|out.bytes|..] == q.value.bytes[|other.bytes|..])
  {
    hide I.PackedInt, Base64.PackedText, Base64.Reserved, Grow;
  }

  /** What is packed does not depend on what the buffer holds already, as long as it fits. */
  ghost predicate SameAdded(r: Run, out: Output, q: Run, other: Output) {
    if r.Overrun? || q.Overrun? then true
    else if r.Ok? then q.Ok? && exists x :: r.value.bytes == out.bytes + x && q.value.bytes == other.bytes + x
    else q == r
  }

  lemma SameAddedThen(r: Run, a: Output, out: Output, q: Run, b: Output, other: Output)
    requires SameAdded(Ok(a), out, Ok(b), other) && SameAdded(r, a, q, b)
    ensures SameAdded(r, out, q, other)
  {
    if r.Ok? && q.Ok? {
      var x :| a.bytes == out.bytes + x && b.bytes == other.bytes + x;
      var y :| r.value.bytes == a.bytes + y && q.value.bytes == b.bytes + y;
      assert r.value.bytes == out.bytes + (x + y) && q.value.bytes == other.bytes + (x + y);
    }
  }

  lemma {:induction false} PackElementsAnywhere(d: Directive, count: Repetition, elements: seq<Value>,
                                                out: Output, other: Output)
    requires out.cap > 0 && other.cap > 0
    ensures SameAdded(PackElements(d, count, elements, out), out, PackElements(d, count, elements, other), other)
    decreases |elements|
  {
    if elements == [] || (count == 0 && !d.IsWidth()) {
      assert out.bytes + [] == out.bytes && other.bytes + [] == other.bytes;
    } else {
      PackOneAnywhere(d, count, elements[0], out, other);
      PackOneAnywhere(d, count, elements[0], other, out);
      var r, q := PackOne(d, count, elements[0], out), PackOne(d, count, elements[0], other);
      hide PackOne;
      if r.Ok? && q.Ok? {
        var x := r.value.bytes[|out.bytes|..];
        assert r.value.bytes == out.bytes + x && q.value.bytes == other.bytes + x;
        PackElementsAnywhere(d, Less(count), elements[1..], r.value, q.value);
        SameAddedThen(PackElements(d, Less(count), elements[1..], r.value), r.value, out,
                      PackElements(d, Less(count), elements[1..], q.value), q.value, other);
      }
    }
  }

  lemma {:induction false} PackProgramAnywhere(ds: seq<Option<Directive>>, elements: seq<Value>,
                                               out: Output, other: Output)
    requires out.cap > 0 && other.cap > 0
    ensures SameAdded(PackProgram(ds, elements, out), out, PackProgram(ds, elements, other), other)
    decreases |ds|
  {
    if ds == [] {
      assert out.bytes + [] == out.bytes && other.bytes + [] == other.bytes;
    } else if ds[0].Some? {
      var d := ds[0].value;
      if d.dir == InvalidDir {
        PackProgramAnywhere(ds[1..], elements, out, other);
      } else {
        PackElementsAnywhere(d, d.count, elements, out, other);
        var r, q := PackElements(d, d.count, elements, out), PackElements(d, d.count, elements, other);
        hide PackElements;
        if r.Ok? && q.Ok? {
          PackProgramAnywhere(ds[1..], elements, r.value, q.value);
          SameAddedThen(PackProgram(ds[1..], elements, r.value), r.value, out,
                        PackProgram(ds[1..], elements, q.value), q.value, other);
        }
      }
    }
  }

  /** No base64: the reservation of every directive covers what it writes. */
  predicate Reserves(ds: seq<Option<Directive>>) {
    forall i :: 0 <= i < |ds| ==> ds[i].Some? ==> ds[i].value.dir != Base64Dir
  }

  lemma OneReserves(d: Directive, count: Repetition, o: Value, out: Output)
    requires out.cap > 0 && d.dir != Base64Dir
    ensures !PackOne(d, count, o, out).Overrun?
  {
    hide I.PackedInt;
  }

  lemma {:induction false} ElementsReserve(d: Directive, count: Repetition, elements: seq<Value>, out: Output)
    requires out.cap > 0 && d.dir != Base64Dir
    ensures !PackElements(d, count, elements, out).Overrun?
    decreases |elements|
  {
    hide PackOne;
    if elements != [] {
      OneReserves(d, count, elements[0], out);
      var r := PackOne(d, count, elements[0], out);
      if r.Ok? {
        ElementsReserve(d, Less(count), elements[1..], r.value);
      }
    }
  }

  /** Without base64 no store is past the end of the buffer. */
  lemma {:induction false} ProgramReserves(ds: seq<Option<Directive>>, elements: seq<Value>, out: Output)
    requires out.cap > 0 && Reserves(ds)
    ensures !PackProgram(ds, elements, out).Overrun?
    decreases |ds|
  {
    hide PackElements;
    if ds != [] && ds[0].Some? {
      var d := ds[0].value;
      ElementsReserve(d, d.count, elements, out);
      var r := if d.dir == InvalidDir then Ok(out) else PackElements(d, d.count, elements, out);
      if r.Ok? {
        ProgramReserves(ds[1..], elements, r.value);
      }
    }
  }

  lemma {:induction false} PackProgramAppend(ds: seq<Option<Directive>>, more: seq<Option<Directive>>,
                                             elements: seq<Value>, out: Output)
    requires out.cap > 0
    ensures PackProgram(ds + more, elements, out) ==
            match PackProgram(ds, elements, out)
            case Ok(next) => PackProgram(more, elements, next)
            case error => error
    decreases |ds|
  {
    if ds == [] {
      assert ds + more == more;
    } else {
      assert (ds + more)[0] == ds[0] && (ds + more)[1..] == ds[1..] + more;
      if ds[0].Some? {
        var d := ds[0].value;
        var r := if d.dir == InvalidDir then Ok(out) else PackElements(d, d.count, elements, out);
        if r.Ok? {
          PackProgramAppend(ds[1..], more, elements, r.value);
        }
      }
    }
  }

  /** Results one after the other; the first error counts. */
  function Joined(a: Pack.Outcome<seq<byte>>, b: Pack.Outcome<seq<byte>>): Pack.Outcome<seq<byte>> {
    if a.Ok? then if b.Ok? then Ok(a.value + b.value) else b else a
  }

  /**
   * Every directive starts over at element 0: packing with two templates in one is packing the
   * whole array with each and joining the strings, unless exactly one of the two ways overruns
   * its buffer.  Without base64 neither does.
   */
  lemma TemplatesStartOver(first: string, second: string, elements: seq<Value>, littleEndian: bool)
    requires second == "" || !IsSuffix(second[0])
    ensures
      var whole := Packed(elements, first + second, littleEndian);
      var parts := Joined(Packed(elements, first, littleEndian), Packed(elements, second, littleEndian));
      && (whole == parts <==> (whole.Overrun? <==> parts.Overrun?))
      && ('m' !in first && 'm' !in second ==> !whole.Overrun? && !parts.Overrun?)
  {
    var a, b := ReadAll(first, 0, littleEndian), ReadAll(second, 0, littleEndian);
    hide ReadAll, Reserves, Rejects, PackProgram, Joined, IsSuffix, Pack.Finished;
    ReadAllConcat(first, second, 0, littleEndian);
    if 'm' !in first && 'm' !in second {
      ReadsReserve(first, littleEndian);
      ReadsReserve(second, littleEndian);
    }
    if Rejects(a) {
      RejectedStartOver(a, b, elements);
    } else {
      ProgramsStartOver(a, b, elements);
    }
  }

  lemma ReadsReserve(template: string, littleEndian: bool)
    requires 'm' !in template
    ensures Reserves(ReadAll(template, 0, littleEndian))
  {
    hide ReadAll;
    ReadsNoBase64(template, 0, littleEndian);
  }

  lemma RejectedStartOver(a: seq<Option<Directive>>, b: seq<Option<Directive>>, elements: seq<Value>)
    requires Rejects(a)
    ensures
      var out := Output([], INITIAL);
      var whole := Pack.Finished(PackProgram(a, elements, out));
      && whole == Joined(whole, Pack.Finished(PackProgram(b, elements, out)))
      && (Reserves(a) ==> !whole.Overrun?)
  {
    hide PackProgram, Rejects, Reserves;
    RejectedFails(a, elements, Output([], INITIAL));
    if Reserves(a) {
      ProgramReserves(a, elements, Output([], INITIAL));
    }
  }

  /** A template that is rejected anywhere packs nothing. */
  lemma {:induction false} RejectedFails(ds: seq<Option<Directive>>, elements: seq<Value>, out: Output)
    requires out.cap > 0 && Rejects(ds)
    ensures !PackProgram(ds, elements, out).Ok?
    decreases |ds|
  {
    hide PackElements;
    if ds[0].Some? {
      var d := ds[0].value;
      var r := if d.dir == InvalidDir then Ok(out) else PackElements(d, d.count, elements, out);
      if r.Ok? {
        RejectedFails(ds[1..], elements, r.value);
      }
    }
  }

  lemma ProgramsStartOver(a: seq<Option<Directive>>, b: seq<Option<Directive>>, elements: seq<Value>)
    ensures
      var out := Output([], INITIAL);
      var whole := Pack.Finished(PackProgram(a + b, elements, out));
      var parts := Joined(Pack.Finished(PackProgram(a, elements, out)), Pack.Finished(PackProgram(b, elements, out)));
      && (whole == parts <==> (whole.Overrun? <==> parts.Overrun?))
      && (Reserves(a) && Reserves(b) ==> !whole.Overrun? && !parts.Overrun?)
  {
    var out := Output([], INITIAL);
    hide PackProgram, SameAdded, Reserves;
    PackProgramAppend(a, b, elements, out);
    var r := PackProgram(a, elements, out);
    if r.Ok? {
      PackProgramAnywhere(b, elements, r.value, out);
      AddedToEmpty(PackProgram(b, elements, r.value), r.value, PackProgram(b, elements, out), out.cap);
    }
    if Reserves(a) && Reserves(b) {
      ProgramReserves(a, elements, out);
      ProgramReserves(b, elements, out);
      if r.Ok? {
        ProgramReserves(b, elements, r.value);
      }
    }
  }

  lemma AddedToEmpty(r: Run, a: Output, q: Run, cap: nat)
    requires SameAdded(r, a, q, Output([], cap))
    ensures r.Overrun? || q.Overrun? || Pack.Finished(r) == Joined(Pack.Ok(a.bytes), Pack.Finished(q))
  {
    if r.Ok? && q.Ok? {
      var x :| r.value.bytes == a.bytes + x && q.value.bytes == [] + x;
      assert [] + x == x;
    }
  }

  // ---------------------------------------------------------------------------
  // What unpacking yields

  /** The number of whole values of `size` bytes that a count takes from `rest` bytes. */
  function Whole(count: Repetition, rest: nat, size: nat): nat
    requires size > 0
  {
    if count == -1 then rest / size else Min(count, rest / size)
  }

  /** `n` entries, of which the first `k` are numbers and the others nil. */
  ghost predicate NumbersThenNils(values: seq<Value>, k: nat, n: nat) {
    && |values| == n && k <= n
    && (forall i :: 0 <= i < k ==> values[i].Fixnum?)
    && (forall i :: k <= i < n ==> values[i] == Pack.Nil)
  }

  lemma OneMoreNumber(v: Value, values: seq<Value>, k: nat, n: nat)
    requires v.Fixnum? && NumbersThenNils(values, k, n)
    ensures NumbersThenNils([v] + values, k + 1, n + 1)
  {
  }

  /**
   * An integer directive yields as many entries as its count says, nil where the source is too
   * short; with `*` it yields one for each whole value left.  It moves past whole values only.
   */
  lemma {:induction false} UnpackManyYields(d: Directive, count: Repetition, src: seq<byte>, sidx: nat, m: U.Machine)
    requires d.IsInteger() && sidx <= |src|
    ensures
      var p, k := U.UnpackMany(d, count, src, sidx, m), Whole(count, |src| - sidx, d.Size());
      p.sidx == sidx + k * d.Size() && NumbersThenNils(p.values, k, if count == -1 then k else count)
    decreases if count >= 0 then count else |src| - sidx
  {
    hide U.UnpackMany, U.UnpackOne, Whole;
    var rest, size := |src| - sidx, d.Size();
    WholeStep(count, rest, size);
    if count != 0 && rest >= size {
      U.UnpackManyStep(d, count, src, sidx, m);
      OneNumber(d, src, sidx, m);
      var p := U.UnpackOne(d, src, sidx, m);
      UnpackManyYields(d, Less(count), src, p.sidx, m);
      var more, k := U.UnpackMany(d, Less(count), src, p.sidx, m), Whole(Less(count), rest - size, size);
      OneMoreNumber(p.values[0], more.values, k, if count == -1 then k else count - 1);
      hide NumbersThenNils;
    } else {
      U.UnpackManyEnds(d, count, src, sidx, m);
    }
  }

  lemma OneNumber(d: Directive, src: seq<byte>, sidx: nat, m: U.Machine)
    requires d.IsInteger() && sidx + d.Size() <= |src|
    ensures var p := U.UnpackOne(d, src, sidx, m); p.values == [p.values[0]] && p.values[0].Fixnum?
  {
    hide I.UnpackedInt;
  }

  lemma WholeStep(count: Repetition, rest: nat, size: nat)
    requires size > 0
    ensures count == 0 || rest < size ==> Whole(count, rest, size) == 0
    ensures count != 0 && rest >= size ==>
              Whole(count, rest, size) == 1 + Whole(Less(count), rest - size, size) &&
              Whole(count, rest, size) * size == size + Whole(Less(count), rest - size, size) * size
  {
    if rest >= size {
      WrapMod(rest - size, size);
      var k := Whole(Less(count), rest - size, size);
      assert (1 + k) * size == size + k * size;
    } else {
      DivModUnique(rest, size, 0, rest);
    }
  }

  /** A base64 directive with a count yields that many strings, empty ones at the end of the source. */
  lemma {:induction false} UnpackBase64Yields(d: Directive, count: nat, src: seq<byte>, sidx: nat, m: U.Machine)
    requires d.dir == Base64Dir && sidx <= |src|
    ensures
      var p := U.UnpackMany(d, count, src, sidx, m);
      |p.values| == count && forall i :: 0 <= i < count ==> p.values[i].Str?
    decreases count
  {
    hide Base64.Unpacked;
    if count > 0 {
      UnpackBase64Yields(d, count - 1, src, U.UnpackOne(d, src, sidx, m).sidx, m);
    }
  }

  /** The directives that can be run: the template is accepted, and no base64 loop is endless. */
  predicate Runs(ds: seq<Option<Directive>>) {
    forall i :: 0 <= i < |ds| ==> ds[i].Some? && !Endless(ds[i].value)
  }

  predicate Endless(d: Directive) {
    d.dir == Base64Dir && d.count == -1
  }

  /** The entries one directive asks for when `rest` bytes are left. */
  function EntriesOf(d: Directive, rest: nat): nat {
    if d.dir == InvalidDir then 0
    else if d.IsLength() then 1
    else if d.count >= 0 then d.count
    else if d.IsInteger() then rest / d.Size()
    else 0
  }

  /** What one directive reads. */
  function ReadBy(d: Directive, src: seq<byte>, sidx: nat, m: U.Machine): (p: U.Progress)
    requires sidx <= |src| && !Endless(d)
    ensures sidx <= p.sidx <= |src|
  {
    if d.dir == InvalidDir then U.Progress([], sidx)
    else if d.IsLength() then U.UnpackLength(d, src, sidx)
    else U.UnpackMany(d, d.count, src, sidx, m)
  }

  /** The entries a template asks for, each directive from the source index the one before it reached. */
  function Entries(ds: seq<Option<Directive>>, src: seq<byte>, sidx: nat, m: U.Machine): nat
    requires sidx <= |src| && Runs(ds)
    decreases |ds|
  {
    if ds == [] then 0
    else
      var d := ds[0].value;
      EntriesOf(d, |src| - sidx) + Entries(ds[1..], src, ReadBy(d, src, sidx, m).sidx, m)
  }

  lemma DirectiveFillsEntries(d: Directive, src: seq<byte>, sidx: nat, m: U.Machine)
    requires sidx <= |src| && !Endless(d)
    ensures |ReadBy(d, src, sidx, m).values| == EntriesOf(d, |src| - sidx)
  {
    hide U.UnpackMany;
    if d.IsInteger() {
      UnpackManyYields(d, d.count, src, sidx, m);
    } else if d.dir == Base64Dir {
      UnpackBase64Yields(d, d.count, src, sidx, m);
    }
  }

  /**
   * Unpacking ends with a result exactly for the accepted templates without an endless base64
   * loop.  Whatever the source holds, it then fills exactly the entries the template asks for.
   */
  lemma {:induction false} UnpackFillsTemplate(ds: seq<Option<Directive>>, src: seq<byte>, sidx: nat, m: U.Machine)
    requires sidx <= |src|
    ensures
      var r := U.UnpackProgram(ds, src, sidx, m);
      && (r.Ok? <==> Runs(ds))
      && (r.Ok? ==> |r.progress.values| == Entries(ds, src, sidx, m) && sidx <= r.progress.sidx <= |src|)
    decreases |ds|
  {
    hide U.UnpackMany, U.UnpackLength, EntriesOf;
    if ds != [] && ds[0].Some? && !Endless(ds[0].value) {
      var d := ds[0].value;
      DirectiveFillsEntries(d, src, sidx, m);
      UnpackFillsTemplate(ds[1..], src, ReadBy(d, src, sidx, m).sidx, m);
      assert Runs(ds) <==> Runs(ds[1..]);
    }
  }

  /** The first directive that cannot be run decides: a rejected modifier raises, base64 with `*` never ends. */
  lemma {:induction false} FirstFailure(ds: seq<Option<Directive>>, k: nat, src: seq<byte>, sidx: nat, m: U.Machine)
    requires sidx <= |src| && k < |ds| && Runs(ds[..k]) && !Runs(ds[..k + 1])
    ensures U.UnpackProgram(ds, src, sidx, m) == if ds[k].None? then U.ArgumentError else U.Diverges
    decreases k
  {
    hide U.UnpackMany, U.UnpackLength;
    if k == 0 {
      assert ds[..1] == [ds[0]];
    } else {
      assert ds[..k][0] == ds[0] && ds[1..][..k - 1] == ds[..k][1..] && ds[1..][..k] == ds[..k + 1][1..];
      var d := ds[0].value;
      assert !Runs(ds[1..][..k]) by {
        var i :| 0 <= i < k + 1 && !(ds[..k + 1][i].Some? && !Endless(ds[..k + 1][i].value));
        assert i > 0 && ds[1..][..k][i - 1] == ds[..k + 1][i];
      }
      FirstFailure(ds[1..], k - 1, src, ReadBy(d, src, sidx, m).sidx, m);
    }
  }

  // ---------------------------------------------------------------------------
  // The repeat loop, turn by turn

  /** A point of the repeat loop. */
  datatype Loop = Left | At(count: Repetition, sidx: nat)

  predicate InSource(l: Loop, src: seq<byte>) {
    l.At? ==> l.sidx <= |src|
  }

  /** One turn of the loop: it is left when no more is asked for or the source is too short. */
  function Turn(d: Directive, l: Loop, src: seq<byte>, m: U.Machine): (r: Loop)
    requires U.Repeats(d) && InSource(l, src)
    ensures InSource(r, src)
  {
    if l.Left? || l.count == 0 || |src| - l.sidx < d.Size() then Left
    else At(Less(l.count), U.UnpackOne(d, src, l.sidx, m).sidx)
  }

  function Turns(d: Directive, l: Loop, src: seq<byte>, n: nat, m: U.Machine): (r: Loop)
    requires U.Repeats(d) && InSource(l, src)
    ensures InSource(r, src)
    decreases n
  {
    if n == 0 then l else Turns(d, Turn(d, l, src, m), src, n - 1, m)
  }

  /** The most turns a loop that ends can make. */
  function Bound(count: Repetition, rest: nat): nat {
    1 + if count >= 0 then count else rest
  }

  lemma {:induction false} LeftStaysLeft(d: Directive, src: seq<byte>, n: nat, m: U.Machine)
    requires U.Repeats(d)
    ensures Turns(d, Left, src, n, m) == Left
    decreases n
  {
    if n > 0 {
      LeftStaysLeft(d, src, n - 1, m);
    }
  }

  /** Base64 with `*` is still in the loop after any number of turns. */
  lemma {:induction false} Base64StarNeverEnds(d: Directive, src: seq<byte>, sidx: nat, n: nat, m: U.Machine)
    requires Endless(d) && sidx <= |src|
    ensures
      var l := Turns(d, At(-1, sidx), src, n, m);
      l.At? && l.count == -1 && l.sidx >= sidx
    decreases n
  {
    hide Base64.Unpacked;
    if n > 0 {
      Base64StarNeverEnds(d, src, U.UnpackOne(d, src, sidx, m).sidx, n - 1, m);
    }
  }

  /** Every other repeat loop has been left after as many turns as it can make. */
  lemma {:induction false} OtherLoopsEnd(d: Directive, count: Repetition, src: seq<byte>, sidx: nat, m: U.Machine)
    requires U.Repeats(d) && sidx <= |src| && !(d.dir == Base64Dir && count == -1)
    ensures Turns(d, At(count, sidx), src, Bound(count, |src| - sidx), m) == Left
    decreases if count >= 0 then count else |src| - sidx
  {
    hide U.UnpackOne;
    var n: nat := Bound(count, |src| - sidx) - 1;
    if count == 0 || |src| - sidx < d.Size() {
      LeftStaysLeft(d, src, n, m);
    } else {
      var next := U.UnpackOne(d, src, sidx, m).sidx;
      OtherLoopsEnd(d, Less(count), src, next, m);
      var k := Bound(Less(count), |src| - next);
      TurnsMore(d, At(Less(count), next), src, k, n - k, m);
    }
  }

  lemma {:induction false} TurnsMore(d: Directive, l: Loop, src: seq<byte>, k: nat, more: nat, m: U.Machine)
    requires U.Repeats(d) && InSource(l, src) && Turns(d, l, src, k, m) == Left
    ensures Turns(d, l, src, k + more, m) == Left
    decreases k
  {
    hide Turn;
    if k == 0 {
      LeftStaysLeft(d, src, more, m);
    } else {
      TurnsMore(d, Turn(d, l, src, m), src, k - 1, more, m);
    }
  }
}
