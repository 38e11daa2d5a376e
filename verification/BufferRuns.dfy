/** The capacity of the result string over whole runs of Array#pack. */
module BufferRuns {
  import opened Bytes
  import opened Template
  import opened TemplateText
  import opened Pack
  import opened PackBuffer
  import Base64
  import Hex
  import Integers
  import PaddedString

  /** An element of the right type is stored after the space reserved for it. */
  lemma OneIsAppended(d: Directive, count: Repetition, o: Value, out: Output) returns (bytes: seq<byte>)
    requires out.cap > 0 && d.dir != InvalidDir && !PackOne(d, count, o, out).TypeError?
    ensures PackOne(d, count, o, out) == Appended(out, bytes, ReservedFor(d, count, o))
  {
    hide Appended, Integers.PackedInt, StyleOf, WidthOf;
    hide Base64.PackedText, Base64.Reserved, Hex.PackedHex, Hex.PackCount, PaddedString.PackedStr;
    match d.dir {
      case CharDir | ShortDir | LongDir =>
        bytes := Integers.PackedInt(WidthOf(d.dir), if o.Float? then o.toI else o.n, d.flags.little);
      case Base64Dir =>
        bytes := Base64.PackedText(o.bytes, count);
      case HexDir =>
        bytes := Hex.PackedHex(o.bytes, count, d.flags.lsb);
      case StrDir =>
        bytes := PaddedString.PackedStr(o.bytes, count, StyleOf(d.flags));
    }
  }

  lemma OneCapacity(d: Directive, count: Repetition, o: Value, out: Output)
    requires out.cap > 0 && d.dir != InvalidDir
    ensures
      var r := PackOne(d, count, o, out);
      r.Ok? ==> r.value.cap == Capacity(out.cap, OneRequest(d, count, o, out)) && |r.value.bytes| <= r.value.cap
  {
    hide PackOne, ReservedFor, Grow;
    if PackOne(d, count, o, out).Ok? {
      var bytes := OneIsAppended(d, count, o, out);
      var len := |out.bytes| + ReservedFor(d, count, o);
      OneMoreRequest(out.cap, [], len);
      assert [] + [len] == OneRequest(d, count, o, out);
    }
  }

  lemma {:induction false} ElementsCapacity(d: Directive, count: Repetition, elements: seq<Value>, out: Output)
    requires out.cap > 0 && d.dir != InvalidDir && |out.bytes| <= out.cap
    ensures
      var r := PackElements(d, count, elements, out);
      r.Ok? ==>
        r.value.cap == Capacity(out.cap, ElementRequests(d, count, elements, out)) && |r.value.bytes| <= r.value.cap
    decreases |elements|
  {
    hide PackOne, OneRequest, Capacity;
    if elements == [] || (count == 0 && !d.IsWidth()) {
      NoRequest(out.cap);
    } else {
      OneCapacity(d, count, elements[0], out);
      var r := PackOne(d, count, elements[0], out);
      if r.Ok? {
        ElementsCapacity(d, Less(count), elements[1..], r.value);
        CapacityAppend(out.cap, OneRequest(d, count, elements[0], out),
                       ElementRequests(d, Less(count), elements[1..], r.value));
      }
    }
  }

  lemma NoRequest(cap: nat)
    requires cap > 0
    ensures Capacity(cap, []) == cap
  {
  }

  lemma {:induction false} ProgramCapacity(ds: seq<Option<Directive>>, elements: seq<Value>, out: Output)
    requires out.cap > 0 && |out.bytes| <= out.cap
    ensures
      var r := PackProgram(ds, elements, out);
      r.Ok? ==> r.value.cap == Capacity(out.cap, Requests(ds, elements, out)) && |r.value.bytes| <= r.value.cap
    decreases |ds|
  {
    hide PackElements, ElementRequests, PackProgram, Requests, Capacity;
    if ds == [] {
      ProgramEnds(elements, out);
      NoRequest(out.cap);
    } else if ds[0].None? {
      ProgramRaises(ds, elements, out);
    } else {
      ProgramStep(ds, elements, out);
      var d := ds[0].value;
      if d.dir == InvalidDir {
        ProgramCapacity(ds[1..], elements, out);
      } else {
        ElementsCapacity(d, d.count, elements, out);
        var r := PackElements(d, d.count, elements, out);
        if r.Ok? {
          ProgramCapacity(ds[1..], elements, r.value);
          CapacityAppend(out.cap, ElementRequests(d, d.count, elements, out), Requests(ds[1..], elements, r.value));
        }
      }
    }
  }

  /** The lengths that `elements.pack(template)` asks its buffer for. */
  function AllRequests(elements: seq<Value>, template: string, littleEndian: bool): seq<nat> {
    Requests(ReadAll(template, 0, littleEndian), elements, Output([], INITIAL))
  }

  /**
   * After any run the capacity is the least doubling of 128 that covers every length asked for;
   * it holds the result; it stays below twice the largest length, if that is more than 128; and
   * all reallocations of the run together copied less than it.
   */
  lemma FinalCapacity(elements: seq<Value>, template: string, littleEndian: bool, k: nat)
    ensures
      var rs := AllRequests(elements, template, littleEndian);
      var r := PackProgram(ReadAll(template, 0, littleEndian), elements, Output([], INITIAL));
      r.Ok? ==>
        var cap := r.value.cap;
        && |r.value.bytes| <= cap
        && (exists j: nat :: cap == Doubled(INITIAL, j))
        && (forall i :: 0 <= i < |rs| ==> rs[i] <= cap)
        && ((forall i :: 0 <= i < |rs| ==> rs[i] <= Doubled(INITIAL, k)) ==> cap <= Doubled(INITIAL, k))
        && (Largest(rs) > INITIAL ==> cap < 2 * Largest(rs))
        && Copied(INITIAL, rs) + INITIAL <= cap
  {
    var rs := AllRequests(elements, template, littleEndian);
    var ds := ReadAll(template, 0, littleEndian);
    ProgramCapacity(ds, elements, Output([], INITIAL));
    hide PackProgram, Requests, ReadAll, Capacity, Grow, Copied, Doubled;
    CapacityIsLargest(INITIAL, rs);
    GrowIsLeastDoubling(INITIAL, Largest(rs), k);
    GrowStaysBelowTwice(INITIAL, Largest(rs));
    CopiedIsBounded(INITIAL, rs);
  }

  // ---------------------------------------------------------------------------
  // Staying in the buffer

  /** The directive can take the element. */
  predicate Accepts(d: Directive, o: Value) {
    (d.IsInteger() ==> o.Fixnum? || o.Float?) && (d.IsString() ==> o.Str?)
  }

  /** How many bytes an element is written as, from its length and the count alone. */
  function WrittenBy(d: Directive, count: Repetition, o: Value): nat
    requires Accepts(d, o)
  {
    match d.dir
    case CharDir | ShortDir | LongDir => WidthOf(d.dir).Size()
    case Base64Dir => Base64.TextLength(|o.bytes|, count)
    case HexDir => (Hex.PackCount(o.bytes, count) + 1) / 2
    case StrDir => PaddedLength(|o.bytes|, count, d.flags)
    case InvalidDir => 0
  }

  /** How many bytes are reserved for it. */
  function SpaceFor(d: Directive, count: Repetition, o: Value): nat
    requires Accepts(d, o)
  {
    match d.dir
    case CharDir | ShortDir | LongDir => WidthOf(d.dir).Size()
    case Base64Dir => Base64.Reserved(|o.bytes|, count)
    case HexDir => Hex.PackCount(o.bytes, count)
    case StrDir => PaddedLength(|o.bytes|, count, d.flags)
    case InvalidDir => 0
  }

  function PaddedLength(n: nat, count: Repetition, flags: Flags): nat {
    if count >= 0 then count else if flags.nulEnd then n + 1 else n
  }

  /** How a run ends: within its buffer, with an error raised, or with a store past the end. */
  datatype Fate = Stays(len: nat, cap: nat) | RaisesType | RaisesArgument | Overruns

  predicate Ends(r: Outcome<Output>, f: Fate) {
    match r
    case Ok(out) => f == Stays(|out.bytes|, out.cap)
    case Overrun => f == Overruns
    case TypeError => f == RaisesType
    case ArgumentError => f == RaisesArgument
  }

  function ElementsFate(d: Directive, count: Repetition, elements: seq<Value>, len: nat, cap: nat): (f: Fate)
    requires cap > 0
    ensures f.Stays? ==> f.cap > 0
    decreases |elements|
  {
    if elements == [] || (count == 0 && !d.IsWidth()) then Stays(len, cap)
    else if !Accepts(d, elements[0]) then RaisesType
    else
      var end := len + WrittenBy(d, count, elements[0]);
      var grown := Grow(cap, len + SpaceFor(d, count, elements[0]));
      if end > grown then Overruns else ElementsFate(d, Less(count), elements[1..], end, grown)
  }

  /** The fate of a template on an array, from lengths alone. */
  function ProgramFate(ds: seq<Option<Directive>>, elements: seq<Value>, len: nat, cap: nat): Fate
    requires cap > 0
    decreases |ds|
  {
    if ds == [] then Stays(len, cap)
    else if ds[0].None? then RaisesArgument
    else if ds[0].value.dir == InvalidDir then ProgramFate(ds[1..], elements, len, cap)
    else
      var f := ElementsFate(ds[0].value, ds[0].value.count, elements, len, cap);
      if f.Stays? then ProgramFate(ds[1..], elements, f.len, f.cap) else f
  }

  lemma OneFate(d: Directive, count: Repetition, o: Value, out: Output)
    requires out.cap > 0 && d.dir != InvalidDir
    ensures
      if !Accepts(d, o) then PackOne(d, count, o, out) == TypeError
      else
        var end, grown := |out.bytes| + WrittenBy(d, count, o), Grow(out.cap, |out.bytes| + SpaceFor(d, count, o));
        Ends(PackOne(d, count, o, out), if end <= grown then Stays(end, grown) else Overruns)
  {
    hide Grow, Integers.PackedInt, Base64.PackedText, Base64.Reserved, Base64.TextLength;
    if d.dir == Base64Dir && o.Str? {
      Base64.TextHasLength(o.bytes, count);
    }
  }

  lemma {:induction false} ElementsEnd(d: Directive, count: Repetition, elements: seq<Value>, out: Output)
    requires out.cap > 0 && d.dir != InvalidDir
    ensures Ends(PackElements(d, count, elements, out), ElementsFate(d, count, elements, |out.bytes|, out.cap))
    decreases |elements|
  {
    hide PackOne, WrittenBy, SpaceFor, Accepts, Grow;
    if elements != [] && (count != 0 || d.IsWidth()) {
      OneFate(d, count, elements[0], out);
      var r := PackOne(d, count, elements[0], out);
      if r.Ok? {
        ElementsEnd(d, Less(count), elements[1..], r.value);
      }
    }
  }

  /** Every run of every template ends as the lengths say. */
  lemma {:induction false} ProgramEnd(ds: seq<Option<Directive>>, elements: seq<Value>, out: Output)
    requires out.cap > 0
    ensures Ends(PackProgram(ds, elements, out), ProgramFate(ds, elements, |out.bytes|, out.cap))
    decreases |ds|
  {
    hide PackElements, ElementsFate;
    if ds != [] && ds[0].Some? {
      var d := ds[0].value;
      if d.dir == InvalidDir {
        ProgramEnd(ds[1..], elements, out);
      } else {
        ElementsEnd(d, d.count, elements, out);
        var r := PackElements(d, d.count, elements, out);
        if r.Ok? {
          ProgramEnd(ds[1..], elements, r.value);
        }
      }
    }
  }

  /** A whole call overruns its buffer exactly when the lengths of its elements and its counts say so. */
  lemma CallFate(elements: seq<Value>, template: string, littleEndian: bool)
    ensures
      var r, f := Packed(elements, template, littleEndian),
                  ProgramFate(ReadAll(template, 0, littleEndian), elements, 0, INITIAL);
      && (r.Overrun? <==> f.Overruns?)
      && (r.TypeError? <==> f.RaisesType?) && (r.ArgumentError? <==> f.RaisesArgument?)
      && (r.Ok? <==> f.Stays?) && (r.Ok? ==> |r.value| == f.len)
  {
    ProgramEnd(ReadAll(template, 0, littleEndian), elements, Output([], INITIAL));
    hide PackProgram, ProgramFate, ReadAll;
  }
}
