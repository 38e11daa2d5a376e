/** Array#pack: the interpreter that runs a template over an array. */
module Pack {
  import opened Bytes
  import opened Template
  import opened TemplateText
  import opened PackBuffer
  import Integers
  import PaddedString
  import Hex
  import Base64

  /** A Ruby value: a Float is known by the integer its `to_i` gives; any other object is `Nil`. */
  datatype Value = Fixnum(n: int) | Float(toI: int) | Str(bytes: seq<byte>) | Nil

  /** `Overrun`: a directive stored past the end of the buffer, so what follows is undefined. */
  datatype Outcome<+T> = Ok(value: T) | TypeError | ArgumentError | Overrun

  /** The bytes packed so far and the capacity of their buffer. */
  datatype Output = Output(bytes: seq<byte>, cap: nat)

  function WidthOf(dir: Dir): Integers.Width {
    match dir
    case CharDir => Integers.Char
    case ShortDir => Integers.Short
    case _ => Integers.Long
  }

  function StyleOf(flags: Flags): PaddedString.Style {
    if flags.nulEnd then PaddedString.NulEnd
    else if flags.nulPad then PaddedString.Nul
    else PaddedString.Space
  }

  /** `bytes` stored after `len` bytes were reserved for them. */
  function Appended(out: Output, bytes: seq<byte>, len: nat): Outcome<Output>
    requires out.cap > 0
  {
    var cap := Grow(out.cap, |out.bytes| + len);
    if |out.bytes| + |bytes| <= cap then Ok(Output(out.bytes + bytes, cap)) else Overrun
  }

  /** One element under one directive. */
  function PackOne(d: Directive, count: Repetition, o: Value, out: Output): (r: Outcome<Output>)
    requires out.cap > 0
    ensures r.Ok? ==> r.value.cap > 0
  {
    if d.IsInteger() then
      if o.Fixnum? || o.Float? then
        var bytes := Integers.PackedInt(WidthOf(d.dir), if o.Float? then o.toI else o.n, d.flags.little);
        Appended(out, bytes, |bytes|)
      else TypeError
    else if d.IsString() then
      if !o.Str? then TypeError
      else if d.dir == Base64Dir then
        Appended(out, Base64.PackedText(o.bytes, count), Base64.Reserved(|o.bytes|, count))
      else if d.dir == HexDir then
        Appended(out, Hex.PackedHex(o.bytes, count, d.flags.lsb), Hex.PackCount(o.bytes, count))
      else
        var bytes := PaddedString.PackedStr(o.bytes, count, StyleOf(d.flags));
        Appended(out, bytes, |bytes|)
    else Ok(out)
  }

  function Less(count: Repetition): Repetition {
    if count > 0 then count - 1 else count
  }

  /** The elements from the first one on, until the count is used up. */
  function PackElements(d: Directive, count: Repetition, elements: seq<Value>, out: Output): (r: Outcome<Output>)
    requires out.cap > 0
    ensures r.Ok? ==> r.value.cap > 0
    decreases |elements|
  {
    if elements == [] || (count == 0 && !d.IsWidth()) then Ok(out)
    else
      match PackOne(d, count, elements[0], out)
      case Ok(next) => PackElements(d, Less(count), elements[1..], next)
      case error => error
  }

  /** The directives in order, each over the array from its first element. */
  function PackProgram(ds: seq<Option<Directive>>, elements: seq<Value>, out: Output): (r: Outcome<Output>)
    requires out.cap > 0
    ensures r.Ok? ==> r.value.cap > 0
    decreases |ds|
  {
    if ds == [] then Ok(out)
    else if ds[0].None? then ArgumentError
    else
      var d := ds[0].value;
      var r := if d.dir == InvalidDir then Ok(out) else PackElements(d, d.count, elements, out);
      match r
      case Ok(next) => PackProgram(ds[1..], elements, next)
      case error => error
  }

  // ---------------------------------------------------------------------------
  // The lengths asked for

  /** The space a directive reserves for an element of the right type. */
  function ReservedFor(d: Directive, count: Repetition, o: Value): nat {
    if d.IsInteger() then WidthOf(d.dir).Size()
    else if d.dir == Base64Dir && o.Str? then Base64.Reserved(|o.bytes|, count)
    else if d.dir == HexDir && o.Str? then Hex.PackCount(o.bytes, count)
    else if d.dir == StrDir && o.Str? then |PaddedString.PackedStr(o.bytes, count, StyleOf(d.flags))|
    else 0
  }

  /** The lengths one element asks the buffer for: none if it raises TypeError. */
  function OneRequest(d: Directive, count: Repetition, o: Value, out: Output): seq<nat>
    requires out.cap > 0
  {
    if d.dir == InvalidDir || PackOne(d, count, o, out).TypeError? then [] else [|out.bytes| + ReservedFor(d, count, o)]
  }

  /** The lengths one directive asks for over the array. */
  function ElementRequests(d: Directive, count: Repetition, elements: seq<Value>, out: Output): seq<nat>
    requires out.cap > 0
    decreases |elements|
  {
    if elements == [] || (count == 0 && !d.IsWidth()) then []
    else
      var r := PackOne(d, count, elements[0], out);
      OneRequest(d, count, elements[0], out) +
      if r.Ok? then ElementRequests(d, Less(count), elements[1..], r.value) else []
  }

  /** The lengths a whole template asks for. */
  function Requests(ds: seq<Option<Directive>>, elements: seq<Value>, out: Output): seq<nat>
    requires out.cap > 0
    decreases |ds|
  {
    if ds == [] || ds[0].None? then []
    else
      var d := ds[0].value;
      if d.dir == InvalidDir then Requests(ds[1..], elements, out)
      else
        var r := PackElements(d, d.count, elements, out);
        ElementRequests(d, d.count, elements, out) + if r.Ok? then Requests(ds[1..], elements, r.value) else []
  }

  function Finished(r: Outcome<Output>): Outcome<seq<byte>> {
    match r
    case Ok(out) => Ok(out.bytes)
    case TypeError => TypeError
    case ArgumentError => ArgumentError
    case Overrun => Overrun
  }

  /** The string `elements.pack(template)` returns. */
  function Packed(elements: seq<Value>, template: string, littleEndian: bool): Outcome<seq<byte>> {
    Finished(PackProgram(ReadAll(template, 0, littleEndian), elements, Output([], INITIAL)))
  }

  ghost function View(b: Buffer): Output
    reads b, b.str
    requires b.Valid()
  {
    Output(b.Contents(), b.str.Length)
  }

  /** A buffer operation that ended as `r` and left `out`. */
  function Ended(r: Outcome<()>, out: Output): Outcome<Output> {
    match r
    case Ok(_) => Ok(out)
    case TypeError => TypeError
    case ArgumentError => ArgumentError
    case Overrun => Overrun
  }

  /** The bytes of one element of the right type, and the space reserved for them. */
  method PackBytes(d: Directive, count: Repetition, o: Value) returns (bytes: seq<byte>, len: nat)
    requires d.IsInteger() ==> o.Fixnum? || o.Float?
    requires d.IsString() ==> o.Str?
    requires d.dir != InvalidDir
    ensures forall out: Output :: out.cap > 0 ==> PackOne(d, count, o, out) == Appended(out, bytes, len)
    ensures len == ReservedFor(d, count, o)
  {
    hide Appended;
    match d.dir {
      case CharDir | ShortDir | LongDir =>
        bytes := Integers.PackedInt(WidthOf(d.dir), if o.Float? then o.toI else o.n, d.flags.little);
        len := |bytes|;
      case Base64Dir =>
        bytes, len := Base64.PackM(o.bytes, count);
      case HexDir =>
        bytes, len := Hex.PackH(o.bytes, count, d.flags.lsb);
      case StrDir =>
        bytes, len := PaddedString.PackA(o.bytes, count, StyleOf(d.flags));
    }
  }

  /** Reserves `len` bytes at the end of the buffer and stores `bytes` there. */
  method PutBytes(bytes: seq<byte>, len: nat, b: Buffer) returns (r: Outcome<()>)
    requires b.Valid()
    modifies b, b.str
    ensures b.Valid() && (b.str == old(b.str) || fresh(b.str))
    ensures Appended(old(View(b)), bytes, len) == Ended(r, View(b)) && !r.TypeError?
    ensures b.requests == old(b.requests) + [|old(View(b)).bytes| + len]
  {
    hide Grow;
    var fits := b.Append(bytes, len);
    r := if fits then Ok(()) else Overrun;
  }

  /** Packs one element into the buffer. */
  method PackElement(d: Directive, count: Repetition, o: Value, b: Buffer) returns (r: Outcome<()>)
    requires b.Valid() && d.dir != InvalidDir
    modifies b, b.str
    ensures b.Valid() && (b.str == old(b.str) || fresh(b.str))
    ensures PackOne(d, count, o, old(View(b))) == Ended(r, View(b))
    ensures b.requests == old(b.requests) + OneRequest(d, count, o, old(View(b)))
  {
    hide PackOne, OneRequest, Appended, ReservedFor;
    if d.IsInteger() && !o.Fixnum? && !o.Float? {
      WrongType(d, count, o, View(b));
      assert b.requests + [] == b.requests;
      return TypeError;
    }
    if d.IsString() && !o.Str? {
      WrongType(d, count, o, View(b));
      assert b.requests + [] == b.requests;
      return TypeError;
    }
    ghost var at := View(b);
    var bytes, len := PackBytes(d, count, o);
    RightType(d, count, o, at, bytes, len);
    r := PutBytes(bytes, len, b);
  }

  lemma WrongType(d: Directive, count: Repetition, o: Value, out: Output)
    requires out.cap > 0
    requires (d.IsInteger() && !o.Fixnum? && !o.Float?) || (d.IsString() && !o.Str?)
    ensures PackOne(d, count, o, out) == TypeError && OneRequest(d, count, o, out) == []
  {
  }

  lemma RightType(d: Directive, count: Repetition, o: Value, out: Output, bytes: seq<byte>, len: nat)
    requires out.cap > 0 && d.dir != InvalidDir && len == ReservedFor(d, count, o)
    requires PackOne(d, count, o, out) == Appended(out, bytes, len)
    ensures OneRequest(d, count, o, out) == [|out.bytes| + len]
  {
    hide PackOne, ReservedFor;
  }

  /** Runs one directive over the array. */
  method PackDirective(d: Directive, elements: seq<Value>, b: Buffer) returns (r: Outcome<()>)
    requires b.Valid() && d.dir != InvalidDir
    modifies b, b.str
    ensures b.Valid() && (b.str == old(b.str) || fresh(b.str))
    ensures PackElements(d, d.count, elements, old(View(b))) == Ended(r, View(b))
    ensures b.requests == old(b.requests) + ElementRequests(d, d.count, elements, old(View(b)))
  {
    hide PackOne, OneRequest;
    var count: Repetition, aidx := d.count, 0;
    ghost var all := old(b.requests) + ElementRequests(d, count, elements, View(b));
    assert elements[0..] == elements;
    while aidx < |elements|
      invariant 0 <= aidx <= |elements|
      invariant b.Valid() && (b.str == old(b.str) || fresh(b.str))
      invariant PackElements(d, d.count, elements, old(View(b))) == PackElements(d, count, elements[aidx..], View(b))
      invariant all == b.requests + ElementRequests(d, count, elements[aidx..], View(b))
    {
      if count == 0 && !d.IsWidth() {
        break;
      }
      ghost var before, at := b.requests, View(b);
      assert elements[aidx..][1..] == elements[aidx + 1..];
      r := PackElement(d, count, elements[aidx], b);
      if !r.Ok? {
        assert b.requests + [] == b.requests;
        return;
      }
      SeqAssoc(before, OneRequest(d, count, elements[aidx], at),
               ElementRequests(d, Less(count), elements[aidx + 1..], View(b)));
      if count > 0 {
        count := count - 1;
      }
      aidx := aidx + 1;
    }
    assert b.requests + [] == b.requests;
    return Ok(());
  }

  lemma ProgramStep(ds: seq<Option<Directive>>, elements: seq<Value>, out: Output)
    requires out.cap > 0 && ds != [] && ds[0].Some?
    ensures
      var d := ds[0].value;
      if d.dir == InvalidDir then
        && PackProgram(ds, elements, out) == PackProgram(ds[1..], elements, out)
        && Requests(ds, elements, out) == Requests(ds[1..], elements, out)
      else
        var r, rs := PackElements(d, d.count, elements, out), ElementRequests(d, d.count, elements, out);
        && PackProgram(ds, elements, out) == (if r.Ok? then PackProgram(ds[1..], elements, r.value) else r)
        && Requests(ds, elements, out) == rs + if r.Ok? then Requests(ds[1..], elements, r.value) else []
  {
    hide PackElements, ElementRequests;
  }

  lemma ProgramRaises(ds: seq<Option<Directive>>, elements: seq<Value>, out: Output)
    requires out.cap > 0 && ds != [] && ds[0].None?
    ensures PackProgram(ds, elements, out) == ArgumentError && Requests(ds, elements, out) == []
  {
  }

  lemma ProgramEnds(elements: seq<Value>, out: Output)
    requires out.cap > 0
    ensures PackProgram([], elements, out) == Ok(out) && Requests([], elements, out) == []
  {
  }

  /** Array#pack over its buffer: reads directives until the template ends and runs each from element 0. */
  method PackTemplate(elements: seq<Value>, template: string, littleEndian: bool, b: Buffer) returns (r: Outcome<()>)
    requires b.Valid()
    modifies b, b.str
    ensures b.Valid()
    ensures PackProgram(ReadAll(template, 0, littleEndian), elements, old(View(b))) == Ended(r, View(b))
    ensures b.requests == old(b.requests) + Requests(ReadAll(template, 0, littleEndian), elements, old(View(b)))
  {
    hide PackElements, ElementRequests, PackProgram, Requests, ReadAt;
    var tmpl := new Tmpl(template);
    ghost var start := ReadAll(template, 0, littleEndian);
    ghost var all := old(b.requests) + Requests(start, elements, View(b));
    while tmpl.HasTmpl()
      invariant tmpl.idx <= |tmpl.str| && tmpl.str == template && fresh(tmpl)
      invariant b.Valid() && (b.str == old(b.str) || fresh(b.str))
      invariant PackProgram(start, elements, old(View(b))) ==
                PackProgram(ReadAll(template, tmpl.idx, littleEndian), elements, View(b))
      invariant all == b.requests + Requests(ReadAll(template, tmpl.idx, littleEndian), elements, View(b))
      decreases |template| - tmpl.idx
    {
      ghost var ds, before, at := ReadAll(template, tmpl.idx, littleEndian), b.requests, View(b);
      var reading := tmpl.ReadTmpl(littleEndian);
      if reading.Rejected? {
        ProgramRaises(ds, elements, at);
        assert b.requests + [] == b.requests;
        return ArgumentError;
      }
      assert ds[1..] == ReadAll(template, tmpl.idx, littleEndian);
      ProgramStep(ds, elements, at);
      var d := reading.d;
      if d.dir == InvalidDir {
        continue;
      }
      r := PackDirective(d, elements, b);
      if !r.Ok? {
        assert b.requests + [] == b.requests;
        return;
      }
      SeqAssoc(before, ElementRequests(d, d.count, elements, at), Requests(ds[1..], elements, View(b)));
    }
    ProgramEnds(elements, View(b));
    assert b.requests + [] == b.requests;
    return Ok(());
  }

  /** Array#pack. */
  method PackArray(elements: seq<Value>, template: string, littleEndian: bool) returns (r: Outcome<seq<byte>>)
    ensures r == Packed(elements, template, littleEndian)
  {
    var result := new Buffer();
    hide PackProgram, ReadAll;
    var e := PackTemplate(elements, template, littleEndian, result);
    match e {
      case Ok(_) => r := Ok(result.str[..result.ridx]);
      case TypeError => r := TypeError;
      case ArgumentError => r := ArgumentError;
      case Overrun => r := Overrun;
    }
  }
}
