/** String#unpack: the interpreter that reads values from a string as a template directs. */
module Unpack {
  import opened Bytes
  import opened Template
  import opened TemplateText
  import Pack
  import Integers
  import PaddedString
  import Hex
  import Base64

  type Value = Pack.Value

  /** The four digit slots of the base64 decoder, which start uninitialised. */
  type Slots = s: seq<byte> | |s| == 4 witness [0, 0, 0, 0]

  /**
   * What does not come from the arguments: the machine's byte order, whether `long` is wider
   * than `int`, and what the digit slots hold when decoding starts at a source index.
   */
  datatype Machine = Machine(littleEndian: bool, longWider: bool, slots: nat -> Slots)

  /** The values read and the source index reached. */
  datatype Progress = Progress(values: seq<Value>, sidx: nat)

  function Then(values: seq<Value>, p: Progress): Progress {
    Progress(values + p.values, p.sidx)
  }

  function Nils(n: nat): (r: seq<Value>)
    ensures |r| == n
    ensures forall i :: 0 <= i < n ==> r[i] == Pack.Nil
  {
    seq(n, _ => Pack.Nil)
  }

  /** A directive whose count is a length reads one string. */
  function UnpackLength(d: Directive, src: seq<byte>, sidx: nat): (p: Progress)
    requires sidx <= |src|
    ensures sidx <= p.sidx <= |src|
    ensures |p.values| == if d.dir == HexDir || d.dir == StrDir then 1 else 0
  {
    match d.dir
    case HexDir =>
      var t := Hex.UnpackedHex(src[sidx..], d.count, d.flags.lsb);
      Progress([Pack.Str(t)], sidx + (|t| + 1) / 2)
    case StrDir =>
      var t := PaddedString.UnpackedStr(src[sidx..], d.count, Pack.StyleOf(d.flags));
      Progress([Pack.Str(t)], sidx + |t|)
    case _ => Progress([], sidx)
  }

  /** The directives that `UnpackMany` runs. */
  predicate Repeats(d: Directive) {
    d.IsInteger() || d.dir == Base64Dir
  }

  /** One value of a repeated directive, when enough of the source is left. */
  function UnpackOne(d: Directive, src: seq<byte>, sidx: nat, m: Machine): (p: Progress)
    requires Repeats(d) && sidx + d.Size() <= |src|
    ensures |p.values| == 1 && sidx + d.Size() <= p.sidx <= |src|
    ensures d.IsInteger() ==> p.sidx == sidx + d.Size()
  {
    if d.dir == Base64Dir then
      var r := Base64.Unpacked(src[sidx..], m.slots(sidx));
      Progress([Pack.Str(r.bytes)], sidx + r.used)
    else
      var bytes := src[sidx..sidx + d.Size()];
      var n := Integers.UnpackedInt(Pack.WidthOf(d.dir), bytes, d.flags.little, d.flags.signed, m.longWider);
      Progress([Pack.Fixnum(n)], sidx + d.Size())
  }

  /** `count` values; once the source is too short, a nil for each one that is missing. */
  function UnpackMany(d: Directive, count: Repetition, src: seq<byte>, sidx: nat, m: Machine): (p: Progress)
    requires Repeats(d) && sidx <= |src| && (d.dir == Base64Dir ==> count >= 0)
    ensures sidx <= p.sidx <= |src|
    decreases if count >= 0 then count else |src| - sidx
  {
    if count == 0 then Progress([], sidx)
    else if |src| - sidx < d.Size() then Progress(Nils(if count > 0 then count else 0), sidx)
    else
      var p := UnpackOne(d, src, sidx, m);
      Then(p.values, UnpackMany(d, Pack.Less(count), src, p.sidx, m))
  }

  /** `Diverges`: the template holds a base64 directive with `*`, whose loop never ends. */
  datatype Outcome = Ok(progress: Progress) | ArgumentError | Diverges

  function Prefixed(values: seq<Value>, r: Outcome): Outcome {
    match r
    case Ok(p) => Ok(Then(values, p))
    case error => error
  }

  /** The directives in order, each from the source index the one before it reached. */
  function UnpackProgram(ds: seq<Option<Directive>>, src: seq<byte>, sidx: nat, m: Machine): (r: Outcome)
    requires sidx <= |src|
    ensures r.Ok? ==> sidx <= r.progress.sidx <= |src|
    decreases |ds|
  {
    if ds == [] then Ok(Progress([], sidx))
    else if ds[0].None? then ArgumentError
    else
      var d := ds[0].value;
      if d.dir == InvalidDir then UnpackProgram(ds[1..], src, sidx, m)
      else if d.dir == Base64Dir && d.count == -1 then Diverges
      else
        var p := if d.IsLength() then UnpackLength(d, src, sidx) else UnpackMany(d, d.count, src, sidx, m);
        Prefixed(p.values, UnpackProgram(ds[1..], src, p.sidx, m))
  }

  /** The array `src.unpack(template)` returns, with the source index at the end. */
  function Unpacked(src: seq<byte>, template: string, m: Machine): Outcome {
    UnpackProgram(ReadAll(template, 0, m.littleEndian), src, 0, m)
  }

  /** Runs one directive whose count is a length. */
  method UnpackLengthDirective(d: Directive, src: seq<byte>, sidx: nat) returns (values: seq<Value>, next: nat)
    requires sidx <= |src|
    ensures Progress(values, next) == UnpackLength(d, src, sidx)
  {
    values, next := [], sidx;
    match d.dir {
      case HexDir =>
        var t, used := Hex.UnpackH(src[sidx..], d.count, d.flags.lsb);
        values, next := values + [Pack.Str(t)], next + used;
      case StrDir =>
        var t := PaddedString.UnpackA(src[sidx..], d.count, Pack.StyleOf(d.flags));
        values, next := values + [Pack.Str(t)], next + |t|;
      case _ =>
    }
  }

  /** Pushes a nil for each value still asked for; `*` asks for none. */
  method PushNils(values: seq<Value>, count: Repetition) returns (r: seq<Value>)
    ensures r == values + Nils(if count > 0 then count else 0)
  {
    r := values;
    var left: Repetition := count;
    while left > 0
      invariant count > 0 ==> left >= 0
      invariant r == values + Nils(if count > 0 then count - left else 0)
    {
      r := r + [Pack.Nil];
      left := left - 1;
    }
  }

  /** Runs one repeated directive. */
  method UnpackManyDirective(d: Directive, src: seq<byte>, start: nat, m: Machine)
    returns (values: seq<Value>, sidx: nat)
    requires Repeats(d) && start <= |src| && (d.dir == Base64Dir ==> d.count >= 0)
    ensures Progress(values, sidx) == UnpackMany(d, d.count, src, start, m)
  {
    hide Base64.Unpacked, Integers.UnpackedInt, UnpackMany;
    var count: Repetition := d.count;
    values, sidx := [], start;
    ThenThen(values, [], UnpackMany(d, count, src, start, m));
    while count != 0
      invariant start <= sidx <= |src| && (d.dir == Base64Dir ==> count >= 0)
      invariant UnpackMany(d, d.count, src, start, m) == Then(values, UnpackMany(d, count, src, sidx, m))
      decreases if count >= 0 then count else |src| - sidx
    {
      if |src| - sidx < d.Size() {
        UnpackManyEnds(d, count, src, sidx, m);
        values := PushNils(values, count);
        return;
      }
      UnpackManyStep(d, count, src, sidx, m);
      ghost var before, p := values, UnpackOne(d, src, sidx, m);
      if d.dir == Base64Dir {
        var bytes, used := Base64.UnpackM(src[sidx..], m.slots(sidx));
        values, sidx := values + [Pack.Str(bytes)], sidx + used;
      } else {
        var bytes := src[sidx..sidx + d.Size()];
        var n := Integers.UnpackedInt(Pack.WidthOf(d.dir), bytes, d.flags.little, d.flags.signed, m.longWider);
        values, sidx := values + [Pack.Fixnum(n)], sidx + d.Size();
      }
      if count > 0 {
        count := count - 1;
      }
      ThenThen(before, p.values, UnpackMany(d, count, src, sidx, m));
    }
    UnpackManyEnds(d, count, src, sidx, m);
    assert values + [] == values;
  }

  lemma UnpackManyEnds(d: Directive, count: Repetition, src: seq<byte>, sidx: nat, m: Machine)
    requires Repeats(d) && sidx <= |src| && (d.dir == Base64Dir ==> count >= 0)
    requires count == 0 || |src| - sidx < d.Size()
    ensures UnpackMany(d, count, src, sidx, m) == Progress(Nils(if count > 0 then count else 0), sidx)
  {
  }

  lemma UnpackManyStep(d: Directive, count: Repetition, src: seq<byte>, sidx: nat, m: Machine)
    requires Repeats(d) && sidx <= |src| && (d.dir == Base64Dir ==> count >= 0)
    requires count != 0 && |src| - sidx >= d.Size()
    ensures
      var p := UnpackOne(d, src, sidx, m);
      UnpackMany(d, count, src, sidx, m) == Then(p.values, UnpackMany(d, Pack.Less(count), src, p.sidx, m))
  {
    hide UnpackOne;
  }

  lemma ThenThen(a: seq<Value>, b: seq<Value>, p: Progress)
    ensures Then(a, Then(b, p)) == Then(a + b, p)
    ensures Then([], p) == p && Then(a, Progress([], p.sidx)) == Progress(a, p.sidx)
  {
  }

  /** String#unpack.  A base64 directive with `*` is recognised where the source would loop. */
  method UnpackString(src: seq<byte>, template: string, m: Machine) returns (r: Outcome)
    ensures r == Unpacked(src, template, m)
  {
    hide UnpackLength, UnpackMany, ReadAt;
    var tmpl := new Tmpl(template);
    var result: seq<Value>, sidx: nat := [], 0;
    while tmpl.HasTmpl()
      invariant tmpl.idx <= |tmpl.str| && tmpl.str == template && fresh(tmpl) && sidx <= |src|
      invariant Unpacked(src, template, m) ==
                Prefixed(result, UnpackProgram(ReadAll(template, tmpl.idx, m.littleEndian), src, sidx, m))
      decreases |template| - tmpl.idx
    {
      ghost var ds := ReadAll(template, tmpl.idx, m.littleEndian);
      var reading := tmpl.ReadTmpl(m.littleEndian);
      if reading.Rejected? {
        return ArgumentError;
      }
      var d := reading.d;
      assert ds[1..] == ReadAll(template, tmpl.idx, m.littleEndian);
      if d.dir == InvalidDir {
        continue;
      }
      var values;
      if d.IsLength() {
        values, sidx := UnpackLengthDirective(d, src, sidx);
      } else if d.dir == Base64Dir && d.count == -1 {
        return Diverges;
      } else {
        values, sidx := UnpackManyDirective(d, src, sidx, m);
      }
      PrefixedTwice(result, values, UnpackProgram(ds[1..], src, sidx, m));
      result := result + values;
    }
    PrefixedTwice(result, [], Ok(Progress([], sidx)));
    return Ok(Progress(result, sidx));
  }

  lemma PrefixedTwice(a: seq<Value>, b: seq<Value>, r: Outcome)
    ensures Prefixed(a, Prefixed(b, r)) == Prefixed(a + b, r)
    ensures Prefixed([], r) == r
    ensures r.Ok? && r.progress.values == [] ==> Prefixed(a, r) == Ok(Progress(a, r.progress.sidx))
  {
  }
}
