/**
 * UEFI::Guid: the text form of section 3 of RFC 4122 over the mixed-endian bytes of the UEFI
 * Specification, Appendix A.  Texts and data are byte strings.
 */
module Guid {
  import opened Bytes
  import Hex
  import Slices
  import I = Integers
  import Pack
  import PackBuffer
  import PackUnpack
  import Template
  import TemplateText

  const DASH: byte := 45
  const BRACE: byte := 123

  /** `NoDigit`: a field of odd length leaves a digit without its partner, and nil has no `to_i(16)`. */
  datatype Result = Ok(data: seq<byte>) | InvalidGuid | NoDigit

  // ---------------------------------------------------------------------------
  // Reading

  /** String#start_with? of this library: it compares one character too many. */
  predicate StartsWith(s: seq<byte>, p: seq<byte>) {
    s[..Min(|s|, |p| + 1)] == p
  }

  /** So it holds of the prefix itself only, and no brace is ever stripped from a longer text. */
  lemma StartsWithIsEquality(s: seq<byte>, p: seq<byte>)
    ensures StartsWith(s, p) <==> s == p
  {
    if |s| <= |p| + 1 {
      assert s[..|s|] == s;
    }
  }

  /** The fields between dashes. */
  function Fields(s: seq<byte>): (fs: seq<seq<byte>>)
    ensures |fs| > 0
  {
    if s == [] then [[]]
    else if s[0] == DASH then [[]] + Fields(s[1..])
    else
      var fs := Fields(s[1..]);
      [[s[0]] + fs[0]] + fs[1..]
  }

  function DropEmpty(fs: seq<seq<byte>>): seq<seq<byte>> {
    if fs != [] && fs[|fs| - 1] == [] then DropEmpty(fs[..|fs| - 1]) else fs
  }

  /** `split("-")`: empty fields at the end are dropped. */
  function Split(s: seq<byte>): seq<seq<byte>> {
    DropEmpty(Fields(s))
  }

  /** The number of two digits, the high one first. */
  function Number(high: byte, low: byte): (n: byte) {
    Hex.HexToInt(high) * 16 + Hex.HexToInt(low)
  }

  /** A field as numbers, two digits each. */
  function Pairs(f: seq<byte>): (r: seq<byte>)
    requires |f| % 2 == 0
    ensures |r| == |f| / 2
    ensures forall i :: 0 <= i < |r| ==> r[i] == Number(f[2 * i], f[2 * i + 1])
  {
    seq(|f| / 2, i requires 0 <= i < |f| / 2 => Number(f[2 * i], f[2 * i + 1]))
  }

  predicate Even(fs: seq<seq<byte>>) {
    forall i :: 0 <= i < |fs| ==> |fs[i]| % 2 == 0
  }

  /** The bytes of a text: the first three fields backwards, the last two as they stand. */
  function Parsed(text: seq<byte>): Result {
    if |text| == 16 then Ok(text)
    else if StartsWith(text, [BRACE]) then InvalidGuid
    else
      var fs := Split(text);
      if |fs| != 5 then InvalidGuid
      else if !Even(fs) then NoDigit
      else Ok(FiveFields(fs))
  }

  function FiveFields(fs: seq<seq<byte>>): seq<byte>
    requires |fs| == 5 && Even(fs)
  {
    I.Reverse(Pairs(fs[0])) + I.Reverse(Pairs(fs[1])) + I.Reverse(Pairs(fs[2])) + Pairs(fs[3]) + Pairs(fs[4])
  }

  lemma {:induction false} ReverseAt(s: seq<byte>, k: nat)
    requires k < |s|
    ensures I.Reverse(s)[k] == s[|s| - 1 - k]
  {
    if k < |s| - 1 {
      ReverseAt(s[1..], k);
    }
  }

  /** The digits of a field, in the order they are read. */
  method Chars(field: seq<byte>, backwards: bool) returns (chars: seq<byte>)
    ensures chars == if backwards then I.Reverse(field) else field
  {
    chars := [];
    for i := 0 to |field|
      invariant chars == field[..i]
    {
      chars := chars + [field[i]];
    }
    assert field[..|field|] == field;
    if backwards {
      chars := I.Reverse(chars);
    }
  }

  /** Appends the numbers of a field: its digits in pairs, low digit first when read backwards. */
  method PushField(numbers: seq<int>, field: seq<byte>, backwards: bool) returns (r: seq<int>, ok: bool)
    ensures ok <==> |field| % 2 == 0
    ensures ok ==> r == numbers + if backwards then I.Reverse(Pairs(field)) else Pairs(field)
  {
    var chars := Chars(field, backwards);
    var pairs := Slices.EachSlice(chars, 2);
    PairOfSlices(chars);
    r, ok := numbers, true;
    if |field| % 2 == 1 {
      return r, false;
    }
    for i := 0 to |pairs|
      invariant |r| == |numbers| + i && r[..|numbers|] == numbers
      invariant forall k :: 0 <= k < i ==> r[|numbers| + k] == NumberOf(chars[2 * k], chars[2 * k + 1], backwards)
    {
      var a, b := pairs[i][0], pairs[i][1];
      r := r + [if backwards then Hex.HexToInt(a) + Hex.HexToInt(b) * 16 else Hex.HexToInt(a) * 16 + Hex.HexToInt(b)];
    }
    NumbersOfField(field, backwards, r[|numbers|..]);
    assert r == numbers + r[|numbers|..];
  }

  function NumberOf(a: byte, b: byte, backwards: bool): byte {
    if backwards then Number(b, a) else Number(a, b)
  }

  lemma {:induction false} PairOfSlices(s: seq<byte>)
    ensures |Slices.Slices(s, 2)| == (|s| + 1) / 2
    ensures forall i :: 0 <= i < |s| / 2 ==> Slices.Slices(s, 2)[i] == [s[2 * i], s[2 * i + 1]]
    decreases |s|
  {
    if |s| > 2 {
      PairOfSlices(s[2..]);
    }
  }

  lemma NumbersOfField(field: seq<byte>, backwards: bool, r: seq<int>)
    requires |field| % 2 == 0 && |r| == |field| / 2
    requires var chars := if backwards then I.Reverse(field) else field;
             forall k :: 0 <= k < |r| ==> r[k] == NumberOf(chars[2 * k], chars[2 * k + 1], backwards)
    ensures r == if backwards then I.Reverse(Pairs(field)) else Pairs(field)
  {
    hide Number, I.Reverse;
    if backwards {
      forall k | 0 <= k < |r|
        ensures r[k] == I.Reverse(Pairs(field))[k]
      {
        NumberBackwards(field, |r|, k);
      }
    }
  }

  lemma ReverseIs(s: seq<byte>, k: nat, j: nat)
    requires k < |s| && j + k + 1 == |s|
    ensures I.Reverse(s)[k] == s[j]
  {
    ReverseAt(s, k);
  }

  /** The pair of digits at `k` backwards is the pair at `j` forwards, its digits swapped. */
  lemma DigitsBackwards(field: seq<byte>, k: nat, j: nat)
    requires |field| == 2 * (k + j + 1)
    ensures I.Reverse(field)[2 * k] == field[2 * j + 1] && I.Reverse(field)[2 * k + 1] == field[2 * j]
  {
    hide I.Reverse;
    ReverseIs(field, 2 * k, 2 * j + 1);
    ReverseIs(field, 2 * k + 1, 2 * j);
  }

  lemma PairBackwards(field: seq<byte>, k: nat, j: nat)
    requires |field| == 2 * (k + j + 1)
    ensures |Pairs(field)| == k + j + 1 && I.Reverse(Pairs(field))[k] == Number(field[2 * j], field[2 * j + 1])
  {
    hide I.Reverse, Number;
    ReverseIs(Pairs(field), k, j);
  }

  lemma NumberBackwards(field: seq<byte>, n: nat, k: nat)
    requires |field| == 2 * n && k < n
    ensures NumberOf(I.Reverse(field)[2 * k], I.Reverse(field)[2 * k + 1], true) == I.Reverse(Pairs(field))[k]
  {
    hide Number, I.Reverse, Pairs;
    DigitsBackwards(field, k, n - 1 - k);
    PairBackwards(field, k, n - 1 - k);
  }

  const CHARS := TemplateText.Item('C', "", TemplateText.Star)

  /** `numbers.pack("C*")` gives the numbers as bytes. */
  lemma PackChars(bytes: seq<byte>, littleEndian: bool)
    ensures Pack.Packed(PackUnpack.Fixnums(bytes), "C*", littleEndian) == Pack.Ok(bytes)
  {
    var d := TemplateText.Meaning(CHARS, littleEndian);
    PackUnpack.ReadOne(CHARS, littleEndian);
    assert TemplateText.RenderAll([CHARS]) == "C*" by {
      assert [CHARS][1..] == [];
    }
    assert d.dir == Template.CharDir && d.count == -1;
    hide TemplateText.ReadAll, TemplateText.RenderAll, TemplateText.Meaning;
    var out := Pack.Output([], PackBuffer.INITIAL);
    PackUnpack.PackIntegers(d, -1, bytes, out);
    CharBytes(bytes, d.flags.little);
    assert bytes[..|bytes|] == bytes && [] + bytes == bytes;
    hide Pack.PackElements;
    var r := Pack.PackElements(d, -1, PackUnpack.Fixnums(bytes), out);
    assert [Some(d)][1..] == [];
    assert Pack.PackProgram([Some(d)], PackUnpack.Fixnums(bytes), out) == r;
  }

  lemma {:induction false} CharBytes(bytes: seq<byte>, little: bool)
    ensures PackUnpack.IntBytes(I.Char, little, bytes) == bytes
  {
    if bytes != [] {
      CharBytes(bytes[1..], little);
    }
  }

  // ---------------------------------------------------------------------------
  // Printing

  /** `n.to_s(16)` of a byte. */
  function ToS16(n: byte): (t: seq<byte>)
    ensures 1 <= |t| <= 2
  {
    if n < 16 then [Hex.HexChar(n)] else [Hex.HexChar(n / 16), Hex.HexChar(n % 16)]
  }

  /** String#rjust with zero digits. */
  function RJust(s: seq<byte>, num: nat): seq<byte> {
    if |s| >= num then s else seq(num - |s|, _ => 48) + s
  }

  function HexText(bytes: seq<byte>): (t: seq<byte>)
    ensures |t| == 2 * |bytes|
  {
    if bytes == [] then [] else
      assert |RJust(ToS16(bytes[0]), 2)| == 2;
      RJust(ToS16(bytes[0]), 2) + HexText(bytes[1..])
  }

  function Join(fs: seq<seq<byte>>): seq<byte> {
    if fs == [] then [] else if |fs| == 1 then fs[0] else fs[0] + [DASH] + Join(fs[1..])
  }

  /** Guid#to_s; data of fewer than 10 bytes has no last slice, and printing raises. */
  function Printed(data: seq<byte>): Option<seq<byte>> {
    if |data| < 10 then None
    else
      Some(Join([HexText(I.Reverse(data[..4])), HexText(I.Reverse(data[4..6])), HexText(I.Reverse(data[6..8])),
                 HexText(data[8..10]), HexText(data[10..Min(16, |data|)])]))
  }

  /** String comparison: by the first differing byte, else by length. */
  function Compare(a: seq<byte>, b: seq<byte>): (c: int) {
    if a == [] && b == [] then 0
    else if a == [] then -1
    else if b == [] then 1
    else if a[0] < b[0] then -1
    else if a[0] > b[0] then 1
    else Compare(a[1..], b[1..])
  }

  class Guid {
    var data: seq<byte>

    constructor ()
      ensures data == []
    {
      data := [];
    }

    /** Guid#initialize: 16 bytes are taken as they are, anything else is read as a text. */
    method Initialize(arg: seq<byte>, littleEndian: bool) returns (r: Result)
      modifies this
      ensures r == Parsed(arg)
      ensures data == if r.Ok? then r.data else old(data)
      ensures |arg| == 16 ==> r == Ok(arg) && data == arg
    {
      if |arg| == 16 {
        data := arg;
        return Ok(data);
      }
      r := InitializeStr(arg, littleEndian);
    }

    method InitializeStr(str: seq<byte>, littleEndian: bool) returns (r: Result)
      requires |str| != 16
      modifies this
      ensures r == Parsed(str)
      ensures data == if r.Ok? then r.data else old(data)
    {
      hide Split, FiveFields, StartsWith;
      if StartsWith(str, [BRACE]) {
        return InvalidGuid;
      }
      var fields := Split(str);
      if |fields| != 5 {
        return InvalidGuid;
      }
      var numbers, ok := FieldNumbers(fields);
      if !ok {
        return NoDigit;
      }
      var bytes := PackNumbers(numbers, FiveFields(fields), littleEndian);
      data := bytes;
      return Ok(data);
    }

    method ToS() returns (r: Option<seq<byte>>)
      ensures r == Printed(data)
    {
      if |data| < 10 {
        return None;
      }
      var a, b, c := I.Reverse(data[..4]), I.Reverse(data[4..6]), I.Reverse(data[6..8]);
      var d, e := data[8..10], data[10..Min(16, |data|)];
      return Some(Join([HexText(a), HexText(b), HexText(c), HexText(d), HexText(e)]));
    }
  }

  /** The numbers of five fields, the first three read backwards. */
  method FieldNumbers(fields: seq<seq<byte>>) returns (numbers: seq<int>, ok: bool)
    requires |fields| == 5
    ensures ok <==> Even(fields)
    ensures ok ==> numbers == FiveFields(fields)
  {
    hide I.Reverse, Pairs;
    numbers, ok := [], true;
    var i := 0;
    while i < 5
      invariant 0 <= i <= 5
      invariant forall k :: 0 <= k < i ==> |fields[k]| % 2 == 0
      invariant numbers == FirstFields(fields, i)
    {
      numbers, ok := PushField(numbers, fields[i], i < 3);
      if !ok {
        return;
      }
      i := i + 1;
    }
    FirstFieldsIsFive(fields);
    ok := true;
  }

  /** `numbers.pack("C*")`, for numbers that are the bytes `expected`. */
  method PackNumbers(numbers: seq<int>, ghost expected: seq<byte>, littleEndian: bool) returns (bytes: seq<byte>)
    requires numbers == expected
    ensures bytes == expected
  {
    hide Pack.Packed;
    PackChars(expected, littleEndian);
    assert PackUnpack.Fixnums(numbers) == PackUnpack.Fixnums(expected);
    var packed := Pack.PackArray(PackUnpack.Fixnums(numbers), "C*", littleEndian);
    return packed.value;
  }

  /** The numbers of the first `i` fields. */
  function FirstFields(fs: seq<seq<byte>>, i: nat): seq<byte>
    requires |fs| == 5 && i <= 5 && forall k :: 0 <= k < i ==> |fs[k]| % 2 == 0
  {
    if i == 0 then [] else FirstFields(fs, i - 1) + if i <= 3 then I.Reverse(Pairs(fs[i - 1])) else Pairs(fs[i - 1])
  }

  lemma FirstFieldsIsFive(fs: seq<seq<byte>>)
    requires |fs| == 5 && Even(fs)
    ensures FirstFields(fs, 5) == FiveFields(fs)
  {
    hide I.Reverse;
    assert FirstFields(fs, 0) == [];
    assert FirstFields(fs, 1) == I.Reverse(Pairs(fs[0]));
    assert FirstFields(fs, 2) == FirstFields(fs, 1) + I.Reverse(Pairs(fs[1]));
    assert FirstFields(fs, 3) == FirstFields(fs, 2) + I.Reverse(Pairs(fs[2]));
    assert FirstFields(fs, 4) == FirstFields(fs, 3) + Pairs(fs[3]);
  }
}
