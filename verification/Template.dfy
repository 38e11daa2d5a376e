/**
 * Template strings of Array#pack and String#unpack: a letter, then a run of suffix
 * characters (a decimal count or `*`, and the modifiers `_`, `!`, `<`, `>`).
 */
module Template {
  datatype Dir = CharDir | ShortDir | LongDir | StrDir | HexDir | Base64Dir | InvalidDir

  datatype Flags = Flags(
    native: bool,       // `_` or `!` given
    nulPad: bool,       // `a`: pad with NUL
    nulEnd: bool,       // `Z`: append NUL
    signed: bool,
    gt: bool,           // big endian asked for
    lt: bool,           // little endian asked for
    lsb: bool,          // low nibble first
    little: bool)       // little endian in effect

  /** A repetition count; -1 stands for `*`. */
  type Repetition = n: int | -1 <= n

  datatype Directive = Directive(dir: Dir, count: Repetition, flags: Flags) {
    /** The bytes one value takes in a string; 0 where the value decides. */
    function Size(): (n: nat)
      ensures n <= 4
    {
      match dir
      case CharDir => 1
      case ShortDir => 2
      case LongDir => 4
      case _ => 0
    }

    /** The flag WIDTH: a count of zero still takes an element. */
    predicate IsWidth() {
      dir == StrDir || dir == Base64Dir
    }

    /** The flag COUNT2: the count is a length. */
    predicate IsLength() {
      dir == StrDir || dir == HexDir
    }

    predicate IsInteger() {
      dir == CharDir || dir == ShortDir || dir == LongDir
    }

    predicate IsString() {
      dir == StrDir || dir == HexDir || dir == Base64Dir
    }
  }

  const PLAIN := Flags(false, false, false, false, false, false, false, false)

  /** The directive of a letter, before its suffix is read. */
  function Letter(t: char): (d: Directive)
    ensures d.count == 1
  {
    match t
    case 'A' => Directive(StrDir, 1, PLAIN)
    case 'a' => Directive(StrDir, 1, PLAIN.(nulPad := true))
    case 'C' => Directive(CharDir, 1, PLAIN)
    case 'c' => Directive(CharDir, 1, PLAIN.(signed := true))
    case 'H' => Directive(HexDir, 1, PLAIN)
    case 'h' => Directive(HexDir, 1, PLAIN.(lsb := true))
    case 'L' => Directive(LongDir, 1, PLAIN)
    case 'l' => Directive(LongDir, 1, PLAIN.(signed := true))
    case 'N' => Directive(LongDir, 1, PLAIN.(gt := true))
    case 'n' => Directive(ShortDir, 1, PLAIN.(gt := true))
    case 'S' => Directive(ShortDir, 1, PLAIN)
    case 's' => Directive(ShortDir, 1, PLAIN.(signed := true))
    case 'm' => Directive(Base64Dir, 1, PLAIN)
    case 'Z' => Directive(StrDir, 1, PLAIN.(nulEnd := true))
    case _ => Directive(InvalidDir, 1, PLAIN)
  }

  predicate IsDigit(c: char) {
    '0' <= c <= '9'
  }

  predicate IsModifier(c: char) {
    c == '_' || c == '!' || c == '<' || c == '>'
  }

  predicate IsSuffix(c: char) {
    IsDigit(c) || c == '*' || IsModifier(c)
  }

  /** The letters after which a modifier is accepted; strchr also finds the terminating NUL. */
  predicate TakesModifier(t: char) {
    t in "sSiIlL" || t == '\0'
  }

  function DigitValue(c: char): (d: nat)
    requires IsDigit(c)
    ensures d < 10
  {
    c as int - '0' as int
  }

  /** Where the run of suffix characters that starts at `i` ends. */
  function SuffixEnd(str: string, i: nat): (e: nat)
    requires i <= |str|
    ensures i <= e <= |str|
    ensures forall k :: i <= k < e ==> IsSuffix(str[k])
    ensures e < |str| ==> !IsSuffix(str[e])
    decreases |str| - i
  {
    if i == |str| || !IsSuffix(str[i]) then i else SuffixEnd(str, i + 1)
  }

  predicate EndsInDigit(run: string) {
    |run| > 0 && IsDigit(run[|run| - 1])
  }

  /** The count a run of suffix characters asks for: its last number or `*`, -1 for `*`, else 1. */
  function CountOf(run: string): (n: Repetition)
    ensures EndsInDigit(run) ==> n >= 0
  {
    if run == "" then 1
    else
      var before, c := run[..|run| - 1], run[|run| - 1];
      if c == '*' then -1
      else if !IsDigit(c) then CountOf(before)
      else if EndsInDigit(before) then CountOf(before) * 10 + DigitValue(c)
      else DigitValue(c)
  }

  predicate HasModifier(run: string) {
    exists k :: 0 <= k < |run| && IsModifier(run[k])
  }

  /** The directive of a letter with what the characters of `run` say. */
  function Modified(t: char, run: string): Directive {
    var d := Letter(t);
    d.(count := CountOf(run),
       flags := d.flags.(native := '_' in run || '!' in run,
                         gt := d.flags.gt || '>' in run,
                         lt := '<' in run))
  }

  /** The byte order in effect: `<` wins over `>`, and the machine's own is the default. */
  function WithByteOrder(d: Directive, littleEndian: bool): Directive {
    if d.flags.lt || (!d.flags.gt && littleEndian) then d.(flags := d.flags.(little := true)) else d
  }

  /** Reading a directive: it is accepted, with the place after it, or raises ArgumentError. */
  datatype Reading = Accepted(d: Directive, next: nat) | Rejected

  function ReadAt(str: string, i: nat, littleEndian: bool): (r: Reading)
    requires i < |str|
    ensures r.Accepted? ==> i < r.next <= |str|
  {
    var e := SuffixEnd(str, i + 1);
    var run := str[i + 1..e];
    if HasModifier(run) && !TakesModifier(str[i]) then Rejected
    else Accepted(WithByteOrder(Modified(str[i], run), littleEndian), e)
  }

  lemma {:induction false} SuffixEndUnique(str: string, i: nat, e: nat)
    requires i <= e <= |str|
    requires forall k :: i <= k < e ==> IsSuffix(str[k])
    requires e < |str| ==> !IsSuffix(str[e])
    ensures SuffixEnd(str, i) == e
    decreases e - i
  {
    if i < e {
      SuffixEndUnique(str, i + 1, e);
    }
  }

  lemma ModifierSeen(str: string, i: nat, k: nat)
    requires i <= k < |str| && IsModifier(str[k])
    requires forall j :: i <= j <= k ==> IsSuffix(str[j])
    ensures HasModifier(str[i..SuffixEnd(str, i)])
  {
    var e := SuffixEnd(str, i);
    assert e > k;
    assert str[i..e][k - i] == str[k];
  }

  /** What one more suffix character changes. */
  function Step(d: Directive, c: char, run: string): Directive {
    if c == '*' then d.(count := -1)
    else if IsDigit(c) then
      d.(count := if EndsInDigit(run) then CountOf(run) * 10 + DigitValue(c) else DigitValue(c))
    else if c == '_' || c == '!' then d.(flags := d.flags.(native := true))
    else if c == '<' then d.(flags := d.flags.(lt := true))
    else if c == '>' then d.(flags := d.flags.(gt := true))
    else d
  }

  lemma ModifiedSnoc(t: char, str: string, start: nat, idx: nat)
    requires start <= idx < |str|
    ensures
      var run, more, c := str[start..idx], str[start..idx + 1], str[idx];
      && Modified(t, more) == Step(Modified(t, run), c, run)
      && (HasModifier(more) <==> HasModifier(run) || IsModifier(c))
      && (EndsInDigit(more) <==> IsDigit(c))
  {
    hide Letter;
    var run, c := str[start..idx], str[idx];
    assert str[start..idx + 1] == run + [c];
    CountOfSnoc(run, c);
    assert (run + [c])[|run|] == c;
    if HasModifier(run) {
      var k :| 0 <= k < |run| && IsModifier(run[k]);
      assert (run + [c])[k] == run[k];
    }
    if IsModifier(c) {
      assert IsModifier((run + [c])[|run|]);
    }
  }

  lemma CountOfSnoc(run: string, c: char)
    ensures CountOf(run + [c]) ==
            if c == '*' then -1
            else if !IsDigit(c) then CountOf(run)
            else if EndsInDigit(run) then CountOf(run) * 10 + DigitValue(c)
            else DigitValue(c)
  {
    assert (run + [c])[..|run|] == run;
  }

  lemma EmptyRun(str: string, t: char, i: nat)
    requires i <= |str|
    ensures Reads(str, t, i, i, Letter(t))
  {
    assert str[i..i] == "";
  }

  predicate AllSuffix(str: string, i: nat, j: nat)
    requires j <= |str|
  {
    forall k :: i <= k < j ==> IsSuffix(str[k])
  }

  /** The characters from `start` to `idx` are a run that makes `t` the directive `d`. */
  predicate Reads(str: string, t: char, start: nat, idx: nat, d: Directive) {
    && start <= idx <= |str| && AllSuffix(str, start, idx) && d == Modified(t, str[start..idx])
    && (HasModifier(str[start..idx]) ==> TakesModifier(t))
    && (EndsInDigit(str[start..idx]) ==> idx == |str| || !IsDigit(str[idx]))
  }

  /** A suffix character other than a digit makes the run longer. */
  lemma ReadsSnoc(str: string, t: char, start: nat, idx: nat, d: Directive)
    requires Reads(str, t, start, idx, d) && idx < |str|
    requires str[idx] == '*' || (IsModifier(str[idx]) && TakesModifier(t))
    ensures Reads(str, t, start, idx + 1, Step(d, str[idx], ""))
  {
    hide Letter, Modified, HasModifier, EndsInDigit, CountOf;
    ModifiedSnoc(t, str, start, idx);
  }

  lemma StarStep(d: Directive)
    ensures Step(d, '*', "") == d.(count := -1)
  {
  }

  /** The first digit of a count. */
  lemma FirstDigit(str: string, t: char, start: nat, idx: nat, d: Directive)
    requires Reads(str, t, start, idx, d) && idx < |str| && IsDigit(str[idx])
    ensures
      var run, n := str[start..idx + 1], DigitValue(str[idx]);
      && AllSuffix(str, start, idx + 1) && EndsInDigit(run) && CountOf(run) == n
      && Modified(t, run) == d.(count := n) && (HasModifier(run) ==> TakesModifier(t))
  {
    hide Letter, Modified, HasModifier;
    ModifiedSnoc(t, str, start, idx);
    CountOfSnoc(str[start..idx], str[idx]);
    assert str[start..idx + 1] == str[start..idx] + [str[idx]];
  }

  /** Where a run ends, the directive is read. */
  lemma ReadsAll(str: string, t: char, start: nat, idx: nat, d: Directive, littleEndian: bool)
    requires Reads(str, t, start, idx, d) && start > 0 && str[start - 1] == t
    requires idx < |str| ==> !IsSuffix(str[idx])
    ensures ReadAt(str, start - 1, littleEndian) == Accepted(WithByteOrder(d, littleEndian), idx)
  {
    hide IsSuffix, Modified, HasModifier, TakesModifier, WithByteOrder;
    SuffixEndUnique(str, start, idx);
  }

  /** A modifier that the letter does not take. */
  lemma ReadsRejected(str: string, t: char, start: nat, idx: nat, d: Directive, littleEndian: bool)
    requires Reads(str, t, start, idx, d) && start > 0 && str[start - 1] == t
    requires idx < |str| && IsModifier(str[idx]) && !TakesModifier(t)
    ensures ReadAt(str, start - 1, littleEndian) == Rejected
  {
    hide Modified, TakesModifier, WithByteOrder, HasModifier;
    ModifierSeen(str, start, idx);
  }

  /** A template and the place reached in it. */
  class Tmpl {
    const str: string
    var idx: nat

    constructor (str: string)
      ensures this.str == str && idx == 0
    {
      this.str := str;
      idx := 0;
    }

    predicate HasTmpl()
      reads this
    {
      idx < |str|
    }

    /** Reads the digits after the first one of a count. */
    method ReadNumber(first: nat, t: char, ghost start: nat) returns (count: nat)
      requires start <= idx <= |str| && AllSuffix(str, start, idx)
      requires EndsInDigit(str[start..idx]) && first == CountOf(str[start..idx])
      modifies this`idx
      ensures old(idx) <= idx <= |str| && AllSuffix(str, start, idx)
      ensures idx == |str| || !IsDigit(str[idx])
      ensures Modified(t, str[start..idx]) == old(Modified(t, str[start..idx])).(count := count)
      ensures HasModifier(str[start..idx]) <==> old(HasModifier(str[start..idx]))
    {
      hide Letter;
      count := first;
      while idx < |str| && IsDigit(str[idx])
        invariant old(idx) <= idx <= |str| && AllSuffix(str, start, idx)
        invariant EndsInDigit(str[start..idx]) && count == CountOf(str[start..idx])
        invariant Modified(t, str[start..idx]) == old(Modified(t, str[start..idx])).(count := count)
        invariant HasModifier(str[start..idx]) <==> old(HasModifier(str[start..idx]))
      {
        ModifiedSnoc(t, str, start, idx);
        count := count * 10 + DigitValue(str[idx]);
        idx := idx + 1;
      }
    }

    /** Sets the flag of a modifier. */
    static method WithModifier(d: Directive, ch: char) returns (r: Directive)
      requires IsModifier(ch)
      ensures r == Step(d, ch, "")
    {
      r := d;
      if ch == '_' || ch == '!' {
        r := r.(flags := r.flags.(native := true));
      } else if ch == '<' {
        r := r.(flags := r.flags.(lt := true));
      } else if ch == '>' {
        r := r.(flags := r.flags.(gt := true));
      }
    }

    /** Reads the directive at `idx` and moves past it. */
    method ReadTmpl(littleEndian: bool) returns (r: Reading)
      requires idx < |str|
      modifies this`idx
      ensures r == ReadAt(str, old(idx), littleEndian)
      ensures r.Accepted? ==> idx == r.next
    {
      hide *;
      ghost var start := idx + 1;
      var t := str[idx];
      idx := idx + 1;
      var d := Letter(t);
      EmptyRun(str, t, start);
      while idx < |str|
        invariant start <= idx <= |str| && Reads(str, t, start, idx, d)
      {
        var ch := str[idx];
        idx := idx + 1;
        if IsDigit(ch) {
          FirstDigit(str, t, start, idx - 1, d);
          var count := ReadNumber(DigitValue(ch), t, start);
          d := d.(count := count);
          NumberRead(str, t, start, idx, d);
          continue;
        } else if ch == '*' {
          ReadsSnoc(str, t, start, idx - 1, d);
          StarStep(d);
          d := d.(count := -1);
        } else if IsModifier(ch) {
          if !TakesModifier(t) {
            ReadsRejected(str, t, start, idx - 1, d, littleEndian);
            return Rejected;
          }
          ReadsSnoc(str, t, start, idx - 1, d);
          d := WithModifier(d, ch);
        } else {
          idx := idx - 1;
          NoSuffix(ch);
          break;
        }
      }
      ReadsAll(str, t, start, idx, d, littleEndian);
      ByteOrderIs(d, littleEndian);
      if d.flags.lt || (!d.flags.gt && littleEndian) {
        d := d.(flags := d.flags.(little := true));
      }
      return Accepted(d, idx);
    }
  }

  lemma NoSuffix(c: char)
    ensures IsSuffix(c) <==> IsDigit(c) || c == '*' || IsModifier(c)
  {
  }

  lemma ByteOrderIs(d: Directive, littleEndian: bool)
    ensures WithByteOrder(d, littleEndian) ==
            if d.flags.lt || (!d.flags.gt && littleEndian) then d.(flags := d.flags.(little := true)) else d
  {
  }

  lemma NumberRead(str: string, t: char, start: nat, idx: nat, d: Directive)
    requires start <= idx <= |str| && AllSuffix(str, start, idx) && d == Modified(t, str[start..idx])
    requires idx == |str| || !IsDigit(str[idx])
    requires HasModifier(str[start..idx]) ==> TakesModifier(t)
    ensures Reads(str, t, start, idx, d)
  {
  }
}
