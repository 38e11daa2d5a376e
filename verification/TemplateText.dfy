/** Writing directives as template text, and reading them back. */
module TemplateText {
  import opened Bytes
  import opened Template

  /** The directives of a template in order; `None` where reading raises ArgumentError. */
  function ReadAll(str: string, i: nat, littleEndian: bool): seq<Option<Directive>>
    requires i <= |str|
    decreases |str| - i
  {
    if i == |str| then []
    else
      match ReadAt(str, i, littleEndian)
      case Rejected => [None]
      case Accepted(d, next) => [Some(d)] + ReadAll(str, next, littleEndian)
  }

  datatype Count = Once | Star | Times(n: nat)

  datatype Item = Item(letter: char, modifiers: string, count: Count)

  predicate Valid(item: Item) {
    && Letter(item.letter).dir != InvalidDir
    && (forall k :: 0 <= k < |item.modifiers| ==> IsModifier(item.modifiers[k]))
    && (item.modifiers == "" || TakesModifier(item.letter))
  }

  function DigitChar(d: nat): (c: char)
    requires d < 10
    ensures IsDigit(c) && DigitValue(c) == d
  {
    ('0' as int + d) as char
  }

  function Decimal(n: nat): (t: string)
    ensures |t| > 0
  {
    if n < 10 then [DigitChar(n)] else Decimal(n / 10) + [DigitChar(n % 10)]
  }

  function CountText(c: Count): string {
    match c
    case Once => ""
    case Star => "*"
    case Times(n) => Decimal(n)
  }

  function Suffix(item: Item): string {
    item.modifiers + CountText(item.count)
  }

  function Render(item: Item): string {
    [item.letter] + Suffix(item)
  }

  function RenderAll(items: seq<Item>): string {
    if items == [] then "" else Render(items[0]) + RenderAll(items[1..])
  }

  function CountValue(c: Count): Repetition {
    match c
    case Once => 1
    case Star => -1
    case Times(n) => n
  }

  /** The directive an item stands for. */
  function Meaning(item: Item, littleEndian: bool): Directive {
    var d, m := Letter(item.letter), item.modifiers;
    WithByteOrder(
      d.(count := CountValue(item.count),
         flags := d.flags.(native := '_' in m || '!' in m, lt := '<' in m, gt := d.flags.gt || '>' in m)),
      littleEndian)
  }

  function Meanings(items: seq<Item>, littleEndian: bool): seq<Option<Directive>> {
    if items == [] then [] else [Some(Meaning(items[0], littleEndian))] + Meanings(items[1..], littleEndian)
  }

  lemma {:induction false} DecimalText(n: nat)
    ensures forall k :: 0 <= k < |Decimal(n)| ==> IsDigit(Decimal(n)[k])
  {
    if n >= 10 {
      DecimalText(n / 10);
    }
  }

  lemma {:induction false} CountOfDecimal(m: string, n: nat)
    requires !EndsInDigit(m)
    ensures CountOf(m + Decimal(n)) == n
    decreases n
  {
    if n < 10 {
      CountOfSnoc(m, DigitChar(n));
    } else {
      var t, c := Decimal(n / 10), DigitChar(n % 10);
      CountOfDecimal(m, n / 10);
      DecimalText(n / 10);
      assert m + Decimal(n) == (m + t) + [c];
      assert (m + t)[|m + t| - 1] == t[|t| - 1];
      CountOfSnoc(m + t, c);
    }
  }

  /**
   * The last number or `*` in a run of suffix characters is the count: `*` after anything counts
   * as -1, a number after anything that does not end in a digit as itself, modifiers do not count.
   */
  lemma LastCount(run: string, n: nat, c: char)
    requires c == '_' || c == '!' || c == '<' || c == '>'
    ensures CountOf("") == 1 && CountOf(run + "*") == -1 && CountOf(run + [c]) == CountOf(run)
    ensures run == "" || !('0' <= run[|run| - 1] <= '9') ==> CountOf(run + Decimal(n)) == n
  {
    CountOfSnoc(run, '*');
    CountOfSnoc(run, c);
    hide CountOf, Decimal;
    if !EndsInDigit(run) {
      CountOfDecimal(run, n);
    }
    NoCount();
  }

  lemma NoCount()
    ensures CountOf("") == 1
  {
  }

  lemma DigitsByCode(d: nat)
    requires d < 10
    ensures var c := "0123456789"[d]; IsDigit(c) && DigitValue(c) == d
  {
  }

  lemma {:induction false} CountOfModifiers(m: string)
    requires forall k :: 0 <= k < |m| ==> IsModifier(m[k])
    ensures CountOf(m) == 1 && !EndsInDigit(m)
  {
    if m != "" {
      CountOfModifiers(m[..|m| - 1]);
    }
  }

  lemma SuffixText(item: Item)
    requires Valid(item)
    ensures forall k :: 0 <= k < |Suffix(item)| ==> IsSuffix(Suffix(item)[k])
    ensures CountOf(Suffix(item)) == CountValue(item.count)
    ensures forall c :: IsModifier(c) ==> (c in Suffix(item) <==> c in item.modifiers)
    ensures HasModifier(Suffix(item)) ==> item.modifiers != ""
  {
    var m := item.modifiers;
    CountOfModifiers(m);
    match item.count
    case Once => assert Suffix(item) == m;
    case Star => CountOfSnoc(m, '*');
    case Times(n) =>
      CountOfDecimal(m, n);
      DecimalText(n);
  }

  lemma ModifiedBySuffix(item: Item, littleEndian: bool)
    requires Valid(item)
    ensures WithByteOrder(Modified(item.letter, Suffix(item)), littleEndian) == Meaning(item, littleEndian)
    ensures HasModifier(Suffix(item)) ==> TakesModifier(item.letter)
  {
    SuffixText(item);
    hide Letter;
    hide CountOf;
    hide Suffix;
  }

  lemma SuffixEndAfter(before: string, run: string, after: string)
    requires forall k :: 0 <= k < |run| ==> IsSuffix(run[k])
    requires after == "" || !IsSuffix(after[0])
    ensures
      var str := before + run + after;
      SuffixEnd(str, |before|) == |before| + |run| && str[|before|..|before| + |run|] == run
  {
    hide IsSuffix;
    SuffixEndUnique(before + run + after, |before|, |before| + |run|);
  }

  lemma ReadAtRun(str: string, i: nat, t: char, run: string, littleEndian: bool)
    requires i + 1 + |run| <= |str| && str[i] == t
    requires SuffixEnd(str, i + 1) == i + 1 + |run| && str[i + 1..i + 1 + |run|] == run
    requires HasModifier(run) ==> TakesModifier(t)
    ensures ReadAt(str, i, littleEndian) == Accepted(WithByteOrder(Modified(t, run), littleEndian), i + 1 + |run|)
  {
    hide SuffixEnd;
    hide WithByteOrder;
    hide Modified;
    hide HasModifier;
  }

  /** One rendered item is read back, whatever comes before it, if no suffix character follows. */
  lemma ReadRendered(before: string, item: Item, after: string, littleEndian: bool)
    requires Valid(item) && (after == "" || !IsSuffix(after[0]))
    ensures ReadAt(before + Render(item) + after, |before|, littleEndian) ==
            Accepted(Meaning(item, littleEndian), |before| + |Render(item)|)
  {
    hide *;
    var t, run := item.letter, Suffix(item);
    var str := (before + [t]) + run + after;
    SuffixText(item);
    ModifiedBySuffix(item, littleEndian);
    SuffixEndAfter(before + [t], run, after);
    ReadAtRun(str, |before|, t, run, littleEndian);
    RenderIs(before, item, after);
  }

  lemma RenderIs(before: string, item: Item, after: string)
    ensures before + Render(item) + after == (before + [item.letter]) + Suffix(item) + after
    ensures |Render(item)| == 1 + |Suffix(item)|
  {
    hide Suffix;
  }

  lemma LetterIsNoSuffix(t: char)
    requires Letter(t).dir != InvalidDir
    ensures !IsSuffix(t)
  {
  }

  lemma StartsWithLetter(items: seq<Item>)
    requires items != [] ==> Valid(items[0])
    ensures RenderAll(items) == "" || !IsSuffix(RenderAll(items)[0])
  {
    hide IsSuffix, Suffix;
    if items != [] {
      assert RenderAll(items)[0] == items[0].letter;
      hide RenderAll;
      LetterIsNoSuffix(items[0].letter);
    }
  }

  lemma ReadAllStep(str: string, i: nat, d: Directive, next: nat, littleEndian: bool)
    requires i < next <= |str| && ReadAt(str, i, littleEndian) == Accepted(d, next)
    ensures ReadAll(str, i, littleEndian) == [Some(d)] + ReadAll(str, next, littleEndian)
  {
    hide ReadAt;
  }

  lemma RenderAllStep(before: string, items: seq<Item>)
    requires items != []
    ensures before + RenderAll(items) == before + Render(items[0]) + RenderAll(items[1..])
    ensures |Render(items[0])| > 0
  {
    hide Suffix;
    SeqAssoc(before, Render(items[0]), RenderAll(items[1..]));
  }

  /** Reading the text of any list of directives gives that list. */
  lemma {:induction false} ReadAllRendered(before: string, items: seq<Item>, littleEndian: bool)
    requires forall k :: 0 <= k < |items| ==> Valid(items[k])
    ensures ReadAll(before + RenderAll(items), |before|, littleEndian) == Meanings(items, littleEndian)
    decreases |items|
  {
    hide ReadAt, Meaning, Valid, Render, RenderAll, ReadAll, IsSuffix;
    if items == [] {
      NothingToRead(before, littleEndian);
    } else {
      var rest, next := items[1..], before + Render(items[0]);
      RenderAllStep(before, items);
      StartsWithLetter(rest);
      ReadRendered(before, items[0], RenderAll(rest), littleEndian);
      ReadAllRendered(next, rest, littleEndian);
      ReadAllStep(next + RenderAll(rest), |before|, Meaning(items[0], littleEndian), |next|, littleEndian);
    }
  }

  lemma NothingToRead(before: string, littleEndian: bool)
    ensures RenderAll([]) == "" && before + "" == before && ReadAll(before, |before|, littleEndian) == []
  {
  }

  // ---------------------------------------------------------------------------
  // Templates one after the other

  /** Reading stopped at a rejected modifier. */
  predicate Rejects(ds: seq<Option<Directive>>) {
    ds != [] && ds[|ds| - 1].None?
  }

  /** What follows a directive does not change it, unless it starts with a suffix character. */
  lemma ReadAtBefore(s: string, t: string, i: nat, littleEndian: bool)
    requires i < |s| && (t == "" || !IsSuffix(t[0]))
    ensures ReadAt(s + t, i, littleEndian) == ReadAt(s, i, littleEndian)
  {
    hide IsSuffix, HasModifier, TakesModifier, Modified, WithByteOrder;
    var e := SuffixEnd(s, i + 1);
    SuffixEndUnique(s + t, i + 1, e);
    assert (s + t)[i + 1..e] == s[i + 1..e];
  }

  /** Reading at a place later by `n`. */
  function Shifted(r: Reading, n: nat): Reading {
    match r
    case Accepted(d, next) => Accepted(d, next + n)
    case Rejected => Rejected
  }

  lemma ReadAtAfter(s: string, t: string, j: nat, littleEndian: bool)
    requires j < |t|
    ensures ReadAt(s + t, |s| + j, littleEndian) == Shifted(ReadAt(t, j, littleEndian), |s|)
  {
    hide IsSuffix, HasModifier, TakesModifier, Modified, WithByteOrder;
    var e := SuffixEnd(t, j + 1);
    SuffixEndUnique(s + t, |s| + j + 1, |s| + e);
    assert (s + t)[|s| + j + 1..|s| + e] == t[j + 1..e];
  }

  lemma {:induction false} ReadAllAfter(s: string, t: string, j: nat, littleEndian: bool)
    requires j <= |t|
    ensures ReadAll(s + t, |s| + j, littleEndian) == ReadAll(t, j, littleEndian)
    decreases |t| - j
  {
    hide ReadAt;
    if j < |t| {
      ReadAtAfter(s, t, j, littleEndian);
      var r := ReadAt(t, j, littleEndian);
      if r.Accepted? {
        ReadAllAfter(s, t, r.next, littleEndian);
      }
    }
  }

  /**
   * Reading two templates in one is reading them one after the other, if the second does not
   * start with a suffix character and the first is not rejected.
   */
  lemma {:induction false} ReadAllConcat(s: string, t: string, i: nat, littleEndian: bool)
    requires i <= |s| && (t == "" || !IsSuffix(t[0]))
    ensures
      var ds := ReadAll(s, i, littleEndian);
      ReadAll(s + t, i, littleEndian) == if Rejects(ds) then ds else ds + ReadAll(t, 0, littleEndian)
    decreases |s| - i
  {
    hide ReadAt, IsSuffix;
    if i == |s| {
      ReadAllAfter(s, t, 0, littleEndian);
      assert [] + ReadAll(t, 0, littleEndian) == ReadAll(t, 0, littleEndian);
    } else {
      ReadAtBefore(s, t, i, littleEndian);
      var r := ReadAt(s, i, littleEndian);
      if r.Accepted? {
        ReadAllConcat(s, t, r.next, littleEndian);
        var rest := ReadAll(s, r.next, littleEndian);
        SeqAssoc([Some(r.d)], rest, ReadAll(t, 0, littleEndian));
        assert rest != [] ==> ([Some(r.d)] + rest)[|rest|] == rest[|rest| - 1];
      }
    }
  }

  /** A template without the letter `m` has no base64 directive. */
  lemma {:induction false} ReadsNoBase64(s: string, i: nat, littleEndian: bool)
    requires i <= |s| && 'm' !in s
    ensures forall k :: 0 <= k < |ReadAll(s, i, littleEndian)| ==>
              var d := ReadAll(s, i, littleEndian)[k];
              d.Some? ==> d.value.dir != Base64Dir
    decreases |s| - i
  {
    if i < |s| {
      OtherLetters(s, i, littleEndian);
      hide ReadAt;
      var r := ReadAt(s, i, littleEndian);
      if r.Accepted? {
        ReadsNoBase64(s, r.next, littleEndian);
      }
    }
  }

  lemma OtherLetters(s: string, i: nat, littleEndian: bool)
    requires i < |s| && s[i] != 'm'
    ensures
      var r := ReadAt(s, i, littleEndian);
      r.Accepted? ==> r.d.dir != Base64Dir
  {
    hide SuffixEnd, CountOf, HasModifier, TakesModifier;
  }
}
