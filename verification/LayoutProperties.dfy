/** What the placement of members guarantees, for every sequence of definitions and settings. */
module LayoutProperties {
  import opened Bytes
  import opened Types
  import opened Layout

  /** Each member starts at a multiple of its alignment, no earlier than the one before it ends. */
  lemma PlacedStep(ms: seq<Member>, i: nat)
    requires Placed(ms) && i < |ms|
    ensures IsAlignment(ms[i].alignment) && ms[i].size == ms[i].ty.Size() > 0
    ensures ms[i].offset % ms[i].alignment == 0
    ensures i == 0 ==> ms[i].offset == 0
    ensures i > 0 ==> ms[i].offset == RoundUp(ms[i - 1].End(), ms[i].alignment) >= ms[i - 1].End()
  {
    assert PlacedAt(ms, i);
    if i > 0 {
      assert ms[..i][|ms[..i]| - 1] == ms[i - 1];
      RoundUpIsLeast(ms[i - 1].End(), ms[i].alignment);
    }
  }

  /** Members are disjoint, in the order of their definitions. */
  lemma {:induction false} PlacedInOrder(ms: seq<Member>, i: nat, j: nat)
    requires Placed(ms) && i < j < |ms|
    ensures ms[i].End() <= ms[j].offset
    decreases j
  {
    PlacedStep(ms, j);
    if i < j - 1 {
      PlacedInOrder(ms, i, j - 1);
    }
  }

  /** Offsets that satisfy the alignments and keep the members apart and in order. */
  ghost predicate Legal(ms: seq<Member>, offsets: seq<nat>) {
    && |offsets| == |ms|
    && (forall i :: 0 <= i < |ms| ==> ms[i].alignment > 0 && offsets[i] % ms[i].alignment == 0)
    && (forall i :: 0 < i < |ms| ==> offsets[i - 1] + ms[i - 1].size <= offsets[i])
  }

  function Offsets(ms: seq<Member>): (r: seq<nat>)
    ensures |r| == |ms| && forall i :: 0 <= i < |ms| ==> r[i] == ms[i].offset
  {
    seq(|ms|, i requires 0 <= i < |ms| => ms[i].offset)
  }

  /**
   * The placement is legal, and of all legal ones it is the least at every member: no other
   * choice of offsets puts any member earlier.
   */
  lemma PlacementIsLeast(ms: seq<Member>, offsets: seq<nat>)
    requires Placed(ms)
    ensures Legal(ms, Offsets(ms))
    ensures Legal(ms, offsets) ==> forall i :: 0 <= i < |ms| ==> ms[i].offset <= offsets[i]
  {
    forall i | 0 <= i < |ms|
      ensures ms[i].alignment > 0 && ms[i].offset % ms[i].alignment == 0
      ensures i > 0 ==> ms[i - 1].End() <= ms[i].offset
    {
      PlacedStep(ms, i);
    }
    if Legal(ms, offsets) {
      forall i | 0 <= i < |ms|
        ensures ms[i].offset <= offsets[i]
      {
        LeastAt(ms, offsets, i);
      }
    }
  }

  lemma {:induction false} LeastAt(ms: seq<Member>, offsets: seq<nat>, i: nat)
    requires Placed(ms) && Legal(ms, offsets) && i < |ms|
    ensures ms[i].offset <= offsets[i]
    decreases i
  {
    PlacedStep(ms, i);
    if i > 0 {
      LeastAt(ms, offsets, i - 1);
      RoundUpIsLeast(ms[i - 1].End(), ms[i].alignment);
    }
  }

  // ---------------------------------------------------------------------------
  // Size

  /** The size is the least multiple of the largest alignment that covers the last member. */
  lemma SizeIsLeast(ms: seq<Member>)
    requires Placed(ms) && ms != []
    ensures
      var a, end, size := MaxAlignment(ms).value, ms[|ms| - 1].End(), SizeOf(ms);
      && IsAlignment(a) && end <= size && size % a == 0
      && forall n: nat :: end <= n && n % a == 0 ==> size <= n
  {
    MaxIsAlignment(ms);
    RoundUpIsLeast(ms[|ms| - 1].End(), MaxAlignment(ms).value);
  }

  /** A multiple of a larger alignment is a multiple of a smaller one. */
  lemma AlignmentsDivide(x: nat, a: nat, b: nat)
    requires IsAlignment(a) && IsAlignment(b) && a <= b && x % b == 0
    ensures x % a == 0
  {
    if a == 1 {
    } else if a == 2 {
      assert b == 2 || b == 4 || b == 8;
    } else if a == 4 {
      assert b == 4 || b == 8;
    }
  }

  lemma SumOfMultiples(x: nat, y: nat, a: nat)
    requires a > 0 && x % a == 0 && y % a == 0
    ensures (x + y) % a == 0
  {
    var p, q := x / a, y / a;
    assert x == a * p && y == a * q;
    assert x + y == a * (p + q);
    DivModUnique(x + y, a, p + q, 0);
  }

  lemma {:induction false} TimesMultiple(k: nat, y: nat, a: nat)
    requires IsAlignment(a) && y % a == 0
    ensures k * y % a == 0
  {
    if k > 0 {
      TimesMultiple(k - 1, y, a);
      assert k * y == (k - 1) * y + y;
      SumOfMultiples((k - 1) * y, y, a);
    }
  }

  lemma EndsWithinSize(ms: seq<Member>, i: nat)
    requires Placed(ms) && i < |ms|
    ensures ms[i].End() <= SizeOf(ms)
  {
    SizeIsLeast(ms);
    if i < |ms| - 1 {
      PlacedInOrder(ms, i, |ms| - 1);
    }
  }

  /** The address of element `k` in an array of structs at `base`. */
  function Element(base: nat, k: nat, size: nat): nat {
    base + k * size
  }

  predicate IsMultiple(x: nat, a: nat) {
    a > 0 && x % a == 0
  }

  /** In an array of structs `SizeOf` bytes apart on an aligned base, every member of every element is aligned. */
  lemma ArrayMembersAligned(ms: seq<Member>, base: nat, k: nat, i: nat)
    requires Placed(ms) && i < |ms| && IsMultiple(base, MaxAlignment(ms).value)
    ensures IsMultiple(Element(base, k, SizeOf(ms)) + ms[i].offset, ms[i].alignment)
  {
    MemberMultiples(ms, i);
    hide *;
    AddressAligned(base, k, SizeOf(ms), ms[i].offset, ms[i].alignment, MaxAlignment(ms).value);
  }

  lemma MemberMultiples(ms: seq<Member>, i: nat)
    requires Placed(ms) && i < |ms|
    ensures IsAlignment(ms[i].alignment) && IsAlignment(MaxAlignment(ms).value)
    ensures IsMultiple(ms[i].offset, ms[i].alignment) && IsMultiple(SizeOf(ms), MaxAlignment(ms).value)
  {
    PlacedStep(ms, i);
    SizeIsLeast(ms);
  }

  /** Members of a later element come after all members of an earlier one. */
  lemma ArrayElementsApart(ms: seq<Member>, base: nat, k: nat, i: nat, l: nat, j: nat)
    requires Placed(ms) && i < |ms| && j < |ms| && k < l
    ensures Element(base, k, SizeOf(ms)) + ms[i].End() <= Element(base, l, SizeOf(ms)) + ms[j].offset
  {
    EndsWithinSize(ms, i);
    LaterElement(base, k, l, SizeOf(ms));
    hide SizeOf, Element, Placed;
  }

  lemma AddressAligned(base: nat, k: nat, size: nat, offset: nat, a: nat, b: nat)
    requires IsAlignment(a) && IsAlignment(b) && a <= b
    requires IsMultiple(base, b) && IsMultiple(size, b) && IsMultiple(offset, a)
    ensures IsMultiple(Element(base, k, size) + offset, a)
  {
    AlignmentsDivide(base, a, b);
    AlignmentsDivide(size, a, b);
    TimesMultiple(k, size, a);
    SumOfMultiples(base, k * size, a);
    SumOfMultiples(base + k * size, offset, a);
  }

  lemma LaterElement(base: nat, k: nat, l: nat, size: nat)
    requires k < l
    ensures Element(base, k, size) + size <= Element(base, l, size)
  {
    var d: nat := l - k - 1;
    assert l * size == k * size + size + d * size;
  }

  // ---------------------------------------------------------------------------
  // Remembered values

  lemma MaxOfPrefix(ms: seq<Member>, more: seq<Member>)
    requires ms != []
    ensures MaxAlignment(ms).value <= MaxAlignment(ms + more).value
  {
    var i :| 0 <= i < |ms| && ms[i].alignment == MaxAlignment(ms).value;
    assert (ms + more)[i] == ms[i];
  }

  /**
   * The size that `size` remembers when it is first called on the members `ms`, with the alignment
   * `a` remembered earlier, is still the size after `more` members exactly when it covers the
   * last member and is a multiple of the alignment there is by then.
   */
  lemma RememberedSize(ms: seq<Member>, a: nat, more: seq<Member>)
    requires Placed(ms + more) && ms != [] && IsAlignment(a) && a <= MaxAlignment(ms).value
    ensures
      var all, n := ms + more, NextOffset(ms, a);
      n == SizeOf(all) <==> all[|all| - 1].End() <= n && IsMultiple(n, MaxAlignment(all).value)
  {
    var all, n := ms + more, NextOffset(ms, a);
    MaxOfPrefix(ms, more);
    SizeIsLeast(all);
    RoundUpIsLeast(ms[|ms| - 1].End(), a);
    AlignmentsDivide(SizeOf(all), a, MaxAlignment(all).value);
    EndsWithinSize(all, |ms| - 1);
    hide SizeOf, MaxAlignment, Placed, RoundUp;
  }

  /** After any number of further members the remembered size is right only if they fit in the padding at the end. */
  lemma StaleSize(ms: seq<Member>, more: seq<Member>)
    requires Placed(ms + more) && Placed(ms) && ms != [] && more != []
    ensures SizeOf(ms + more) == SizeOf(ms) <==>
            more[|more| - 1].End() <= SizeOf(ms) && IsMultiple(SizeOf(ms), MaxAlignment(ms + more).value)
  {
    MaxIsAlignment(ms);
    RememberedSize(ms, MaxAlignment(ms).value, more);
  }

  /** An alignment remembered before wider members came makes the first size wrong unless it is a multiple of theirs. */
  lemma StaleAlignment(ms: seq<Member>, a: nat)
    requires Placed(ms) && ms != [] && IsAlignment(a) && a <= MaxAlignment(ms).value
    ensures NextOffset(ms, a) == SizeOf(ms) <==> IsMultiple(NextOffset(ms, a), MaxAlignment(ms).value)
  {
    assert ms + [] == ms;
    RememberedSize(ms, a, []);
    RoundUpIsLeast(ms[|ms| - 1].End(), a);
  }

  /** The size 0 of a class without members is remembered too, and is wrong with the first member. */
  lemma EmptySizeGoesStale(ms: seq<Member>)
    requires Placed(ms)
    ensures SizeOf([]) == 0
    ensures SizeOf(ms) == 0 <==> ms == []
  {
    if ms != [] {
      EndsWithinSize(ms, 0);
      PlacedStep(ms, 0);
    }
  }

  // ---------------------------------------------------------------------------
  // Pack settings

  /** The members of a list of types defined under one setting. */
  function Uniform(types: seq<Ty>, pack: Option<nat>): (ms: seq<Member>)
    requires IsSetting(pack)
    ensures |ms| == |types|
  {
    if types == [] then []
    else
      var ms := Uniform(types[..|types| - 1], pack);
      ms + [NextMember(ms, "", types[|types| - 1], pack, None)]
  }

  lemma {:induction false} UniformMembers(types: seq<Ty>, pack: Option<nat>)
    requires IsSetting(pack)
    ensures Placed(Uniform(types, pack))
    ensures forall i :: 0 <= i < |types| ==>
              && Uniform(types, pack)[i].alignment == Aligned(types[i], pack)
              && Uniform(types, pack)[i].size == types[i].Size()
  {
    if types != [] {
      var init := types[..|types| - 1];
      UniformMembers(init, pack);
      PlacedNext(Uniform(init, pack), "", types[|types| - 1], pack, None);
    }
  }

  /**
   * Under any fixed setting every member has the smaller of the setting and its size as its
   * alignment, and starts at the first multiple of that from the end of the member before it.
   */
  lemma {:induction false} FixedSetting(types: seq<Ty>, pack: Option<nat>, i: nat)
    requires IsSetting(pack) && i < |types|
    ensures
      var ms := Uniform(types, pack);
      && ms[i].ty == types[i] && ms[i].size == types[i].Size() && IsAlignmentOf(ms[i].alignment, types[i], pack)
      && if i == 0 then ms[i].offset == 0 else IsNextMultiple(ms[i].offset, ms[i - 1].End(), ms[i].alignment)
    decreases |types|
  {
    var last := |types| - 1;
    var before := Uniform(types[..last], pack);
    AddedIs(before, "", types[last], pack, None, None);
    assert Uniform(types, pack) == before + [AddedMember(before, "", types[last], pack, None, None)];
    hide Uniform, AddedMember;
    if i < last {
      FixedSetting(types[..last], pack, i);
    }
  }

  /** A byte and then a 64-bit member: under a setting `a` the second is at offset `a`, and the size is `a + 8`. */
  lemma ByteThenLong(pack: Option<nat>)
    requires IsSetting(pack)
    ensures
      var ms, a := Uniform([U8, U64], pack), if pack.Some? then pack.value else 8;
      Placed(ms) && ms[1].offset == a && SizeOf(ms) == a + 8
  {
    var types, a := [U8, U64], if pack.Some? then pack.value else 8;
    UniformMembers(types, pack);
    FixedSetting(types, pack, 0);
    FixedSetting(types, pack, 1);
    hide Uniform, Placed, SizeOf, MaxAlignment;
    TwoMembers(Uniform(types, pack), a);
  }

  lemma TwoMembers(ms: seq<Member>, a: nat)
    requires Placed(ms) && |ms| == 2 && IsAlignment(a) && ms[0].alignment == 1 && ms[1].alignment == a
    requires ms[0].End() == 1 && ms[1].size == 8 && IsNextMultiple(ms[1].offset, 1, a)
    ensures ms[1].offset == a && SizeOf(ms) == a + 8
  {
    OnlyMultiple(ms[1].offset, a);
    LargestOfTwo(ms);
    SizeIsLeast(ms);
    hide SizeOf, MaxAlignment, IsNextMultiple, Placed;
    assert (a + 8) % a == 0 by {
      assert a == 1 || a == 2 || a == 4 || a == 8;
    }
  }

  lemma OnlyMultiple(x: nat, a: nat)
    requires IsAlignment(a) && IsNextMultiple(x, 1, a)
    ensures x == a
  {
    if x < a {
      DivModUnique(x, a, 0, x);
    }
  }

  lemma LargestOfTwo(ms: seq<Member>)
    requires |ms| == 2
    ensures MaxAlignment(ms) == Some(Max(ms[0].alignment, ms[1].alignment))
  {
    assert ms[..1][..0] == [] && MaxAlignment(ms[..1]) == Some(ms[0].alignment);
  }

  /** A setting as a number: no setting is as good as 8. */
  function Setting(pack: Option<nat>): nat {
    if pack.Some? then pack.value else 8
  }

  /** Under a smaller setting no member and no end comes later. */
  lemma PackingIsMonotone(types: seq<Ty>, p: Option<nat>, q: Option<nat>)
    requires IsSetting(p) && IsSetting(q) && Setting(p) <= Setting(q)
    ensures Placed(Uniform(types, p)) && Placed(Uniform(types, q))
    ensures forall i :: 0 <= i < |types| ==> Uniform(types, p)[i].offset <= Uniform(types, q)[i].offset
    ensures SizeOf(Uniform(types, p)) <= SizeOf(Uniform(types, q))
  {
    var ms, ns := Uniform(types, p), Uniform(types, q);
    UniformMembers(types, p);
    UniformMembers(types, q);
    hide Uniform, Placed, SizeOf;
    forall i | 0 <= i < |types|
      ensures IsAlignment(ms[i].alignment) && IsAlignment(ns[i].alignment)
      ensures ms[i].alignment <= ns[i].alignment && ms[i].size == ns[i].size
    {
      PlacedStep(ms, i);
      PlacedStep(ns, i);
    }
    hide Aligned;
    LayoutIsMonotone(ms, ns);
  }

  /** Members with smaller alignments, of the same sizes, are placed no later. */
  lemma LayoutIsMonotone(ms: seq<Member>, ns: seq<Member>)
    requires Placed(ms) && Placed(ns) && |ms| == |ns|
    requires forall i :: 0 <= i < |ms| ==>
               && IsAlignment(ms[i].alignment) && IsAlignment(ns[i].alignment)
               && ms[i].alignment <= ns[i].alignment && ms[i].size == ns[i].size
    ensures forall i :: 0 <= i < |ms| ==> ms[i].offset <= ns[i].offset
    ensures SizeOf(ms) <= SizeOf(ns)
  {
    var offsets := Offsets(ns);
    forall i | 0 <= i < |ns|
      ensures offsets[i] % ms[i].alignment == 0
      ensures i > 0 ==> offsets[i - 1] + ms[i - 1].size <= offsets[i]
    {
      PlacedStep(ns, i);
      AlignmentsDivide(ns[i].offset, ms[i].alignment, ns[i].alignment);
    }
    PlacementIsLeast(ms, offsets);
    hide Placed;
    if ms != [] {
      SizeIsMonotone(ms, ns);
    }
  }

  lemma SizeIsMonotone(ms: seq<Member>, ns: seq<Member>)
    requires Placed(ms) && Placed(ns) && |ms| == |ns| > 0
    requires forall i :: 0 <= i < |ms| ==>
               ms[i].offset <= ns[i].offset && ms[i].size == ns[i].size && ms[i].alignment <= ns[i].alignment
    ensures SizeOf(ms) <= SizeOf(ns)
  {
    SizeIsLeast(ms);
    SizeIsLeast(ns);
    hide SizeOf;
    var a, b := MaxAlignment(ms).value, MaxAlignment(ns).value;
    var i :| 0 <= i < |ms| && ms[i].alignment == a;
    assert ns[i].alignment <= b;
    AlignmentsDivide(SizeOf(ns), a, b);
  }

  /** The sum of the sizes of the first `k` types. */
  function Sum(types: seq<Ty>, k: nat): nat
    requires k <= |types|
  {
    if k == 0 then 0 else Sum(types, k - 1) + types[k - 1].Size()
  }

  lemma EndToEnd(ms: seq<Member>, k: nat)
    requires Placed(ms) && 0 < k <= |ms| && forall i :: 0 <= i < |ms| ==> ms[i].alignment == 1
    ensures if k < |ms| then ms[k].offset == ms[k - 1].End() else SizeOf(ms) == ms[k - 1].End()
  {
    RoundUpOne(ms[k - 1].End());
    hide RoundUp;
    if k < |ms| {
      PlacedStep(ms, k);
    } else {
      MaxIsAlignment(ms);
      assert MaxAlignment(ms).value == 1;
    }
  }

  /** `pack(1)` puts members end to end. */
  lemma {:induction false} PackOne(types: seq<Ty>, k: nat)
    requires k <= |types|
    ensures Placed(Uniform(types, Some(1)))
    ensures k < |types| ==> Uniform(types, Some(1))[k].offset == Sum(types, k)
    ensures k == |types| ==> SizeOf(Uniform(types, Some(1))) == Sum(types, k)
    decreases k
  {
    var ms := Uniform(types, Some(1));
    UniformMembers(types, Some(1));
    hide Uniform, Placed;
    if k > 0 {
      PackOne(types, k - 1);
      hide SizeOf;
      EndToEnd(ms, k);
    } else if k < |types| {
      PlacedStep(ms, 0);
    }
  }

  /** `pack(8)` is the layout without a setting. */
  lemma {:induction false} PackEight(types: seq<Ty>)
    ensures Uniform(types, Some(8)) == Uniform(types, None)
  {
    if types != [] {
      PackEight(types[..|types| - 1]);
    }
  }
}
