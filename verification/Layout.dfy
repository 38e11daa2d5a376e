/** Struct layout: the class methods of UEFI::Protocol that place members at offsets. */
module Layout {
  import opened Bytes
  import opened Types

  datatype Signature = Signature(ret: string, args: seq<string>)

  datatype Member = Member(name: string, ty: Ty, alignment: nat, offset: nat, size: nat, function_: Option<Signature>) {
    function End(): nat {
      offset + size
    }
  }

  /** The alignments that members and `pack` settings can have. */
  predicate IsAlignment(a: int) {
    a == 1 || a == 2 || a == 4 || a == 8
  }

  /** The least multiple of `a` from `n` on, as the offset expression computes it. */
  function RoundUp(n: nat, a: nat): nat
    requires a > 0
  {
    (n + a - 1) / a * a
  }

  lemma RoundUpIsLeast(n: nat, a: nat)
    requires a > 0
    ensures n <= RoundUp(n, a) && RoundUp(n, a) % a == 0
    ensures forall m: nat :: n <= m && m % a == 0 ==> RoundUp(n, a) <= m
  {
    var q := (n + a - 1) / a;
    assert a * q <= n + a - 1 < a * q + a;
    DivModUnique(a * q, a, q, 0);
    forall m: nat | n <= m && m % a == 0
      ensures q * a <= m
    {
      NoMultipleBetween(a, q, m);
    }
  }

  lemma NoMultipleBetween(a: nat, q: nat, m: nat)
    requires a > 0 && m % a == 0 && m > a * q - a
    ensures a * q <= m
  {
    var d := m / a - q;
    assert m == a * q + a * d;
    NotNegative(a, d);
    assert a * d >= 0;
  }

  lemma NotNegative(a: int, d: int)
    requires a > 0 && a * d > -a
    ensures d >= 0
  {
  }

  lemma RoundUpOne(n: nat)
    ensures RoundUp(n, 1) == n
  {
  }

  /** Where the next member with this alignment goes. */
  function NextOffset(ms: seq<Member>, alignment: nat): nat
    requires ms != [] ==> alignment > 0
  {
    if ms == [] then 0 else RoundUp(ms[|ms| - 1].End(), alignment)
  }

  /** The alignment of a member under a `pack` setting. */
  function Aligned(ty: Ty, pack: Option<nat>): nat {
    match pack
    case Some(a) => Min(a, ty.Alignment())
    case None => ty.Alignment()
  }

  predicate IsSetting(pack: Option<nat>) {
    pack.Some? ==> IsAlignment(pack.value)
  }

  /** The member a definition adds. */
  function NextMember(ms: seq<Member>, name: string, ty: Ty, pack: Option<nat>, f: Option<Signature>): Member
    requires IsSetting(pack)
  {
    var a := Aligned(ty, pack);
    Member(name, ty, a, NextOffset(ms, a), ty.Size(), f)
  }

  /** The member a definition adds when it may name its own offset. */
  function AddedMember(ms: seq<Member>, name: string, ty: Ty, pack: Option<nat>, offset: Option<nat>,
                       f: Option<Signature>): Member
    requires IsSetting(pack)
  {
    var m := NextMember(ms, name, ty, pack, f);
    if offset.Some? then m.(offset := offset.value) else m
  }

  /** The smaller of a setting and the natural alignment, which is the size. */
  predicate IsAlignmentOf(a: nat, ty: Ty, pack: Option<nat>) {
    a == match pack
         case None => ty.Size()
         case Some(p) => if p <= ty.Size() then p else ty.Size()
  }

  /** The first offset from `end` on that is a multiple of `a`. */
  predicate IsNextMultiple(offset: nat, end: nat, a: nat) {
    a > 0 && offset % a == 0 && end <= offset < end + a
  }

  /** What a definition adds, in terms of the members before it and the setting alone. */
  ghost predicate IsAdded(ms: seq<Member>, m: Member, name: string, ty: Ty, pack: Option<nat>, at: Option<nat>,
                          f: Option<Signature>)
  {
    && m.name == name && m.ty == ty && m.size == ty.Size() && m.function_ == f
    && IsAlignmentOf(m.alignment, ty, pack)
    && match at
       case Some(offset) => m.offset == offset
       case None => if ms == [] then m.offset == 0 else IsNextMultiple(m.offset, ms[|ms| - 1].End(), m.alignment)
  }

  lemma AddedIs(ms: seq<Member>, name: string, ty: Ty, pack: Option<nat>, at: Option<nat>, f: Option<Signature>)
    requires IsSetting(pack)
    ensures IsAdded(ms, AddedMember(ms, name, ty, pack, at, f), name, ty, pack, at, f)
  {
    if ms != [] {
      RoundUpIsNext(ms[|ms| - 1].End(), Aligned(ty, pack));
    }
    hide RoundUp;
  }

  lemma RoundUpIsNext(n: nat, a: nat)
    requires a > 0
    ensures IsNextMultiple(RoundUp(n, a), n, a)
  {
    RoundUpIsLeast(n, a);
    var q := (n + a - 1) / a;
    assert a * q <= n + a - 1;
  }

  /** Member `i` was placed right after the one before it. */
  predicate PlacedAt(ms: seq<Member>, i: nat)
    requires i < |ms|
  {
    && IsAlignment(ms[i].alignment) && ms[i].alignment <= ms[i].ty.Alignment() && ms[i].size == ms[i].ty.Size()
    && ms[i].offset == NextOffset(ms[..i], ms[i].alignment)
  }

  predicate Placed(ms: seq<Member>) {
    forall i :: 0 <= i < |ms| ==> PlacedAt(ms, i)
  }

  lemma PlacedNext(ms: seq<Member>, name: string, ty: Ty, pack: Option<nat>, f: Option<Signature>)
    requires Placed(ms) && IsSetting(pack)
    ensures Placed(ms + [NextMember(ms, name, ty, pack, f)])
  {
    var more := ms + [NextMember(ms, name, ty, pack, f)];
    forall i | 0 <= i < |more|
      ensures PlacedAt(more, i)
    {
      if i < |ms| {
        assert PlacedAt(ms, i) && more[..i] == ms[..i];
      } else {
        assert more[..i] == ms;
      }
    }
  }

  /** The largest alignment of the members; `None` for no members. */
  function MaxAlignment(ms: seq<Member>): (r: Option<nat>)
    ensures r.None? <==> ms == []
    ensures r.Some? ==> exists i :: 0 <= i < |ms| && ms[i].alignment == r.value
    ensures forall i :: 0 <= i < |ms| ==> ms[i].alignment <= r.value
  {
    if ms == [] then None
    else
      var a := ms[|ms| - 1].alignment;
      match MaxAlignment(ms[..|ms| - 1])
      case None => Some(a)
      case Some(b) => Some(Max(a, b))
  }

  predicate AllAligned(ms: seq<Member>) {
    forall i :: 0 <= i < |ms| ==> IsAlignment(ms[i].alignment)
  }

  lemma PlacedIsAligned(ms: seq<Member>)
    requires Placed(ms)
    ensures AllAligned(ms)
  {
    forall i | 0 <= i < |ms|
      ensures IsAlignment(ms[i].alignment)
    {
      assert PlacedAt(ms, i);
    }
  }

  lemma MaxOfAligned(ms: seq<Member>)
    requires AllAligned(ms) && ms != []
    ensures IsAlignment(MaxAlignment(ms).value)
  {
    var i :| 0 <= i < |ms| && ms[i].alignment == MaxAlignment(ms).value;
  }

  lemma MaxIsAlignment(ms: seq<Member>)
    requires Placed(ms) && ms != []
    ensures IsAlignment(MaxAlignment(ms).value)
  {
    PlacedIsAligned(ms);
    MaxOfAligned(ms);
  }

  function SizeOf(ms: seq<Member>): nat
    requires Placed(ms)
  {
    if ms == [] then 0
    else
      MaxIsAlignment(ms);
      NextOffset(ms, MaxAlignment(ms).value)
  }

  function Normalised(ret: string, args: seq<string>): (f: Signature)
    ensures f.ret == NormalizeArgType(ret) && |f.args| == |args|
    ensures forall i :: 0 <= i < |args| ==> f.args[i] == NormalizeArgType(args[i])
  {
    Signature(NormalizeArgType(ret), seq(|args|, i requires 0 <= i < |args| => NormalizeArgType(args[i])))
  }

  /** The state of a subclass of Protocol. */
  class ProtocolClass {
    var members: seq<Member>
    var packAlignment: Option<nat>
    var sizeMemo: Option<nat>
    var alignmentMemo: Option<nat>

    ghost predicate Valid()
      reads this
    {
      && AllAligned(members)
      && IsSetting(packAlignment)
      && (alignmentMemo.Some? ==> IsAlignment(alignmentMemo.value))
    }

    constructor Inherited()
      ensures Valid() && Placed(members) && members == []
      ensures packAlignment == None && sizeMemo == None && alignmentMemo == None
    {
      members, packAlignment, sizeMemo, alignmentMemo := [], None, None, None;
    }

    method CalculateNextOffset(alignment: nat) returns (offset: nat)
      requires Valid() && alignment > 0
      ensures offset == NextOffset(members, alignment)
    {
      if members == [] {
        return 0;
      }
      var last := members[|members| - 1];
      return (last.offset + last.size + alignment - 1) / alignment * alignment;
    }

    /**
     * What both definitions do: the alignment is the type's or a smaller setting, and the
     * member comes at the next offset unless one is given.
     */
    method AddMember(name: string, ty: Ty, at: Option<nat>, f: Option<Signature>)
      requires Valid()
      modifies this`members
      ensures Valid()
      ensures members == old(members) + [AddedMember(old(members), name, ty, packAlignment, at, f)]
      ensures IsAdded(old(members), members[|old(members)|], name, ty, packAlignment, at, f)
      ensures at.None? && old(Placed(members)) ==> Placed(members)
    {
      AddedIs(members, name, ty, packAlignment, at, f);
      hide PlacedAt, Placed, NextOffset, IsAdded;
      var alignment := if packAlignment.Some? then Min(packAlignment.value, ty.Alignment()) else ty.Alignment();
      var offset;
      if at.Some? {
        offset := at.value;
      } else {
        offset := CalculateNextOffset(alignment);
      }
      if Placed(members) {
        PlacedNext(members, name, ty, packAlignment, f);
      }
      members := members + [Member(name, ty, alignment, offset, ty.Size(), f)];
    }

    /** Adds a variable; an unknown type raises before anything changes. */
    method DefineVariable(name: string, sym: string, at: Option<nat>) returns (ok: bool)
      requires Valid()
      modifies this`members
      ensures Valid()
      ensures ok <==> IsType(sym)
      ensures !ok ==> members == old(members)
      ensures ok ==> var ty := TypeOf(NormalizeArgType(sym)).value;
                     && members == old(members) + [AddedMember(old(members), name, ty, packAlignment, at, None)]
                     && IsAdded(old(members), members[|old(members)|], name, ty, packAlignment, at, None)
      ensures at.None? && old(Placed(members)) ==> Placed(members)
    {
      if !IsType(sym) {
        return false;
      }
      NormalizedIsType(sym);
      hide *;
      AddMember(name, TypeOf(NormalizeArgType(sym)).value, at, None);
      return true;
    }

    /** Adds a function pointer with a normalised signature. */
    method DefineFunction(name: string, ret: string, args: seq<string>, at: Option<nat>) returns (ok: bool)
      requires Valid()
      modifies this`members
      ensures Valid()
      ensures ok <==> IsType(ret) && forall i :: 0 <= i < |args| ==> IsType(args[i])
      ensures !ok ==> members == old(members)
      ensures ok ==> members == old(members) +
                                [AddedMember(old(members), name, P, packAlignment, at, Some(Normalised(ret, args)))]
      ensures ok ==> IsAdded(old(members), members[|old(members)|], name, P, packAlignment, at,
                             Some(Normalised(ret, args)))
      ensures at.None? && old(Placed(members)) ==> Placed(members)
    {
      if !IsType(ret) || exists i :: 0 <= i < |args| && !IsType(args[i]) {
        return false;
      }
      hide *;
      AddMember(name, P, at, Some(Normalised(ret, args)));
      return true;
    }

    /** Changes the setting for the members that follow; only nil, 1, 2, 4 and 8 are accepted. */
    method Pack(alignment: Option<int>) returns (ok: bool)
      requires Valid()
      modifies this`packAlignment
      ensures Valid()
      ensures ok <==> alignment.None? || IsAlignment(alignment.value)
      ensures ok ==> packAlignment == if alignment.None? then None else Some(alignment.value)
      ensures !ok ==> packAlignment == old(packAlignment)
    {
      if alignment.Some? && !IsAlignment(alignment.value) {
        return false;
      }
      packAlignment := if alignment.None? then None else Some(alignment.value);
      return true;
    }

    /** The largest alignment, remembered from the first call that finds a member. */
    method Alignment() returns (r: Option<nat>)
      requires Valid()
      modifies this`alignmentMemo
      ensures Valid()
      ensures r == (if old(alignmentMemo).Some? then old(alignmentMemo) else MaxAlignment(members)) == alignmentMemo
    {
      if alignmentMemo.None? {
        if members != [] {
          MaxOfAligned(members);
        }
        alignmentMemo := MaxAlignment(members);
      }
      return alignmentMemo;
    }

    /** The size of the struct, remembered from the first call. */
    method Size() returns (n: nat)
      requires Valid()
      modifies this`sizeMemo, this`alignmentMemo
      ensures Valid()
      ensures old(sizeMemo).Some? ==> n == old(sizeMemo.value) && alignmentMemo == old(alignmentMemo)
      ensures old(sizeMemo).None? ==>
                alignmentMemo == (if old(alignmentMemo).Some? then old(alignmentMemo) else MaxAlignment(members)) &&
                n == if members == [] then 0 else NextOffset(members, alignmentMemo.value)
      ensures old(sizeMemo).None? && old(alignmentMemo).None? && Placed(members) ==> n == SizeOf(members)
      ensures sizeMemo == Some(n)
    {
      if sizeMemo.None? {
        var a := Alignment();
        if a.None? {
          sizeMemo := Some(0);
        } else {
          var offset := CalculateNextOffset(a.value);
          sizeMemo := Some(offset);
        }
      }
      return sizeMemo.value;
    }
  }
}
