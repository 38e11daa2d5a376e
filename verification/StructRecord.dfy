/**
 * A struct in memory behaves as a record of independent fields: get and set through a placed
 * layout agree, over every run, with a plain list of field values.
 */
module StructRecord {
  import opened Bytes
  import opened Types
  import opened Layout
  import opened TypedMemory
  import LayoutProperties

  /** The bytes of member `m` of the struct at `base`. */
  function FieldBytes(mem: seq<byte>, base: nat, m: Member): (s: seq<byte>)
    requires base + m.End() <= |mem|
    ensures |s| == m.size
  {
    mem[base + m.offset..base + m.End()]
  }

  /** A Protocol instance fits: all its members lie within memory. */
  predicate Fits(mem: seq<byte>, base: nat, ms: seq<Member>) {
    Placed(ms) && base + SizeOf(ms) <= |mem|
  }

  lemma MemberFits(mem: seq<byte>, base: nat, ms: seq<Member>, i: nat)
    requires Fits(mem, base, ms) && i < |ms|
    ensures base + ms[i].End() <= |mem| && ms[i].size == ms[i].ty.Size()
  {
    LayoutProperties.EndsWithinSize(ms, i);
    LayoutProperties.PlacedStep(ms, i);
  }

  /** get_raw_value on member `i`. */
  function Get(mem: seq<byte>, base: nat, ms: seq<Member>, i: nat): Option<Value>
    requires Fits(mem, base, ms) && i < |ms|
  {
    MemberFits(mem, base, ms, i);
    if ms[i].ty == B then None else Some(Load(ms[i].ty, FieldBytes(mem, base, ms[i])))
  }

  /** set_raw_value on member `i`. */
  function Set(mem: seq<byte>, base: nat, ms: seq<Member>, i: nat, v: Value): (r: seq<byte>)
    requires Fits(mem, base, ms) && i < |ms|
    ensures |r| == |mem| && Fits(r, base, ms)
  {
    MemberFits(mem, base, ms, i);
    if ms[i].ty == B then mem else Write(mem, base + ms[i].offset, Image(ms[i].ty, v))
  }

  /** The record a struct in memory stands for. */
  function Record(mem: seq<byte>, base: nat, ms: seq<Member>): (r: seq<Option<Value>>)
    requires Fits(mem, base, ms)
    ensures |r| == |ms| && forall i :: 0 <= i < |ms| ==> r[i] == Get(mem, base, ms, i)
  {
    seq(|ms|, i requires 0 <= i < |ms| => Get(mem, base, ms, i))
  }

  /** Setting a member leaves the bytes of every other member, and all bytes outside it, as they were. */
  lemma SetLeavesOthers(mem: seq<byte>, base: nat, ms: seq<Member>, i: nat, v: Value, j: nat)
    requires Fits(mem, base, ms) && i < |ms| && j < |ms| && i != j
    ensures base + ms[j].End() <= |mem|
    ensures FieldBytes(Set(mem, base, ms, i, v), base, ms[j]) == FieldBytes(mem, base, ms[j])
    ensures forall k :: 0 <= k < |mem| && !(base + ms[i].offset <= k < base + ms[i].End()) ==>
              Set(mem, base, ms, i, v)[k] == mem[k]
  {
    MemberFits(mem, base, ms, i);
    MemberFits(mem, base, ms, j);
    if i < j {
      LayoutProperties.PlacedInOrder(ms, i, j);
    } else {
      LayoutProperties.PlacedInOrder(ms, j, i);
    }
    hide Fits, Image, Placed, SizeOf;
  }

  /** A member just set reads as the value wrapped to its type. */
  lemma GetAfterSet(mem: seq<byte>, base: nat, ms: seq<Member>, i: nat, v: Value)
    requires Fits(mem, base, ms) && i < |ms| && ms[i].ty != B
    ensures Get(Set(mem, base, ms, i, v), base, ms, i) == Some(ValueOf(ms[i].ty, Bits(v)))
  {
    MemberFits(mem, base, ms, i);
    LoadStored(ms[i].ty, v);
    hide Fits, Image, Load, ValueOf;
  }

  /** One set on memory is one field update on the record. */
  lemma SetUpdatesRecord(mem: seq<byte>, base: nat, ms: seq<Member>, i: nat, v: Value)
    requires Fits(mem, base, ms) && i < |ms|
    ensures Record(Set(mem, base, ms, i, v), base, ms) == SetField(Record(mem, base, ms), ms, i, v)
  {
    var next := Set(mem, base, ms, i, v);
    forall j | 0 <= j < |ms|
      ensures Record(next, base, ms)[j] == SetField(Record(mem, base, ms), ms, i, v)[j]
    {
      if j != i {
        MemberFits(mem, base, ms, j);
        SetLeavesOthers(mem, base, ms, i, v, j);
      } else if ms[i].ty != B {
        GetAfterSet(mem, base, ms, i, v);
      }
    }
  }

  // ---------------------------------------------------------------------------
  // Runs

  datatype Op = Read(i: nat) | Assign(i: nat, v: Value)

  /** Accessors exist for variables, and values have the kind of their type. */
  predicate IsOp(op: Op, ms: seq<Member>) {
    op.i < |ms| && ms[op.i].function_.None? && (op.Assign? ==> Matches(ms[op.i].ty, op.v))
  }

  /** What running an operation gives: `None` where it raises; an assignment gives its operand. */
  function Run(mem: seq<byte>, base: nat, ms: seq<Member>, ops: seq<Op>): (r: (seq<byte>, seq<Option<Value>>))
    requires Fits(mem, base, ms) && forall k :: 0 <= k < |ops| ==> IsOp(ops[k], ms)
    ensures Fits(r.0, base, ms) && |r.0| == |mem|
    decreases |ops|
  {
    if ops == [] then (mem, [])
    else
      assert IsOp(ops[0], ms);
      match ops[0]
      case Read(i) =>
        var rest := Run(mem, base, ms, ops[1..]);
        (rest.0, [Get(mem, base, ms, i)] + rest.1)
      case Assign(i, v) =>
        var rest := Run(Set(mem, base, ms, i, v), base, ms, ops[1..]);
        (rest.0, [if ms[i].ty == B then None else Some(v)] + rest.1)
  }

  function SetField(record: seq<Option<Value>>, ms: seq<Member>, i: nat, v: Value): (r: seq<Option<Value>>)
    requires |record| == |ms| && i < |ms|
    ensures |r| == |ms|
  {
    if ms[i].ty == B then record else record[i := Some(ValueOf(ms[i].ty, Bits(v)))]
  }

  /** The same run on a plain record. */
  function RunRecord(record: seq<Option<Value>>, ms: seq<Member>, ops: seq<Op>):
    (r: (seq<Option<Value>>, seq<Option<Value>>))
    requires |record| == |ms| && forall k :: 0 <= k < |ops| ==> IsOp(ops[k], ms)
    ensures |r.0| == |ms|
    decreases |ops|
  {
    if ops == [] then (record, [])
    else
      assert IsOp(ops[0], ms);
      match ops[0]
      case Read(i) =>
        var rest := RunRecord(record, ms, ops[1..]);
        (rest.0, [record[i]] + rest.1)
      case Assign(i, v) =>
        var rest := RunRecord(SetField(record, ms, i, v), ms, ops[1..]);
        (rest.0, [if ms[i].ty == B then None else Some(v)] + rest.1)
  }

  /** Every run over memory gives the results of the same run over the record, and ends in its record. */
  lemma {:induction false} MemoryRefinesRecord(mem: seq<byte>, base: nat, ms: seq<Member>, ops: seq<Op>)
    requires Fits(mem, base, ms) && forall k :: 0 <= k < |ops| ==> IsOp(ops[k], ms)
    ensures Run(mem, base, ms, ops).1 == RunRecord(Record(mem, base, ms), ms, ops).1
    ensures Record(Run(mem, base, ms, ops).0, base, ms) == RunRecord(Record(mem, base, ms), ms, ops).0
    decreases |ops|
  {
    hide Get, Set, SetField, Fits;
    if ops != [] {
      assert IsOp(ops[0], ms);
      match ops[0]
      case Read(i) =>
        MemoryRefinesRecord(mem, base, ms, ops[1..]);
      case Assign(i, v) =>
        SetUpdatesRecord(mem, base, ms, i, v);
        MemoryRefinesRecord(Set(mem, base, ms, i, v), base, ms, ops[1..]);
    }
  }

  /** The operation assigns a member that holds the byte at `k`. */
  predicate Touches(op: Op, base: nat, ms: seq<Member>, k: nat) {
    op.Assign? && op.i < |ms| && base + ms[op.i].offset <= k < base + ms[op.i].End()
  }

  /** A run touches only the bytes of the members it assigns: padding and other memory stay. */
  lemma {:induction false} RunLeavesRest(mem: seq<byte>, base: nat, ms: seq<Member>, ops: seq<Op>, k: nat)
    requires Fits(mem, base, ms) && (forall n :: 0 <= n < |ops| ==> IsOp(ops[n], ms)) && k < |mem|
    requires forall n :: 0 <= n < |ops| ==> !Touches(ops[n], base, ms, k)
    ensures Run(mem, base, ms, ops).0[k] == mem[k]
    decreases |ops|
  {
    hide Get, Fits;
    if ops != [] {
      assert IsOp(ops[0], ms) && !Touches(ops[0], base, ms, k);
      if ops[0].Assign? {
        var i, v := ops[0].i, ops[0].v;
        SetLeavesRest(mem, base, ms, i, v, k);
        hide Set;
        RunLeavesRest(Set(mem, base, ms, i, v), base, ms, ops[1..], k);
      } else {
        RunLeavesRest(mem, base, ms, ops[1..], k);
      }
    }
  }

  lemma SetLeavesRest(mem: seq<byte>, base: nat, ms: seq<Member>, i: nat, v: Value, k: nat)
    requires Fits(mem, base, ms) && i < |ms| && k < |mem|
    requires !(base + ms[i].offset <= k < base + ms[i].End())
    ensures Set(mem, base, ms, i, v)[k] == mem[k]
  {
    MemberFits(mem, base, ms, i);
  }

  /** A Protocol object: a pointer to a struct, and its class's layout. */
  class Instance {
    const mem: array<byte>
    const base: nat
    const members: seq<Member>

    constructor (mem: array<byte>, base: nat, members: seq<Member>)
      requires Fits(mem[..], base, members)
      ensures this.mem == mem && this.base == base && this.members == members
    {
      this.mem, this.base, this.members := mem, base, members;
    }

    /** The reader of a variable. */
    method Read(i: nat) returns (r: Option<Value>)
      requires Fits(mem[..], base, members) && i < |members|
      ensures r == Record(mem[..], base, members)[i]
    {
      MemberFits(mem[..], base, members, i);
      r := GetRawValue(mem, base + members[i].offset, members[i].ty);
      ghost var start, end := base + members[i].offset, base + members[i].End();
      assert mem[..][start..end] == mem[start..end];
    }

    /** The writer of a variable. */
    method Assign(i: nat, v: Value) returns (ok: bool)
      requires Fits(mem[..], base, members) && i < |members| && Matches(members[i].ty, v)
      modifies mem
      ensures ok <==> members[i].ty != B
      ensures mem[..] == Set(old(mem[..]), base, members, i, v)
      ensures Record(mem[..], base, members) == SetField(Record(old(mem[..]), base, members), members, i, v)
    {
      MemberFits(mem[..], base, members, i);
      SetUpdatesRecord(mem[..], base, members, i, v);
      ok := SetRawValue(mem, base + members[i].offset, members[i].ty, v);
    }
  }
}
