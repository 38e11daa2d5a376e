/**
 * RuntimeService.get_all_variable_names: the loop that walks the firmware's variables with
 * GetNextVariableName (section 8.2 of the UEFI Specification), growing its name buffer.
 */
module Variables {
  import opened Bytes
  import opened Names

  /** A variable: its name without the terminator, and its vendor GUID. */
  datatype Variable = Variable(name: seq<char16>, guid: seq<byte>)

  /** A name as the caller sees it: the narrowed bytes, and the GUID. */
  datatype Entry = Entry(guid: seq<byte>, name: seq<byte>)

  datatype EfiStatus = Success | BufferTooSmall | NotFound | DeviceError

  /** The bytes a name takes with its terminator. */
  function Needed(v: Variable): nat {
    2 * (|v.name| + 1)
  }

  /** What firmware guarantees: names are non-empty and NUL-free, and no variable is listed twice. */
  ghost predicate Listing(vars: seq<Variable>) {
    && (forall i :: 0 <= i < |vars| ==> vars[i].name != [] && 0 !in vars[i].name)
    && (forall i, j :: 0 <= i < j < |vars| ==> vars[i] != vars[j])
  }

  /** Where a variable stands in the list. */
  function IndexOf(vars: seq<Variable>, v: Variable): (r: Option<nat>)
    ensures r.Some? ==> r.value < |vars| && vars[r.value] == v
  {
    if vars == [] then None
    else if vars[0] == v then Some(0)
    else match IndexOf(vars[1..], v)
         case Some(i) => Some(i + 1)
         case None => None
  }

  lemma {:induction false} IndexOfListed(vars: seq<Variable>, i: nat)
    requires Listing(vars) && i < |vars|
    ensures IndexOf(vars, vars[i]) == Some(i)
  {
    if i > 0 {
      assert vars[0] != vars[i];
      assert vars[1..][i - 1] == vars[i];
      IndexOfListed(vars[1..], i - 1);
    }
  }

  /** A firmware that holds a list of variables; from call `faultAt` on it reports a device error. */
  class Firmware {
    const vars: seq<Variable>
    const faultAt: Option<nat>
    var calls: nat

    constructor (vars: seq<Variable>, faultAt: Option<nat>)
      ensures this.vars == vars && this.faultAt == faultAt && calls == 0
    {
      this.vars, this.faultAt, calls := vars, faultAt, 0;
    }

    predicate Faulty()
      reads this
    {
      faultAt.Some? && calls >= faultAt.value
    }

    /**
     * The variable after the one named by `buf` and `guid`, or the first for an empty name.  A
     * buffer of `size` bytes that cannot hold the name is left alone and the size needed is
     * returned.
     */
    method GetNextVariableName(size: nat, buf: array<char16>, guid: seq<byte>)
      returns (status: EfiStatus, needed: nat, next: seq<byte>)
      requires 0 in buf[..] && size == 2 * buf.Length
      modifies this`calls, buf
      ensures calls == old(calls) + 1
      ensures old(Faulty()) ==> status == DeviceError
      ensures !old(Faulty()) ==>
                status == Answer(vars, Position(vars, old(buf[..]), guid), size)
      ensures status == Success ==>
                var v := vars[Position(vars, old(buf[..]), guid).value];
                needed == Needed(v) && next == v.guid && buf[..|v.name| + 1] == v.name + [0]
      ensures status == BufferTooSmall ==> needed == Needed(vars[Position(vars, old(buf[..]), guid).value])
      ensures status != Success ==> next == guid && buf[..] == old(buf[..])
    {
      next := guid;
      needed := size;
      calls := calls + 1;
      if faultAt.Some? && calls - 1 >= faultAt.value {
        return DeviceError, needed, next;
      }
      var at := Position(vars, buf[..], guid);
      if at.None? || at.value == |vars| {
        return NotFound, needed, next;
      }
      var v := vars[at.value];
      needed := Needed(v);
      if needed > size {
        return BufferTooSmall, needed, next;
      }
      next := v.guid;
      status := Success;
      var i := 0;
      while i < |v.name|
        invariant 0 <= i <= |v.name| && buf[..i] == v.name[..i]
        invariant calls == old(calls) + 1
      {
        buf[i] := v.name[i];
        i := i + 1;
      }
      assert v.name[..i] == v.name;
      buf[i] := 0;
    }
  }

  /** The name a buffer holds. */
  function NameIn(buf: seq<char16>): seq<char16>
    requires 0 in buf
  {
    buf[..WcsLen(buf)]
  }

  /** The place in the list after the variable that a buffer and a GUID name. */
  function Position(vars: seq<Variable>, buf: seq<char16>, guid: seq<byte>): (r: Option<nat>)
    requires 0 in buf
    ensures r.Some? ==> r.value <= |vars|
  {
    if NameIn(buf) == [] then Some(0)
    else match IndexOf(vars, Variable(NameIn(buf), guid))
         case Some(i) => Some(i + 1)
         case None => None
  }

  function Answer(vars: seq<Variable>, at: Option<nat>, size: nat): (s: EfiStatus)
    requires at.Some? ==> at.value <= |vars|
    ensures s == Success || s == BufferTooSmall ==> at.Some? && at.value < |vars|
  {
    if at.None? || at.value == |vars| then NotFound
    else if Needed(vars[at.value]) > size then BufferTooSmall
    else Success
  }

  // ---------------------------------------------------------------------------
  // What the loop should return

  function EntryOf(v: Variable): Entry {
    Entry(v.guid, Narrow(v.name + [0]))
  }

  function Entries(vars: seq<Variable>): (es: seq<Entry>)
    ensures |es| == |vars| && forall i :: 0 <= i < |vars| ==> es[i] == EntryOf(vars[i])
  {
    seq(|vars|, i requires 0 <= i < |vars| => EntryOf(vars[i]))
  }

  /** An entry for a variable: its GUID, and its name, each unit cut to its low byte. */
  predicate Lists(e: Entry, v: Variable) {
    && e.guid == v.guid && |e.name| == |v.name|
    && forall j :: 0 <= j < |v.name| ==> e.name[j] == v.name[j] % 256
  }

  lemma EntryLists(v: Variable)
    requires 0 !in v.name
    ensures Lists(EntryOf(v), v)
  {
    var u := v.name + [0];
    assert forall i :: 0 <= i < |v.name| ==> u[i] == v.name[i];
    WcsLenIs(u, |v.name|);
  }

  /** The buffer is 64 bytes, or as large as the longest name takes with its terminator if that is more. */
  ghost predicate IsLargestNeed(size: nat, vars: seq<Variable>) {
    && size >= 64 && (forall i :: 0 <= i < |vars| ==> 2 * (|vars[i].name| + 1) <= size)
    && (size == 64 || exists i :: 0 <= i < |vars| && size == 2 * (|vars[i].name| + 1))
  }

  const INITIAL_SIZE: nat := 64

  /** The buffer size after the first `n` variables: the largest need so far, at least 64. */
  function SizeAfter(vars: seq<Variable>, n: nat): (size: nat)
    requires n <= |vars|
    ensures size >= INITIAL_SIZE
  {
    if n == 0 then INITIAL_SIZE else Max(SizeAfter(vars, n - 1), Needed(vars[n - 1]))
  }

  /** The variables whose names need more room than all names before them. */
  predicate Grows(vars: seq<Variable>, i: nat)
    requires i < |vars|
  {
    Needed(vars[i]) > SizeAfter(vars, i)
  }

  /** How many of the first `n` variables make the buffer grow. */
  function Growths(vars: seq<Variable>, n: nat): nat
    requires n <= |vars|
  {
    if n == 0 then 0 else Growths(vars, n - 1) + if Grows(vars, n - 1) then 1 else 0
  }

  /** Every allocation of the walk succeeds. */
  ghost predicate Allocates(allocOk: nat -> bool, vars: seq<Variable>, n: nat)
    requires n <= |vars|
  {
    allocOk(INITIAL_SIZE) && forall i :: 0 <= i < n && Grows(vars, i) ==> allocOk(Needed(vars[i]))
  }

  /** The calls the walk makes before it has passed `n` variables. */
  function CallsBefore(vars: seq<Variable>, n: nat): nat
    requires n <= |vars|
  {
    n + Growths(vars, n)
  }

  lemma {:induction false} CallsGrow(vars: seq<Variable>, i: nat, n: nat)
    requires i <= n <= |vars|
    ensures CallsBefore(vars, i) <= CallsBefore(vars, n)
    ensures i < n && Grows(vars, i) ==> CallsBefore(vars, i) + 2 <= CallsBefore(vars, n)
    decreases n - i
  {
    if i < n {
      CallsGrow(vars, i + 1, n);
    }
  }

  /** The final size is the largest need of any name, at least 64. */
  lemma {:induction false} SizeAfterIsMax(vars: seq<Variable>, n: nat)
    requires n <= |vars|
    ensures forall i :: 0 <= i < n ==> Needed(vars[i]) <= SizeAfter(vars, n)
    ensures SizeAfter(vars, n) == INITIAL_SIZE || exists i :: 0 <= i < n && Needed(vars[i]) == SizeAfter(vars, n)
  {
    if n > 0 {
      SizeAfterIsMax(vars, n - 1);
    }
  }

  lemma {:induction false} WcsLenIs(u: seq<char16>, n: nat)
    requires n < |u| && u[n] == 0 && forall i :: 0 <= i < n ==> u[i] != 0
    ensures 0 in u && WcsLen(u) == n
  {
    if n > 0 {
      assert u[1..][n - 1] == 0;
      WcsLenIs(u[1..], n - 1);
    }
  }

  /** A buffer that starts with a terminated name holds that name. */
  lemma HoldsName(buf: seq<char16>, name: seq<char16>)
    requires |name| < |buf| && buf[..|name| + 1] == name + [0] && 0 !in name
    ensures 0 in buf && NameIn(buf) == name && Narrow(buf) == Narrow(name + [0])
  {
    forall i | 0 <= i <= |name|
      ensures buf[i] == (name + [0])[i]
    {
      assert buf[..|name| + 1][i] == buf[i];
    }
    WcsLenIs(buf, |name|);
    WcsLenIs(name + [0], |name|);
    assert buf[..|name|] == name;
  }

  lemma LongerBufferHoldsSame(buf: seq<char16>, longer: seq<char16>)
    requires 0 in buf && buf <= longer
    ensures 0 in longer && NameIn(longer) == NameIn(buf)
  {
    var n := WcsLen(buf);
    forall i | 0 <= i <= n
      ensures longer[i] == buf[i]
    {
    }
    WcsLenIs(longer, n);
  }

  /** realloc to more units: the old contents stay in front. */
  method Reallocate(buf: array<char16>, units: nat) returns (longer: array<char16>)
    requires units >= buf.Length
    ensures fresh(longer) && longer.Length == units && buf[..] <= longer[..]
  {
    longer := new char16[units];
    var i := 0;
    while i < buf.Length
      invariant 0 <= i <= buf.Length && longer[..i] == buf[..i]
    {
      longer[i] := buf[i];
      i := i + 1;
    }
    assert longer[..i] == buf[..];
  }

  /** Where the walk stands after a call: `i` variables passed, the buffer grown for the next one or not. */
  ghost predicate Stands(vars: seq<Variable>, i: nat, grown: bool, buf: seq<char16>, guid: seq<byte>, bufSize: nat,
                         calls: nat)
  {
    && i <= |vars|
    && (grown ==> i < |vars| && Grows(vars, i))
    && bufSize == (if grown then Needed(vars[i]) else SizeAfter(vars, i))
    && |buf| * 2 == bufSize
    && 0 in buf && Position(vars, buf, guid) == Some(i)
    && calls == CallsBefore(vars, i) + if grown then 1 else 0
  }

  /** Before a call that did not fail, and after it with its answer. */
  lemma Advance(vars: seq<Variable>, i: nat, grown: bool, buf: seq<char16>, guid: seq<byte>, bufSize: nat, calls: nat,
                next: seq<char16>, nextGuid: seq<byte>)
    requires Listing(vars) && Stands(vars, i, grown, buf, guid, bufSize, calls)
    requires i < |vars| && Answer(vars, Some(i), bufSize) == Success
    requires |next| == |buf| && nextGuid == vars[i].guid
    requires |vars[i].name| < |next| && next[..|vars[i].name| + 1] == vars[i].name + [0]
    ensures Stands(vars, i + 1, false, next, nextGuid, bufSize, calls + 1)
    ensures Narrow(next) == EntryOf(vars[i]).name && 0 in next
    ensures Grows(vars, i) ==> grown
  {
    HoldsName(next, vars[i].name);
    IndexOfListed(vars, i);
    assert Variable(NameIn(next), nextGuid) == vars[i];
    assert vars[i].name != [];
  }

  lemma StartsEmpty(vars: seq<Variable>, buf: seq<char16>, guid: seq<byte>)
    requires |buf| * 2 == INITIAL_SIZE && buf[0] == 0
    ensures Stands(vars, 0, false, buf, guid, INITIAL_SIZE, 0)
  {
    WcsLenIs(buf, 0);
  }

  /** The calls of a walk over all variables: one for each, one for each growth, and the last. */
  function AllCalls(vars: seq<Variable>): nat {
    |vars| + Growths(vars, |vars|) + 1
  }

  /** What a call from such a point answered. */
  ghost predicate Replied(vars: seq<Variable>, i: nat, grown: bool, before: seq<char16>, beforeGuid: seq<byte>,
                          bufSize: nat, status: EfiStatus, size: nat, buf: seq<char16>, guid: seq<byte>)
  {
    && |buf| == |before|
    && match status
       case Success =>
         && i < |vars| && Answer(vars, Some(i), bufSize) == Success && guid == vars[i].guid
         && |vars[i].name| < |buf| && buf[..|vars[i].name| + 1] == vars[i].name + [0]
       case BufferTooSmall =>
         && i < |vars| && !grown && Grows(vars, i) && size == Needed(vars[i]) > bufSize
         && buf == before && guid == beforeGuid
       case NotFound => i == |vars|
       case DeviceError => true
  }

  /** One call, from a point of the walk. */
  method AskNext(fw: Firmware, bufSize: nat, buf: array<char16>, guid: seq<byte>,
                 ghost i: nat, ghost grown: bool, ghost done: nat)
    returns (status: EfiStatus, size: nat, next: seq<byte>)
    requires Stands(fw.vars, i, grown, buf[..], guid, bufSize, done)
    modifies fw`calls, buf
    ensures fw.calls == old(fw.calls) + 1
    ensures status == DeviceError <==> old(fw.Faulty())
    ensures Replied(fw.vars, i, grown, old(buf[..]), guid, bufSize, status, size, buf[..], next)
  {
    hide Position, Narrow;
    status, size, next := fw.GetNextVariableName(bufSize, buf, guid);
  }

  /** After growing, the walk stands where it was, with room for the next name. */
  lemma GrownStands(vars: seq<Variable>, i: nat, buf: seq<char16>, guid: seq<byte>, bufSize: nat, done: nat,
                    longer: seq<char16>)
    requires Stands(vars, i, false, buf, guid, bufSize, done) && i < |vars| && Grows(vars, i)
    requires buf <= longer && |longer| * 2 == Needed(vars[i])
    ensures Stands(vars, i, true, longer, guid, Needed(vars[i]), done + 1)
  {
    LongerBufferHoldsSame(buf, longer);
  }

  /**
   * The walk returns every variable once, in order, exactly when all its allocations succeed
   * and no call reports another error; otherwise it returns nil.
   */
  method GetAllVariableNames(fw: Firmware, allocOk: nat -> bool) returns (names: Option<seq<Entry>>, bufSize: nat)
    requires Listing(fw.vars)
    modifies fw`calls
    ensures names.Some? <==>
              Allocates(allocOk, fw.vars, |fw.vars|) &&
              (fw.faultAt.Some? ==> old(fw.calls) + AllCalls(fw.vars) <= fw.faultAt.value)
    ensures names.Some? ==>
              && names.value == Entries(fw.vars)
              && fw.calls == old(fw.calls) + AllCalls(fw.vars)
              && bufSize == SizeAfter(fw.vars, |fw.vars|)
    ensures names.Some? ==> |names.value| == |fw.vars|
    ensures names.Some? ==> forall i :: 0 <= i < |fw.vars| ==> Lists(names.value[i], fw.vars[i])
    ensures names.Some? ==> fw.calls == old(fw.calls) + |fw.vars| + Growths(fw.vars, |fw.vars|) + 1
    ensures names.Some? ==> IsLargestNeed(bufSize, fw.vars)
  {
    hide Stands, Replied, Grows, Answer, Entries, AllCalls, Position, Narrow, WcsLen, SizeAfter, Listing, NameIn;
    bufSize := INITIAL_SIZE;
    var size := bufSize;
    if !allocOk(bufSize) {
      return None, bufSize;
    }
    var buf := new char16[bufSize / 2];
    buf[0] := 0;
    var result: seq<Entry>, guid: seq<byte>, status := [], [], Success;
    ghost var vars, i: nat, grown, done: nat := fw.vars, 0, false, 0;
    ghost var before, beforeGuid := buf[..], guid;
    StartsEmpty(vars, before, guid);
    status, size, guid := AskNext(fw, bufSize, buf, guid, i, grown, done);
    while status == Success || status == BufferTooSmall
      invariant i <= |vars| && fresh(buf) && 2 * buf.Length == bufSize && fw.calls == old(fw.calls) + done + 1
      invariant Stands(vars, i, grown, before, beforeGuid, bufSize, done)
      invariant Replied(vars, i, grown, before, beforeGuid, bufSize, status, size, buf[..], guid)
      invariant result == Entries(vars[..i]) && Allocates(allocOk, vars, i)
      invariant grown ==> i < |vars| && allocOk(Needed(vars[i]))
      invariant if status == DeviceError then fw.faultAt.Some? && fw.faultAt.value < fw.calls
                else fw.faultAt.Some? ==> fw.calls <= fw.faultAt.value
      decreases |vars| - i, if grown then 0 else 1, if status == Success || status == BufferTooSmall then 1 else 0
    {
      RepliedFacts(vars, i, grown, before, beforeGuid, bufSize, status, size, buf[..], guid);
      if status == BufferTooSmall {
        if !allocOk(size) {
          return None, bufSize;
        }
        assert size / 2 == |vars[i].name| + 1;
        var newBuf := Reallocate(buf, size / 2);
        GrownStands(vars, i, before, beforeGuid, bufSize, done, newBuf[..]);
        buf, bufSize, grown := newBuf, size, true;
      } else if status == Success {
        Advance(vars, i, grown, before, beforeGuid, bufSize, done, buf[..], guid);
        var name := Utf16ToAscii(buf[..]);
        result := result + [Entry(guid, name)];
        EntriesSnoc(vars, i);
        AllocatesSnoc(allocOk, vars, i);
        i, grown := i + 1, false;
      }
      done, before, beforeGuid := done + 1, buf[..], guid;
      size := bufSize;
      status, size, guid := AskNext(fw, bufSize, buf, guid, i, grown, done);
    }
    CallsBounded(vars, i, grown, before, beforeGuid, bufSize, done);
    if status != NotFound {
      return None, bufSize;
    }
    RepliedFacts(vars, i, grown, before, beforeGuid, bufSize, status, size, buf[..], guid);
    assert vars[..i] == vars;
    WalkDone(vars);
    return Some(result), bufSize;
  }

  lemma WalkDone(vars: seq<Variable>)
    requires Listing(vars)
    ensures forall i :: 0 <= i < |vars| ==> Lists(Entries(vars)[i], vars[i])
    ensures IsLargestNeed(SizeAfter(vars, |vars|), vars)
    ensures AllCalls(vars) == |vars| + Growths(vars, |vars|) + 1
  {
    LargestNeed(vars);
    hide IsLargestNeed, SizeAfter, Growths, Lists, EntryOf;
    forall i | 0 <= i < |vars|
      ensures Lists(Entries(vars)[i], vars[i])
    {
      EntryLists(vars[i]);
    }
  }

  lemma LargestNeed(vars: seq<Variable>)
    ensures IsLargestNeed(SizeAfter(vars, |vars|), vars)
  {
    SizeAfterIsMax(vars, |vars|);
    hide SizeAfter;
    assert forall i :: 0 <= i < |vars| ==> Needed(vars[i]) == 2 * (|vars[i].name| + 1);
  }

  /** A name makes the buffer grow exactly if it takes more than 64 bytes and more than every name before it. */
  lemma GrowsExactly(vars: seq<Variable>, i: nat)
    requires i < |vars|
    ensures Grows(vars, i) <==>
            2 * (|vars[i].name| + 1) > 64 && forall j :: 0 <= j < i ==> |vars[i].name| > |vars[j].name|
  {
    SizeAfterIsMax(vars, i);
    hide SizeAfter;
    if Grows(vars, i) {
      assert forall j :: 0 <= j < i ==> Needed(vars[j]) <= SizeAfter(vars, i);
    }
  }

  /** The growths are as many as those names. */
  lemma {:induction false} GrowthsCounted(vars: seq<Variable>, n: nat)
    requires n <= |vars|
    ensures Growths(vars, n) == |set i: nat | i < n && Grows(vars, i)|
    decreases n
  {
    hide Grows;
    if n > 0 {
      GrowthsCounted(vars, n - 1);
      var now, before := set i: nat | i < n && Grows(vars, i), set i: nat | i < n - 1 && Grows(vars, i);
      assert now == before + if Grows(vars, n - 1) then {n - 1} else {};
    }
  }

  lemma AllocatesSnoc(allocOk: nat -> bool, vars: seq<Variable>, i: nat)
    requires i < |vars| && Allocates(allocOk, vars, i) && (Grows(vars, i) ==> allocOk(Needed(vars[i])))
    ensures Allocates(allocOk, vars, i + 1)
  {
  }

  lemma EntriesSnoc(vars: seq<Variable>, i: nat)
    requires i < |vars|
    ensures Entries(vars[..i + 1]) == Entries(vars[..i]) + [EntryOf(vars[i])]
  {
  }

  lemma RepliedFacts(vars: seq<Variable>, i: nat, grown: bool, before: seq<char16>, beforeGuid: seq<byte>, bufSize: nat,
                     status: EfiStatus, size: nat, buf: seq<char16>, guid: seq<byte>)
    requires Replied(vars, i, grown, before, beforeGuid, bufSize, status, size, buf, guid)
    ensures |buf| == |before|
    ensures status == Success ==>
              && i < |vars| && Answer(vars, Some(i), bufSize) == Success && guid == vars[i].guid
              && |vars[i].name| < |buf| && buf[..|vars[i].name| + 1] == vars[i].name + [0]
    ensures status == BufferTooSmall ==>
              && i < |vars| && !grown && Grows(vars, i) && size == Needed(vars[i]) > bufSize
              && buf == before && guid == beforeGuid
    ensures status == NotFound ==> i == |vars|
  {
  }

  /** No point of the walk has made all the calls, and the one past the last variable has one to go. */
  lemma CallsBounded(vars: seq<Variable>, i: nat, grown: bool, buf: seq<char16>, guid: seq<byte>, bufSize: nat,
                     done: nat)
    requires Stands(vars, i, grown, buf, guid, bufSize, done)
    ensures done < AllCalls(vars)
    ensures i == |vars| ==> done + 1 == AllCalls(vars) && bufSize == SizeAfter(vars, |vars|)
  {
    CallsGrow(vars, i, |vars|);
  }
}
