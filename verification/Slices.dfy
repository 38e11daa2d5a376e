/** Enumerable#each_slice and #each_cons; a block call is recorded as the buffer's contents then. */
module Slices {
  import opened Bytes

  /** `s` in pieces of `num`, the last one shorter if need be; a number below 1 never ends a piece. */
  function Slices<T>(s: seq<T>, num: int): seq<seq<T>> {
    if s == [] then []
    else if num <= 0 || |s| <= num then [s]
    else [s[..num]] + Slices(s[num..], num)
  }

  lemma SliceStep<T>(s: seq<T>, num: int)
    requires 0 < num <= |s|
    ensures Slices(s, num) == [s[..num]] + Slices(s[num..], num)
  {
    if |s| == num {
      assert s[..num] == s && s[num..] == [];
    }
  }

  method EachSlice<T>(s: seq<T>, num: int) returns (calls: seq<seq<T>>)
    ensures calls == Slices(s, num)
  {
    hide Slices;
    var buf: seq<T>, i := [], 0;
    calls := [];
    assert s[0..] == s && calls + Slices(s, num) == Slices(s, num);
    while i < |s|
      invariant 0 <= |buf| <= i <= |s| && (num > 0 ==> |buf| < num) && buf == s[i - |buf|..i]
      invariant calls + Slices(s[i - |buf|..], num) == Slices(s, num)
    {
      ghost var rest, before := s[i - |buf|..], calls;
      buf := buf + [s[i]];
      i := i + 1;
      if |buf| == num {
        assert rest[..num] == buf && rest[num..] == s[i..];
        SliceStep(rest, num);
        SeqAssoc(before, [buf], Slices(s[i..], num));
        calls := calls + [buf];
        buf := [];
      }
    }
    assert s[i - |buf|..] == buf;
    LastSlice(buf, num);
    if buf != [] {
      calls := calls + [buf];
    } else {
      assert calls + [] == calls;
    }
  }

  lemma LastSlice<T>(s: seq<T>, num: int)
    requires num > 0 ==> |s| < num
    ensures Slices(s, num) == if s == [] then [] else [s]
  {
  }

  function Concat<T>(parts: seq<seq<T>>): seq<T> {
    if parts == [] then [] else parts[0] + Concat(parts[1..])
  }

  /** The pieces make up the input: all but the last have the full length, and none is empty. */
  lemma {:induction false} SlicesCover<T>(s: seq<T>, num: int)
    ensures Concat(Slices(s, num)) == s
    ensures forall i :: 0 <= i < |Slices(s, num)| ==> Slices(s, num)[i] != []
    ensures num > 0 ==> forall i :: 0 <= i < |Slices(s, num)| - 1 ==> |Slices(s, num)[i]| == num
    ensures num > 0 ==> forall i :: 0 <= i < |Slices(s, num)| ==> |Slices(s, num)[i]| <= num
    ensures num <= 0 && s != [] ==> Slices(s, num) == [s]
    decreases |s|
  {
    if s == [] {
    } else if num <= 0 || |s| <= num {
      assert [s][1..] == [];
    } else {
      SlicesCover(s[num..], num);
      assert s[..num] + s[num..] == s;
    }
  }

  lemma {:induction false} SlicesCount<T>(s: seq<T>, num: int)
    requires num > 0
    ensures |Slices(s, num)| == (|s| + num - 1) / num
    decreases |s|
  {
    if s == [] {
      DivModUnique(num - 1, num, 0, num - 1);
    } else if |s| <= num {
      DivModUnique(|s| + num - 1, num, 1, |s| - 1);
    } else {
      SlicesCount(s[num..], num);
      WrapMod(|s| - 1, num);
    }
  }

  /** The windows of `num` elements; the whole input if it is shorter; empty ones for a number below 1. */
  function Windows<T>(s: seq<T>, num: int): seq<seq<T>> {
    if num <= 0 then seq(|s|, _ => [])
    else if |s| < num then [s]
    else seq(|s| - num + 1, i requires 0 <= i < |s| - num + 1 => s[i..i + num])
  }

  /** Window `i` is the `num` elements from `i` on, for every place where there are that many. */
  lemma WindowsAre<T>(s: seq<T>, num: int, i: nat)
    ensures 0 < num <= |s| ==>
              |Windows(s, num)| == |s| - num + 1 && (i + num <= |s| ==> Windows(s, num)[i] == s[i..i + num])
    ensures num > |s| ==> Windows(s, num) == [s]
    ensures num <= 0 ==> |Windows(s, num)| == |s| && forall k :: 0 <= k < |s| ==> Windows(s, num)[k] == []
  {
  }

  method EachCons<T>(s: seq<T>, num: int) returns (calls: seq<seq<T>>)
    ensures calls == Windows(s, num)
  {
    var buf: seq<T>, i := [], 0;
    calls := [];
    while i < |s|
      invariant 0 <= i <= |s|
      invariant num <= 0 ==> buf == [] && |calls| == i && forall k :: 0 <= k < i ==> calls[k] == []
      invariant num > 0 ==> |buf| == Min(i, num) && buf == s[i - |buf|..i]
      invariant num > 0 ==> |calls| == Max(0, i - num + 1)
      invariant num > 0 ==> forall k :: 0 <= k < |calls| ==> calls[k] == s[k..k + num]
    {
      var val := s[i];
      i := i + 1;
      if |buf| < num {
        buf := buf + [val];
        if |buf| < num {
          continue;
        }
      } else {
        buf := buf + [val];
        buf := buf[1..];
      }
      calls := calls + [buf];
    }
    if |buf| < num {
      assert buf == s;
      calls := calls + [buf];
    }
    assert |calls| == |Windows(s, num)| && forall k :: 0 <= k < |calls| ==> calls[k] == Windows(s, num)[k];
  }
}
