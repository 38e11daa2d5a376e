/** The result string of Array#pack: it grows by doubling, and directives store at its end. */
module PackBuffer {
  import opened Bytes

  const INITIAL: nat := 128

  /** The length a string of length `n` gets when `len` bytes are needed. */
  function Grow(n: nat, len: int): (m: nat)
    requires n > 0
    ensures m >= n && m >= len
    decreases len - n
  {
    if len > n then Grow(2 * n, len) else n
  }

  /** `n` doubled `k` times. */
  function Doubled(n: nat, k: nat): nat
    decreases k
  {
    if k == 0 then n else Doubled(2 * n, k - 1)
  }

  /** Growing doubles as often as needed and no more: the result is the least doubling that fits. */
  lemma {:induction false} GrowIsLeastDoubling(n: nat, len: int, k: nat)
    requires n > 0
    ensures exists j: nat :: Grow(n, len) == Doubled(n, j)
    ensures Doubled(n, k) >= len ==> Grow(n, len) <= Doubled(n, k)
    decreases len - n
  {
    if len > n {
      GrowIsLeastDoubling(2 * n, len, if k == 0 then 0 else k - 1);
      var j: nat :| Grow(2 * n, len) == Doubled(2 * n, j);
      assert Doubled(n, j + 1) == Doubled(2 * n, j);
    } else {
      assert Doubled(n, 0) == n;
      DoubledGrows(n, k);
    }
  }

  lemma {:induction false} DoubledGrows(n: nat, k: nat)
    ensures Doubled(n, k) >= n
    decreases k
  {
    if k > 0 {
      DoubledGrows(2 * n, k - 1);
    }
  }

  /** Growing for two lengths in turn is growing for the larger one. */
  lemma {:induction false} GrowTwice(n: nat, a: int, b: int)
    requires n > 0
    ensures Grow(Grow(n, a), b) == Grow(n, Max(a, b))
    decreases Max(a, b) - n
  {
    if a > n {
      GrowTwice(2 * n, a, b);
    } else if b > n {
      GrowTwice(2 * n, a, b);
    }
  }

  lemma GrowStays(n: nat, len: int)
    requires n > 0
    ensures len <= n ==> Grow(n, len) == n
  {
  }

  /** A string that grows at all at least doubles. */
  lemma GrowDoubles(n: nat, len: int)
    requires n > 0
    ensures len > n ==> Grow(n, len) >= 2 * n
  {
  }

  // ---------------------------------------------------------------------------
  // Runs of requests

  /** The capacity after a run of requests, each for a total length. */
  function Capacity(cap: nat, requests: seq<nat>): (c: nat)
    requires cap > 0
    ensures c > 0
  {
    if requests == [] then cap
    else
      var n := |requests| - 1;
      Grow(Capacity(cap, requests[..n]), requests[n])
  }

  /** The bytes a run copies: each reallocation copies the whole string it replaces. */
  function Copied(cap: nat, requests: seq<nat>): nat
    requires cap > 0
  {
    if requests == [] then 0
    else
      var n := |requests| - 1;
      var before := Capacity(cap, requests[..n]);
      Copied(cap, requests[..n]) + if requests[n] > before then before else 0
  }

  function Largest(requests: seq<nat>): (n: nat)
    ensures forall i :: 0 <= i < |requests| ==> requests[i] <= n
    ensures n == 0 || n in requests
  {
    if requests == [] then 0 else Max(Largest(requests[..|requests| - 1]), requests[|requests| - 1])
  }

  lemma OneMoreRequest(cap: nat, requests: seq<nat>, len: nat)
    requires cap > 0
    ensures
      var before := Capacity(cap, requests);
      && Capacity(cap, requests + [len]) == Grow(before, len)
      && Copied(cap, requests + [len]) == Copied(cap, requests) + if len > before then before else 0
  {
    assert (requests + [len])[..|requests|] == requests;
  }

  /** After any run the capacity is that of its largest request, however the requests came. */
  lemma {:induction false} CapacityIsLargest(cap: nat, requests: seq<nat>)
    requires cap > 0
    ensures Capacity(cap, requests) == Grow(cap, Largest(requests))
    decreases |requests|
  {
    if requests != [] {
      var n := |requests| - 1;
      CapacityIsLargest(cap, requests[..n]);
      GrowTwice(cap, Largest(requests[..n]), requests[n]);
    }
  }

  /** The sum of the old capacities at all growths of a run stays below the final capacity. */
  lemma {:induction false} CopiedIsBounded(cap: nat, requests: seq<nat>)
    requires cap > 0
    ensures cap + Copied(cap, requests) <= Capacity(cap, requests)
    decreases |requests|
  {
    if requests != [] {
      var n := |requests| - 1;
      CopiedIsBounded(cap, requests[..n]);
      GrowDoubles(Capacity(cap, requests[..n]), requests[n]);
    }
  }

  lemma {:induction false} CapacityAppend(cap: nat, requests: seq<nat>, more: seq<nat>)
    requires cap > 0
    ensures Capacity(cap, requests + more) == Capacity(Capacity(cap, requests), more)
    decreases |more|
  {
    if more == [] {
      assert requests + more == requests;
    } else {
      var n := |more| - 1;
      CapacityAppend(cap, requests, more[..n]);
      assert (requests + more)[..|requests| + n] == requests + more[..n];
    }
  }

  /** Once a string grows, its length stays below twice what is needed. */
  lemma {:induction false} GrowStaysBelowTwice(n: nat, len: int)
    requires n > 0
    ensures len > n ==> Grow(n, len) < 2 * len
    decreases len - n
  {
    if len > 2 * n {
      GrowStaysBelowTwice(2 * n, len);
    }
  }

  class Buffer {
    var str: array<byte>
    var ridx: nat
    ghost var requests: seq<nat>    // the lengths asked for so far
    ghost var copied: nat           // the bytes copied by all reallocations so far

    /** The capacity and the bytes copied are those of the requests made, and the bytes stored fit. */
    ghost predicate Valid()
      reads this, str
    {
      && str.Length == Capacity(INITIAL, requests)
      && copied == Copied(INITIAL, requests)
      && ridx <= str.Length
    }

    ghost function Contents(): (s: seq<byte>)
      reads this, str
      requires Valid()
      ensures |s| == ridx
    {
      str[..ridx]
    }

    constructor ()
      ensures Valid() && Contents() == [] && str.Length == 128 && fresh(str)
      ensures requests == [] && copied == 0
    {
      str := new byte[INITIAL];
      ridx, requests, copied := 0, [], 0;
    }

    /** str_len_ensure: doubles the length until it covers `len`, and reallocates once. */
    method Ensure(len: nat)
      requires Valid()
      modifies this`str, this`requests, this`copied
      ensures Valid() && ridx == old(ridx) && Contents() == old(Contents())
      ensures str.Length == Grow(old(str.Length), len)
      ensures if len > old(str.Length) then fresh(str) else str == old(str)
      ensures requests == old(requests) + [len]
      ensures copied == old(copied) + if len > old(str.Length) then old(str.Length) else 0
      ensures str.Length == Grow(INITIAL, Largest(requests)) && INITIAL + copied <= str.Length
    {
      hide Grow, Capacity, Copied, Largest;
      OneMoreRequest(INITIAL, requests, len);
      if len > str.Length {
        var n := DoubledUntil(str.Length, len);
        str := Resized(n);
      } else {
        GrowStays(str.Length, len);
      }
      requests := requests + [len];
      CapacityIsLargest(INITIAL, requests);
      CopiedIsBounded(INITIAL, requests);
    }

    /** Doubles `n`, at least once, until it covers `len`. */
    static method DoubledUntil(n: nat, len: nat) returns (m: nat)
      requires 0 < n < len
      ensures m == Grow(n, len) >= 2 * n
    {
      m := n * 2;
      while len > m
        invariant m >= 2 * n && Grow(m, len) == Grow(n, len)
        decreases len - m
      {
        m := m * 2;
      }
    }

    /** The reallocation: the old bytes at the front of a longer string. */
    method Resized(n: nat) returns (bytes: array<byte>)
      requires n >= str.Length
      modifies this`copied
      ensures fresh(bytes) && bytes.Length == n && bytes[..str.Length] == str[..]
      ensures copied == old(copied) + str.Length
    {
      bytes := new byte[n];
      var i := 0;
      while i < str.Length
        invariant 0 <= i <= str.Length && bytes[..i] == str[..i] && copied == old(copied) + i
      {
        bytes[i] := str[i];
        copied := copied + 1;
        i := i + 1;
      }
    }

    /** Stores `bytes` from `ridx` on and moves past them. */
    method Store(bytes: seq<byte>)
      requires Valid() && ridx + |bytes| <= str.Length
      modifies this`ridx, str
      ensures Valid() && Contents() == old(Contents()) + bytes
    {
      var i := 0;
      ghost var before := str[..ridx];
      while i < |bytes|
        invariant 0 <= i <= |bytes| && str == old(str) && ridx == old(ridx)
        invariant requests == old(requests) && copied == old(copied)
        invariant str[..ridx + i] == before + bytes[..i]
      {
        str[ridx + i] := bytes[i];
        i := i + 1;
      }
      assert bytes[..i] == bytes;
      ridx := ridx + |bytes|;
    }

    /**
     * Reserves `len` bytes and stores `bytes`.  A store past the end of the string has no
     * defined meaning, so nothing is said of the contents when `bytes` does not fit.
     */
    method Append(bytes: seq<byte>, len: nat) returns (fits: bool)
      requires Valid()
      modifies this, str
      ensures Valid()
      ensures str.Length == Grow(old(str.Length), old(ridx) + len)
      ensures str == old(str) || fresh(str)
      ensures requests == old(requests) + [old(ridx) + len]
      ensures copied == old(copied) + if old(ridx) + len > old(str.Length) then old(str.Length) else 0
      ensures fits <==> old(ridx) + |bytes| <= str.Length
      ensures fits ==> Contents() == old(Contents()) + bytes
      ensures |bytes| <= len ==> fits
    {
      Ensure(ridx + len);
      fits := ridx + |bytes| <= str.Length;
      if fits {
        Store(bytes);
      }
    }
  }
}
