/** The doubling buffer. Sizes are not bounded: `size_t` overflow and running out of memory are not modelled. */
module Buffer {
  import opened Bytes

  const INITIAL_CAP: nat := 256

  function Pow2(k: nat): (p: nat)
    ensures p > 0
  {
    if k == 0 then 1 else 2 * Pow2(k - 1)
  }

  /** Doubling from `c` until `needed` fits. */
  function Doubled(c: nat, needed: nat): (r: nat)
    requires c > 0
    ensures r >= c && r >= needed
    decreases needed - c
  {
    if c >= needed then c else Doubled(2 * c, needed)
  }

  /** The capacity a largest need leads to. */
  function CapFor(needed: nat): nat {
    if needed == 0 then 0 else Doubled(INITIAL_CAP, needed)
  }

  /** That capacity is the initial one doubled some number of times, and the least such that covers
      the need. */
  lemma CapForIsLeast(needed: nat) returns (k: nat)
    requires needed > 0
    ensures CapFor(needed) == INITIAL_CAP * Pow2(k) && needed <= CapFor(needed)
    ensures forall j: nat :: needed <= INITIAL_CAP * Pow2(j) ==> CapFor(needed) <= INITIAL_CAP * Pow2(j)
  {
    k := DoubledIsLeast(0, needed);
    forall j: nat | needed <= INITIAL_CAP * Pow2(j)
      ensures CapFor(needed) <= INITIAL_CAP * Pow2(j)
    {
      Pow2Grows(k, j);
      Pow2Grows(j + 1, k);
    }
  }

  lemma {:induction false} DoubledIsLeast(i: nat, needed: nat) returns (k: nat)
    ensures k >= i && Doubled(INITIAL_CAP * Pow2(i), needed) == INITIAL_CAP * Pow2(k)
    ensures k > i ==> INITIAL_CAP * Pow2(k - 1) < needed
    decreases needed - INITIAL_CAP * Pow2(i)
  {
    if INITIAL_CAP * Pow2(i) >= needed {
      k := i;
    } else {
      assert Pow2(i + 1) == 2 * Pow2(i);
      k := DoubledIsLeast(i + 1, needed);
    }
  }

  /** A power that is smaller comes earlier. */
  lemma {:induction false} Pow2Grows(k: nat, j: nat)
    ensures j < k ==> Pow2(j) <= Pow2(k - 1)
    decreases k
  {
    if j + 1 < k {
      Pow2Grows(k - 1, j);
    }
  }

  /** Growing in two steps ends where growing at once ends. */
  lemma {:induction false} DoubledTwice(c: nat, m: nat, n: nat)
    requires c > 0 && Doubled(c, m) < n
    ensures Doubled(c, n) == Doubled(Doubled(c, m), n)
    decreases m - c
  {
    if c < m {
      DoubledTwice(2 * c, m, n);
    }
  }

  lemma {:induction false} DoubledBetween(c: nat, m: nat, n: nat)
    requires c > 0 && m <= n <= Doubled(c, m)
    ensures Doubled(c, n) == Doubled(c, m)
    decreases m - c
  {
    if c < m {
      DoubledBetween(2 * c, m, n);
    }
  }

  class HwBuffer {
    var data: array<byte>
    var len: nat
    /** The largest need so far, and the capacities whose contents were moved to a larger block. */
    ghost var largest: nat
    ghost var copied: nat

    ghost predicate Valid()
      reads this, data
    {
      && len <= data.Length
      && (data.Length > 0 ==> len < data.Length)
      && data.Length == CapFor(largest)
      && (copied < data.Length || (copied == 0 && data.Length == 0))
    }

    function Contents(): bytes
      requires Valid()
      reads this, data
    {
      data[..len]
    }

    constructor ()
      ensures Valid() && Contents() == [] && fresh(data) && largest == 0 && copied == 0
    {
      data := new byte[0];
      len, largest, copied := 0, 0, 0;
    }

    method Clear()
      requires Valid()
      modifies this`len
      ensures Valid() && Contents() == []
    {
      len := 0;
    }

    /** Room for `extra` bytes and a sentinel. The capacity stays the least doubling that covers the
        largest need, and all that was ever copied is less than it. */
    method EnsureCap(extra: nat)
      requires Valid()
      modifies this`data, this`largest, this`copied
      ensures Valid() && len + extra < data.Length && Contents() == old(Contents())
      ensures data == old(data) || fresh(data)
      ensures forall i :: old(data.Length) <= i < data.Length ==> data[i] == NUL
      ensures largest == if old(largest) < len + extra + 1 then len + extra + 1 else old(largest)
      ensures copied == old(copied) + if data == old(data) then 0 else old(data.Length)
    {
      var needed := len + extra + 1;
      var cap := data.Length;
      if needed <= cap {
        if largest < needed {
          DoubledBetween(INITIAL_CAP, largest, needed);
          largest := needed;
        }
        return;
      }
      var newCap := if cap == 0 then INITIAL_CAP else cap;
      if cap > 0 {
        DoubledTwice(INITIAL_CAP, largest, needed);
      }
      while newCap < needed
        invariant newCap > 0 && newCap >= cap && Doubled(newCap, needed) == CapFor(needed)
        invariant cap > 0 ==> newCap == cap || newCap >= 2 * cap
        decreases needed - newCap
      {
        newCap := newCap * 2;
      }
      var newData := new byte[newCap];
      for i := 0 to cap
        modifies newData
        invariant newData[..i] == data[..i]
      {
        newData[i] := data[i];
      }
      assert newData[..len] == newData[..cap][..len];
      forall i | cap <= i < newCap {
        newData[i] := NUL;
      }
      assert newData[..len] == data[..len];
      copied := copied + cap;
      data, largest := newData, needed;
    }

    method Append(src: bytes)
      requires Valid()
      modifies this, data
      ensures Valid() && (data == old(data) || fresh(data))
      ensures Contents() == old(Contents()) + src
      ensures src != [] ==> data[len] == NUL
      ensures largest == if src == [] || len + 1 <= old(largest) then old(largest) else len + 1
      ensures copied == old(copied) + if data == old(data) then 0 else old(data.Length)
    {
      hide CapFor;
      if |src| == 0 {
        return;
      }
      EnsureCap(|src|);
      CopyIn(src);
    }

    /** `memcpy` behind the contents, with the sentinel. */
    method CopyIn(src: bytes)
      requires Valid() && len + |src| < data.Length
      modifies this`len, data
      ensures Valid() && Contents() == old(Contents()) + src && data[len] == NUL
    {
      hide CapFor;
      ghost var before := data[..len];
      for i := 0 to |src|
        modifies data
        invariant data[..len] == before
        invariant data[len..len + i] == src[..i]
      {
        data[len + i] := src[i];
      }
      assert data[..len + |src|] == data[..len] + data[len..len + |src|];
      len := len + |src|;
      data[len] := NUL;
    }
  }
}
