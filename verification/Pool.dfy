/** The pool of equal slots. Free slots are linked through their own first eight bytes, which belong to the
    owner of the slot as long as it is live. The pool's block starts at some address; null is 0. Running out
    of memory, and sizes or counters past `size_t`, are not modelled. */
module Pool {
  import opened Bytes

  const POINTER_SIZE: nat := 8
  const MAX_POINTER: nat := 0x1_0000_0000_0000_0000

  // ----- pointers in memory -----

  function Little(n: nat, size: nat): (r: bytes)
    ensures |r| == size
  {
    if size == 0 then [] else [(n % 256) as byte] + Little(n / 256, size - 1)
  }

  function Number(s: bytes): nat {
    if s == [] then 0 else s[0] + 256 * Number(s[1..])
  }

  function Pow256(k: nat): nat {
    if k == 0 then 1 else 256 * Pow256(k - 1)
  }

  lemma {:induction false} NumberOfLittle(n: nat, size: nat)
    requires n < Pow256(size)
    ensures Number(Little(n, size)) == n
  {
    if size > 0 {
      NumberOfLittle(n / 256, size - 1);
    }
  }

  lemma PointerFits(p: nat)
    requires p < MAX_POINTER
    ensures Number(Little(p, POINTER_SIZE)) == p
  {
    calc {
      Pow256(8);
      256 * Pow256(7);
      256 * 256 * Pow256(6);
      256 * 256 * 256 * Pow256(5);
      256 * 256 * 256 * 256 * Pow256(4);
      256 * 256 * 256 * 256 * 256 * Pow256(3);
    }
    NumberOfLittle(p, POINTER_SIZE);
  }

  // ----- slots -----

  /** Where the `i`-th slot starts. */
  function At(i: nat, size: nat): nat {
    i * size
  }

  lemma {:induction false} SlotsApart(i: nat, j: nat, size: nat)
    requires i < j
    ensures At(i, size) + size <= At(j, size)
  {
    assert At(j, size) == At(j - 1, size) + size;
    if i < j - 1 {
      SlotsApart(i, j - 1, size);
    }
  }

  /** A slot has room for a pointer at least. */
  function SlotSize(itemSize: nat): nat {
    if itemSize < POINTER_SIZE then POINTER_SIZE else itemSize
  }

  lemma NextSlot(i: nat, size: nat)
    ensures At(0, size) == 0 && At(i + 1, size) == At(i, size) + size
  {
  }

  lemma {:induction false} MultiplesAreAligned(i: nat, size: nat)
    requires size % POINTER_SIZE == 0
    ensures At(i, size) % POINTER_SIZE == 0
  {
    hide At;
    NextSlot(i, size);
    if i > 0 {
      NextSlot(i - 1, size);
      MultiplesAreAligned(i - 1, size);
    }
  }

  /** The pointer at the front of each slot lies at a multiple of 8 from the block if and only if a slot's size is one,
      or there is no second slot. */
  lemma SlotsAligned(itemSize: nat, count: nat)
    requires count > 0
    ensures (forall i :: 0 <= i < count ==> At(i, SlotSize(itemSize)) % POINTER_SIZE == 0) <==>
            itemSize < POINTER_SIZE || itemSize % POINTER_SIZE == 0 || count == 1
  {
    hide At;
    var size := SlotSize(itemSize);
    NextSlot(0, size);
    if size % POINTER_SIZE == 0 {
      forall i | 0 <= i < count ensures At(i, size) % POINTER_SIZE == 0 {
        MultiplesAreAligned(i, size);
      }
    } else {
      assert At(0, size) == 0 && At(1, size) == size;
    }
  }

  /** Items of 12 bytes: the second pointer is out of line. */
  lemma TwelveIsNotAligned()
    ensures At(1, SlotSize(12)) % POINTER_SIZE == 4
  {
    assert At(1, 12) == 12;
  }

  lemma SlotInside(i: nat, count: nat, size: nat)
    requires i < count
    ensures At(i, size) + size <= At(count, size)
  {
    SlotsApart(i, count, size);
  }

  /** Every one of `n` slots is either free or held by exactly one owner. */
  ghost predicate Accounted(n: nat, free: seq<nat>, held: multiset<nat>) {
    && (forall i: nat :: i < n ==> held[i] == if i in free then 0 else 1)
    && (forall i :: i in held ==> i < n)
  }

  lemma {:induction false} OnceEach(n: nat, held: multiset<nat>)
    requires Accounted(n, [], held)
    ensures |held| == n
  {
    if n > 0 {
      OnceEach(n - 1, held - multiset{n - 1});
    } else {
      assert held == multiset{};
    }
  }

  /** The live slots and the free slots together are all slots. */
  lemma {:induction false} HeldAndFree(n: nat, free: seq<nat>, held: multiset<nat>)
    requires Accounted(n, free, held)
    requires forall k :: 0 <= k < |free| ==> free[k] < n
    requires forall k, l :: 0 <= k < l < |free| ==> free[k] != free[l]
    ensures |held| + |free| == n
  {
    if free == [] {
      OnceEach(n, held);
    } else {
      HeldAndFree(n, free[1..], held + multiset{free[0]});
    }
  }

  class HwPool {
    const itemSize: nat
    const count: nat
    const address: nat
    const block: array<byte>
    var freeHead: nat
    var exhaustCount: nat
    /** The free slots in the order of the list; how often each slot is held; how many requests were refused. */
    ghost var chain: seq<nat>
    ghost var held: multiset<nat>
    ghost var refused: nat

    ghost predicate Sized() {
      && itemSize >= POINTER_SIZE && count > 0
      && block.Length == At(count, itemSize)
      && address > 0 && address + block.Length < MAX_POINTER
    }

    function Pointer(i: nat): nat {
      address + At(i, itemSize)
    }

    /** What the `k`-th free slot must hold. */
    ghost function Link(s: seq<nat>, k: nat): nat {
      if k < |s| then Pointer(s[k]) else 0
    }

    ghost predicate Holds(mem: bytes, i: nat, p: nat) {
      At(i, itemSize) + POINTER_SIZE <= |mem| &&
      Number(mem[At(i, itemSize)..At(i, itemSize) + POINTER_SIZE]) == p
    }

    /** The list through the free slots: acyclic, since no slot occurs twice and the last link is null. */
    ghost predicate Linked(mem: bytes, s: seq<nat>) {
      && (forall k :: 0 <= k < |s| ==> s[k] < count)
      && (forall k, l :: 0 <= k < l < |s| ==> s[k] != s[l])
      && (forall k :: 0 <= k < |s| ==> Holds(mem, s[k], Link(s, k + 1)))
    }

    ghost predicate Valid()
      reads this, block
    {
      Sized() && Linked(block[..], chain) && freeHead == Link(chain, 0) && Accounted(count, chain, held) &&
      exhaustCount == refused
    }

    ghost predicate SlotIs(mem: bytes, i: nat, data: bytes) {
      At(i, itemSize) + itemSize <= |mem| && mem[At(i, itemSize)..At(i, itemSize) + itemSize] == data
    }

    /** Nothing outside slot `i` differs. */
    ghost predicate OnlySlot(i: nat, mem: bytes, after: bytes) {
      |mem| == |after| &&
      forall k :: 0 <= k < |mem| && !(At(i, itemSize) <= k < At(i, itemSize) + itemSize) ==> after[k] == mem[k]
    }

    /** Room for every slot, the first one at `address`. */
    constructor (itemSize: nat, count: nat, address: nat)
      requires itemSize >= POINTER_SIZE && count > 0 && address > 0
      requires address + At(count, itemSize) < MAX_POINTER
      ensures Sized() && fresh(block) && block[..] == Repeat(0, At(count, itemSize))
      ensures this.itemSize == itemSize && this.count == count && this.address == address
      ensures chain == [] && held == multiset{} && freeHead == 0 && exhaustCount == refused == 0
    {
      this.itemSize, this.count, this.address := itemSize, count, address;
      block := new byte[At(count, itemSize)](i => 0);
      freeHead, exhaustCount := 0, 0;
      chain, held, refused := [], multiset{}, 0;
    }

    /** The same for the addresses of the slots, in a block that lies at a multiple of 8 itself. */
    lemma PointersAligned(asked: nat)
      requires itemSize == SlotSize(asked) && count > 0 && address % POINTER_SIZE == 0
      ensures (forall i :: 0 <= i < count ==> Pointer(i) % POINTER_SIZE == 0) <==>
              asked < POINTER_SIZE || asked % POINTER_SIZE == 0 || count == 1
    {
      hide At;
      SlotsAligned(asked, count);
      forall i | 0 <= i < count
        ensures Pointer(i) % POINTER_SIZE == 0 <==> At(i, itemSize) % POINTER_SIZE == 0
      {
      }
    }

    /** Writing inside one slot keeps what the others hold. */
    lemma OtherSlot(i: nat, j: nat, p: nat, mem: bytes, after: bytes)
      requires Sized() && |mem| == block.Length && OnlySlot(i, mem, after)
      requires i < count && j < count && i != j && Holds(mem, j, p)
      ensures Holds(after, j, p)
    {
      if i < j { SlotsApart(i, j, itemSize); } else { SlotsApart(j, i, itemSize); }
      SlotInside(j, count, itemSize);
      assert after[At(j, itemSize)..At(j, itemSize) + POINTER_SIZE] ==
             mem[At(j, itemSize)..At(j, itemSize) + POINTER_SIZE];
    }

    lemma StillLinked(i: nat, s: seq<nat>, mem: bytes, after: bytes)
      requires Sized() && |mem| == block.Length && OnlySlot(i, mem, after)
      requires i < count && i !in s && Linked(mem, s)
      ensures Linked(after, s)
    {
      forall k | 0 <= k < |s|
        ensures Holds(after, s[k], Link(s, k + 1))
      {
        OtherSlot(i, s[k], Link(s, k + 1), mem, after);
      }
    }

    lemma LinkIsPointer(s: seq<nat>, k: nat)
      requires Sized() && (forall j :: 0 <= j < |s| ==> s[j] < count)
      ensures Link(s, k) < MAX_POINTER && (Link(s, k) == 0 <==> k >= |s|)
    {
      if k < |s| { SlotInside(s[k], count, itemSize); }
    }

    /** Different slots have different addresses. */
    lemma PointersDiffer(i: nat, j: nat)
      requires Sized() && Pointer(i) == Pointer(j)
      ensures i == j
    {
      if i < j { SlotsApart(i, j, itemSize); } else if j < i { SlotsApart(j, i, itemSize); }
    }

    /** `node->next = p` */
    method Store(node: nat, p: nat, ghost i: nat)
      requires Sized() && i < count && p < MAX_POINTER && node == Pointer(i)
      modifies block
      ensures Holds(block[..], i, p) && OnlySlot(i, old(block[..]), block[..])
    {
      SlotInside(i, count, itemSize);
      var at, word := node - address, Little(p, POINTER_SIZE);
      forall k | 0 <= k < POINTER_SIZE {
        block[at + k] := word[k];
      }
      PointerFits(p);
      assert block[..][at..at + POINTER_SIZE] == word;
    }

    /** Writing a whole slot. */
    method Fill(node: nat, data: bytes, ghost i: nat)
      requires Sized() && i < count && node == Pointer(i) && |data| == itemSize
      modifies block
      ensures SlotIs(block[..], i, data) && OnlySlot(i, old(block[..]), block[..])
    {
      SlotInside(i, count, itemSize);
      var at := node - address;
      forall k | 0 <= k < itemSize {
        block[at + k] := data[k];
      }
      assert block[..][at..at + itemSize] == data;
    }

    /** `node->next` */
    method Load(node: nat, ghost i: nat) returns (p: nat)
      requires Sized() && i < count && node == Pointer(i)
      ensures Holds(block[..], i, p)
    {
      SlotInside(i, count, itemSize);
      var at := node - address;
      p := Number(block[at..at + POINTER_SIZE]);
      assert block[..][at..at + POINTER_SIZE] == block[at..at + POINTER_SIZE];
    }

    /** The first `n` slots, each linked to the next. */
    ghost predicate Started(mem: bytes, n: nat) {
      forall k: nat :: k < n ==> BeforeNext(mem, k)
    }

    ghost predicate BeforeNext(mem: bytes, k: nat) {
      Holds(mem, k, Pointer(k + 1))
    }

    lemma StillStarted(n: nat, mem: bytes, after: bytes)
      requires Sized() && |mem| == block.Length && OnlySlot(n, mem, after) && n < count && Started(mem, n)
      ensures Started(after, n)
    {
      forall k: nat | k < n
        ensures BeforeNext(after, k)
      {
        assert BeforeNext(mem, k);
        OtherSlot(n, k, Pointer(k + 1), mem, after);
      }
    }

    lemma AllLinked(mem: bytes)
      requires Sized() && Started(mem, count - 1) && Holds(mem, count - 1, 0)
      ensures var all := seq(count, k => k);
              Linked(mem, all) && Accounted(count, all, multiset{}) && Link(all, 0) == address
    {
      hide Holds, At;
      NextSlot(0, itemSize);
      var all := seq(count, k => k);
      forall k: nat | k < count
        ensures Holds(mem, all[k], Link(all, k + 1)) && all[k] in all
      {
        assert k < count - 1 ==> BeforeNext(mem, k);
      }
      forall i: nat | i < count
        ensures i in all
      {
        assert all[i] == i;
      }
    }

    /** The loop that links all slots in order. */
    method LinkAll()
      requires Sized() && held == multiset{} && exhaustCount == refused == 0
      modifies this`freeHead, this`chain, block
      ensures Valid() && chain == seq(count, i => i)
    {
      hide Holds, OnlySlot, At;
      var i: nat := 0;
      while i < count - 1
        invariant i <= count - 1 && Started(block[..], i)
        modifies block
      {
        SlotInside(i + 1, count, itemSize);
        ghost var mem := block[..];
        Store(address + At(i, itemSize), address + At(i + 1, itemSize), i);
        StillStarted(i, mem, block[..]);
        i := i + 1;
      }
      ghost var mem := block[..];
      Store(address + At(i, itemSize), 0, i);
      StillStarted(i, mem, block[..]);
      AllLinked(block[..]);
      freeHead, chain := address, seq(count, j => j);
    }

    /** `hw_pool_alloc`: the first free slot, zeroed; nothing, and one more refusal counted, exactly when
        every slot is held. The address is null when there is no slot. */
    method Alloc() returns (p: nat, ghost i: nat)
      requires Valid()
      modifies this`freeHead, this`exhaustCount, this`chain, this`held, this`refused, block
      ensures Valid()
      ensures p == 0 <==> |old(held)| == count
      ensures p == 0 ==> chain == old(chain) && held == old(held) && refused == old(refused) + 1
      ensures p == 0 ==> block[..] == old(block[..])
      ensures p != 0 ==> i < count && p == Pointer(i) && old(held)[i] == 0 && held == old(held) + multiset{i}
      ensures p != 0 ==> refused == old(refused) && old(chain) == [i] + chain
      ensures p != 0 ==> OnlySlot(i, old(block[..]), block[..])
      ensures p != 0 ==> SlotIs(block[..], i, Repeat(0, itemSize))
    {
      FailsWhenAllHeld();
      LinkIsPointer(chain, 0);
      hide Holds, OnlySlot, At, Accounted, SlotIs, Linked;
      i := 0;
      if freeHead == 0 {
        exhaustCount := exhaustCount + 1;
        refused := refused + 1;
        return 0, 0;
      }
      p, i := Take();
    }

    /** The first free slot, zeroed. */
    method Take() returns (p: nat, ghost i: nat)
      requires Valid() && chain != []
      modifies this`freeHead, this`chain, this`held, block
      ensures Valid()
      ensures i < count && p == Pointer(i) && old(held)[i] == 0 && held == old(held) + multiset{i}
      ensures old(chain) == [i] + chain
      ensures OnlySlot(i, old(block[..]), block[..]) && SlotIs(block[..], i, Repeat(0, itemSize))
    {
      hide Holds, OnlySlot, At, Accounted, SlotIs, Linked;
      i, p := chain[0], freeHead;
      ghost var mem := block[..];
      RestLinked(mem);
      freeHead := Load(p, i);
      Fill(p, Repeat(0, itemSize), i);
      StillLinked(i, chain[1..], mem, block[..]);
      chain, held := chain[1..], held + multiset{i};
    }

    lemma FailsWhenAllHeld()
      requires Linked(block[..], chain) && Accounted(count, chain, held)
      ensures chain == [] <==> |held| == count
    {
      HeldAndFree(count, chain, held);
    }

    /** The free list without its first slot. */
    lemma RestLinked(mem: bytes)
      requires chain != [] && Linked(mem, chain) && Accounted(count, chain, held)
      ensures chain[0] < count && forall q :: Holds(mem, chain[0], q) ==> q == Link(chain, 1)
      ensures Linked(mem, chain[1..]) && chain[0] !in chain[1..] && Link(chain[1..], 0) == Link(chain, 1)
      ensures Accounted(count, chain[1..], held + multiset{chain[0]}) && held[chain[0]] == 0
    {
      var rest := chain[1..];
      forall k | 0 <= k < |rest|
        ensures Holds(mem, rest[k], Link(rest, k + 1))
      {
        assert rest[k] == chain[k + 1] && Link(rest, k + 1) == Link(chain, k + 2);
      }
      assert forall i :: i in chain <==> i == chain[0] || i in rest;
    }

    /** A slot in front of the free list. */
    lemma LinkedInFront(i: nat, mem: bytes)
      requires i < count && held[i] > 0 && Accounted(count, chain, held)
      requires Linked(mem, chain) && Holds(mem, i, Link(chain, 0))
      ensures Linked(mem, [i] + chain) && Accounted(count, [i] + chain, held - multiset{i})
    {
      var more := [i] + chain;
      forall k | 0 <= k < |more|
        ensures Holds(mem, more[k], Link(more, k + 1))
      {
        assert Link(more, k + 1) == Link(chain, k);
        if k > 0 { assert more[k] == chain[k - 1]; }
      }
    }

    /** `hw_pool_free` of null or of a slot that is held. */
    method Free(p: nat, ghost i: nat)
      requires Valid() && (p != 0 ==> i < count && held[i] > 0 && p == Pointer(i))
      modifies this`freeHead, this`chain, this`held, block
      ensures Valid()
      ensures p == 0 ==> chain == old(chain) && held == old(held) && block[..] == old(block[..])
      ensures p != 0 ==> chain == [i] + old(chain) && held == old(held) - multiset{i}
      ensures p != 0 ==> OnlySlot(i, old(block[..]), block[..])
    {
      hide Holds, OnlySlot, At, Accounted;
      if p == 0 {
        return;
      }
      assert i !in chain by { hide *; NotFree(i); }
      LinkIsPointer(chain, 0);
      ghost var mem := block[..];
      Store(p, freeHead, i);
      freeHead := p;
      StillLinked(i, chain, mem, block[..]);
      LinkedInFront(i, block[..]);
      chain, held := [i] + chain, held - multiset{i};
    }

    lemma NotFree(i: nat)
      requires i < count && held[i] > 0 && Accounted(count, chain, held)
      ensures i !in chain
    {
    }

    /** The owner of a slot may write anything to it, its first bytes included. */
    method OwnerWrites(p: nat, data: bytes, ghost i: nat)
      requires Valid() && i < count && held[i] > 0 && p == Pointer(i) && |data| == itemSize
      modifies block
      ensures Valid()
      ensures OnlySlot(i, old(block[..]), block[..])
      ensures SlotIs(block[..], i, data)
    {
      hide Linked, Accounted;
      Fill(p, data, i);
      assert i !in chain by { hide *; NotFree(i); }
      StillLinked(i, chain, old(block[..]), block[..]);
    }
  }

  /** `hw_pool_create`: slots are at least a pointer in size, and all of them are free, in order. */
  method Create(itemSize: nat, count: nat, address: nat) returns (pool: HwPool?)
    requires address > 0
    requires address + At(count, SlotSize(itemSize)) < MAX_POINTER
    ensures pool == null <==> count == 0
    ensures pool != null ==> fresh(pool) && fresh(pool.block) && pool.Valid() && pool.count == count
    ensures pool != null ==> pool.itemSize == SlotSize(itemSize)
    ensures pool != null ==> pool.chain == seq(count, i => i) && pool.held == multiset{} && pool.refused == 0
    ensures pool != null && address % POINTER_SIZE == 0 ==>
              ((forall i :: 0 <= i < count ==> pool.Pointer(i) % POINTER_SIZE == 0) <==>
               itemSize < POINTER_SIZE || itemSize % POINTER_SIZE == 0 || count == 1)
  {
    hide At, HwPool.Linked, Accounted;
    var size := SlotSize(itemSize);
    if count == 0 {
      return null;
    }
    pool := new HwPool(size, count, address);
    pool.LinkAll();
    if address % POINTER_SIZE == 0 {
      pool.PointersAligned(itemSize);
    }
  }
}
