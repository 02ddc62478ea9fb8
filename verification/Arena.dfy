/** The arena of linked blocks. Sizes past `size_t`, running out of memory and the per-thread arena behind
    `mem_alloc` are not modelled; a block's data starts at an address that is a multiple of 8. */
module Arena {
  import opened Bytes
  import opened Wrappers

  const MIN_BLOCK: nat := 1024

  /** `(size + 7) & ~7` */
  function Aligned(size: nat): (r: nat)
    ensures r % 8 == 0 && size <= r < size + 8
  {
    (size + 7) / 8 * 8
  }

  class ArenaBlock {
    var next: ArenaBlock?
    const cap: nat
    var used: nat
    const data: array<byte>

    constructor (size: nat)
      ensures cap == size == data.Length && used == 0 && next == null
      ensures fresh(data) && data[..] == Repeat(0, size)
    {
      cap, used, next := size, 0, null;
      data := new byte[size](i => 0);
    }
  }

  /** Memory handed out: `size` bytes of a block from `start` on. */
  datatype Region = Region(block: ArenaBlock, start: nat, size: nat)

  predicate Disjoint(r: Region, s: Region) {
    r.block != s.block || r.start + r.size <= s.start || s.start + s.size <= r.start
  }

  function Only(b: ArenaBlock?): set<ArenaBlock> {
    if b == null then {} else {b}
  }

  class HwArena {
    const blockSize: nat
    var head: ArenaBlock
    var current: ArenaBlock
    /** All blocks in list order; where `current` is among them; what was handed out since the last reset. */
    ghost var blocks: seq<ArenaBlock>
    ghost var at: nat
    ghost var live: seq<Region>

    ghost predicate Sized(b: ArenaBlock)
      reads b`used
    {
      blockSize <= b.cap == b.data.Length && b.used % 8 == 0
    }

    /** The list from `head` on, `current` in it. Blocks after `current` are unused. */
    ghost predicate Listed()
      reads this`head, this`current, this`blocks, this`at, blocks
    {
      && at < |blocks| && head == blocks[0] && current == blocks[at]
      && (forall i, j :: 0 <= i < j < |blocks| ==> blocks[i] != blocks[j] && blocks[i].data != blocks[j].data)
      && (forall i :: 0 <= i < |blocks| - 1 ==> blocks[i].next == blocks[i + 1])
      && blocks[|blocks| - 1].next == null
      && (forall b :: b in blocks ==> Sized(b))
      && (forall i :: at < i < |blocks| ==> blocks[i].used == 0)
    }

    /** A live region is aligned, lies in the used part of a block, and not in a block after `current`. */
    ghost predicate Placed(r: Region)
      reads this`blocks, this`at, blocks
      requires at < |blocks|
    {
      && (exists i :: 0 <= i <= at && blocks[i] == r.block)
      && r.start % 8 == 0 && r.start + r.size <= r.block.used <= r.block.cap
    }

    ghost predicate Valid()
      reads this, blocks
    {
      && Listed()
      && (forall r :: r in live ==> Placed(r))
      && (forall i, j :: 0 <= i < j < |live| ==> Disjoint(live[i], live[j]))
    }

    constructor (blockSize: nat)
      ensures Valid() && this.blockSize == (if blockSize < MIN_BLOCK then MIN_BLOCK else blockSize)
      ensures live == [] && |blocks| == 1 && fresh(blocks)
    {
      var size := if blockSize < MIN_BLOCK then MIN_BLOCK else blockSize;
      var first := new ArenaBlock(size);
      this.blockSize := size;
      head, current := first, first;
      blocks, at, live := [first], 0, [];
    }

    /** A new block in front of the list. */
    method PushFront(big: ArenaBlock)
      requires Listed() && big !in blocks && big.next == null && (forall b :: b in blocks ==> b.data != big.data)
      requires Sized(big)
      modifies this`head, this`blocks, this`at, big`next
      ensures Listed() && blocks == [big] + old(blocks) && at == old(at) + 1
    {
      big.next := head;
      head := big;
      blocks, at := [big] + blocks, at + 1;
      assert forall i :: 0 < i < |blocks| ==> blocks[i] == old(blocks)[i - 1];
    }

    /** A new block behind a `current` that is the last one. */
    method Append(nb: ArenaBlock)
      requires Listed() && nb !in blocks && nb.next == null && (forall b :: b in blocks ==> b.data != nb.data)
      requires Sized(nb) && nb.used == 0 && current.next == null
      modifies this`current, this`blocks, this`at, current`next
      ensures Listed() && blocks == old(blocks) + [nb] && at == old(at) + 1 && current == nb
    {
      assert blocks[at].next == null;
      current.next := nb;
      current := nb;
      blocks, at := blocks + [nb], at + 1;
    }

    /** Every byte of the region is zero. */
    ghost predicate Zeroed(r: Region)
      reads r.block.data
    {
      r.start + r.size <= r.block.data.Length && forall i :: r.start <= i < r.start + r.size ==> r.block.data[i] == 0
    }

    /** A block of its own for a request that is larger than a block, in front of all others. */
    method AllocOversize(aligned: nat) returns (r: Region)
      requires Valid() && aligned > blockSize && aligned % 8 == 0
      modifies this`head, this`blocks, this`at, this`live
      ensures Valid() && fresh(r.block) && fresh(r.block.data) && r.start == 0 && r.size == aligned
      ensures blocks == [r.block] + old(blocks) && at == old(at) + 1 && live == old(live) + [r]
      ensures Zeroed(r)
    {
      hide Listed;
      BlocksKnown();
      var big := new ArenaBlock(aligned);
      big.used := aligned;
      PushFront(big);
      r := Region(big, 0, aligned);
      assert blocks[0] == big;
      forall s | s in live
        ensures Placed(s) && Disjoint(s, r)
      {
        assert old(Placed(s));
        var i :| 0 <= i <= old(at) && old(blocks)[i] == s.block;
        assert blocks[i + 1] == s.block;
      }
      live := live + [r];
      assert r.block.data[..] == Repeat(0, aligned);
      assert forall k :: 0 <= k < aligned ==> r.block.data[k] == r.block.data[..][k];
    }

    lemma BlocksKnown()
      requires Listed()
      ensures at < |blocks| && head == blocks[0]
      ensures current == blocks[at] && current.next == (if at + 1 < |blocks| then blocks[at + 1] else null)
      ensures at + 1 < |blocks| ==> blocks[at + 1] != current && blocks[at + 1].used == 0
      ensures forall b :: b in blocks ==> b.cap >= blockSize && (b != current ==> b.data != current.data)
    {
    }

    /** `current` becomes a block with room for any ordinary request. */
    method NextBlock()
      requires Valid()
      modifies this`current, this`blocks, this`at, current`next, Only(current.next)`used
      ensures Valid() && live == old(live) && current.used == 0 && at == old(at) + 1
      ensures if old(current.next) != null then blocks == old(blocks)
              else fresh(current) && fresh(current.data) && blocks == old(blocks) + [current]
      ensures forall b :: b in old(blocks) ==> b.used == old(b.used)
    {
      BlocksKnown();
      if current.next != null {
        current := current.next;
        current.used := 0;
        at := at + 1;
        assert Listed();
      } else {
        var nb := new ArenaBlock(blockSize);
        Append(nb);
      }
      hide Listed;
      forall r | r in live
        ensures Placed(r)
      {
        assert old(Placed(r));
        var i :| 0 <= i <= old(at) && old(blocks)[i] == r.block;
        assert blocks[i] == r.block;
      }
    }

    /** The next `aligned` bytes of `current`, zeroed. */
    method Bump(aligned: nat) returns (r: Region)
      requires Valid() && aligned % 8 == 0 && current.used + aligned <= current.cap
      modifies this`live, current`used, current.data
      ensures Valid() && r == Region(current, old(current.used), aligned) && live == old(live) + [r]
      ensures current.used == old(current.used) + aligned
      ensures Zeroed(r)
      ensures forall i :: 0 <= i < current.data.Length && !(r.start <= i < r.start + aligned) ==>
                current.data[i] == old(current.data[i])
    {
      hide Listed;
      BlocksKnown();
      r := Region(current, current.used, aligned);
      TakeBytes(aligned);
      forall i | r.start <= i < r.start + aligned {
        current.data[i] := 0;
      }
      forall s | s in live
        ensures Placed(s) && Disjoint(s, r)
      {
        assert old(Placed(s));
      }
      live := live + [r];
    }

    method TakeBytes(aligned: nat)
      requires Listed() && aligned % 8 == 0 && current.used + aligned <= current.cap
      modifies current`used
      ensures Listed() && current.used == old(current.used) + aligned && current.used % 8 == 0
      ensures old(current.used) % 8 == 0 && current.cap == current.data.Length
    {
      assert Sized(current);
      current.used := current.used + aligned;
      assert current.used % 8 == 0;
    }

    /** No byte that was there before differs, but for those of the region. */
    twostate predicate OnlyRegion(new r: Region, before: seq<ArenaBlock>)
      reads set b | b in before :: b.data
    {
      forall b :: b in before ==> forall i :: 0 <= i < b.data.Length ==>
        b != r.block || i < r.start || r.start + r.size <= i ==> b.data[i] == old(b.data[i])
    }

    /** Which block a request is served from: its own in front, `current`, the one after it, or a new one
        at the end. */
    ghost predicate Served(r: Region, oldBlocks: seq<ArenaBlock>, oldAt: nat, cap: nat, used: nat)
      reads this
      requires oldAt < |oldBlocks|
    {
      if r.size > blockSize then blocks == [r.block] + oldBlocks && at == oldAt + 1 && r.start == 0
      else if used + r.size <= cap then
        blocks == oldBlocks && at == oldAt && r.block == oldBlocks[at] && r.start == used
      else if oldAt + 1 < |oldBlocks| then
        blocks == oldBlocks && at == oldAt + 1 && r.block == oldBlocks[at] && r.start == 0
      else blocks == oldBlocks + [r.block] && at == oldAt + 1 && r.start == 0
    }

    lemma ServedMeans(r: Region, oldBlocks: seq<ArenaBlock>, oldAt: nat, cap: nat, used: nat)
      requires oldAt < |oldBlocks| && Served(r, oldBlocks, oldAt, cap, used)
      ensures r.size > blockSize ==> blocks == [r.block] + oldBlocks && r.start == 0 && at == oldAt + 1
      ensures r.size <= blockSize && used + r.size <= cap ==>
                blocks == oldBlocks && at == oldAt < |blocks| && r.block == blocks[at] && r.start == used
      ensures r.size <= blockSize && used + r.size > cap ==>
                at == oldAt + 1 < |blocks| && r.block == blocks[at] && r.start == 0 &&
                blocks == oldBlocks + if oldAt + 1 < |oldBlocks| then [] else [r.block]
    {
    }

    /** `hw_arena_alloc`: a live region more, of the size rounded up to a multiple of 8 and zeroed; the bytes
        of all others stay as they are. */
    method Alloc(size: nat) returns (r: Option<Region>)
      requires Valid()
      modifies this`head, this`current, this`blocks, this`at, this`live
      modifies current`next, current`used, current.data, Only(current.next)`used, DataOf(current.next)
      ensures Valid() && (r.None? <==> size == 0)
      ensures r.None? ==> unchanged(this) && unchanged(blocks)
      ensures r.Some? ==> r.value.size == Aligned(size) && live == old(live) + [r.value] && Zeroed(r.value)
      ensures r.Some? ==> OnlyRegion(r.value, old(blocks))
      ensures r.Some? ==> Served(r.value, old(blocks), old(at), old(current.cap), old(current.used))
      ensures r.Some? && Aligned(size) > blockSize ==>
                blocks == [r.value.block] + old(blocks) && r.value.start == 0 && at == old(at) + 1
      ensures r.Some? && Aligned(size) <= blockSize && old(current.used) + Aligned(size) <= old(current.cap) ==>
                blocks == old(blocks) && at == old(at) && r.value.block == blocks[at] &&
                r.value.start == old(current.used)
      ensures r.Some? && Aligned(size) <= blockSize && old(current.used) + Aligned(size) > old(current.cap) ==>
                at == old(at) + 1 && r.value.block == blocks[at] && r.value.start == 0 &&
                blocks == old(blocks) + if old(at) + 1 < |old(blocks)| then [] else [r.value.block]
    {
      hide Listed, Placed, Disjoint, Zeroed, OnlyRegion, Served;
      if size == 0 {
        return None;
      }
      BlocksKnown();
      var region := AllocAligned(Aligned(size));
      r := Some(region);
      assert Served(region, old(blocks), old(at), old(current.cap), old(current.used));
      ServedMeans(region, old(blocks), old(at), old(current.cap), old(current.used));
    }

    /** The request once rounded up. */
    method AllocAligned(aligned: nat) returns (r: Region)
      requires Valid() && aligned % 8 == 0
      modifies this`head, this`current, this`blocks, this`at, this`live
      modifies current`next, current`used, current.data, Only(current.next)`used, DataOf(current.next)
      ensures Valid() && r.size == aligned && live == old(live) + [r] && Zeroed(r)
      ensures OnlyRegion(r, old(blocks))
      ensures r.block !in old(blocks) ==> fresh(r.block)
      ensures Served(r, old(blocks), old(at), old(current.cap), old(current.used))
    {
      hide Listed, Placed, Disjoint;
      BlocksKnown();
      if aligned > blockSize {
        r := AllocOversize(aligned);
        return;
      }
      if current.used + aligned > current.cap {
        NextBlock();
        BlocksKnown();
      }
      r := Bump(aligned);
    }

    /** `hw_arena_reset` */
    method Reset()
      requires Valid()
      modifies this`current, this`at, this`live, blocks`used
      ensures Valid() && blocks == old(blocks) && live == [] && at == 0
      ensures forall b :: b in blocks ==> b.used == 0
    {
      hide Listed, Cleared, Placed, Disjoint, Sized;
      BlocksKnown();
      BlockAt(0);
      NoneCleared();
      var b: ArenaBlock? := head;
      ghost var i: nat := 0;
      while b != null
        modifies blocks`used
        invariant i <= |blocks| && b == if i < |blocks| then blocks[i] else null
        invariant Listed()
        invariant Cleared(i)
        decreases |blocks| - i
      {
        BlockAt(i);
        ClearUsed(b, i);
        b, i := b.next, i + 1;
      }
      Restart();
    }

    method Restart()
      requires Listed() && Cleared(|blocks|)
      modifies this`current, this`at, this`live
      ensures Listed() && live == [] && at == 0 && forall b :: b in blocks ==> b.used == 0
    {
      current := head;
      at, live := 0, [];
    }

    lemma BlockAt(i: nat)
      requires Listed() && i < |blocks|
      ensures blocks[i].next == if i + 1 < |blocks| then blocks[i + 1] else null
      ensures head == blocks[0]
    {
    }

    ghost predicate Cleared(n: nat)
      reads this, blocks
    {
      n <= |blocks| && forall i :: 0 <= i < n ==> blocks[i].used == 0
    }

    lemma NoneCleared()
      ensures Cleared(0)
    {
    }

    method ClearUsed(b: ArenaBlock, ghost i: nat)
      requires Listed() && i < |blocks| && b == blocks[i] && Cleared(i)
      modifies b`used
      ensures Listed() && Cleared(i + 1)
    {
      b.used := 0;
      assert forall c :: c in blocks ==> old(Sized(c)) ==> Sized(c);
    }
  }

  function DataOf(b: ArenaBlock?): set<object> {
    if b == null then {} else {b.data}
  }
}
