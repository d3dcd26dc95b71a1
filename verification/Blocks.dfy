// The bitmap allocator of SPFS v2 (kernel/src/fs.rs).
module Blocks {
  import opened Wrappers

  function Elements(s: seq<nat>): set<nat> {
    set b | b in s
  }

  function FreeIn(bitmap: seq<bool>): set<nat> {
    set b: nat | b < |bitmap| && !bitmap[b]
  }

  function UsedIn(bitmap: seq<bool>): set<nat> {
    set b: nat | b < |bitmap| && bitmap[b]
  }

  // The lowest free block, if any.
  function LowestFree(bitmap: seq<bool>): (r: Option<nat>)
    ensures r.None? <==> FreeIn(bitmap) == {}
    ensures r.Some? ==> r.value < |bitmap| && !bitmap[r.value] && forall b :: 0 <= b < r.value ==> bitmap[b]
  {
    LowestFrom(bitmap, 0)
  }

  function LowestFrom(bitmap: seq<bool>, i: nat): (r: Option<nat>)
    requires i <= |bitmap| && forall b :: 0 <= b < i ==> bitmap[b]
    ensures r.None? <==> FreeIn(bitmap) == {}
    ensures r.Some? ==> r.value < |bitmap| && !bitmap[r.value] && forall b :: 0 <= b < r.value ==> bitmap[b]
    decreases |bitmap| - i
  {
    if i == |bitmap| then None
    else if !bitmap[i] then (assert i in FreeIn(bitmap); Some(i))
    else LowestFrom(bitmap, i + 1)
  }

  // The bitmap with these blocks marked free.
  function Cleared(bitmap: seq<bool>, blocks: set<nat>): (r: seq<bool>)
    ensures |r| == |bitmap|
    ensures forall k :: 0 <= k < |r| ==> r[k] == (bitmap[k] && k !in blocks)
  {
    seq(|bitmap|, k requires 0 <= k < |bitmap| => bitmap[k] && k !in blocks)
  }

  lemma SetOneUsed(bitmap: seq<bool>, b: nat)
    requires b < |bitmap| && !bitmap[b]
    ensures FreeIn(bitmap[b := true]) == FreeIn(bitmap) - {b}
    ensures UsedIn(bitmap[b := true]) == UsedIn(bitmap) + {b}
    ensures |FreeIn(bitmap[b := true])| == |FreeIn(bitmap)| - 1
  {
    assert FreeIn(bitmap[b := true]) == FreeIn(bitmap) - {b};
  }

  lemma SetOneFree(bitmap: seq<bool>, b: nat)
    requires b < |bitmap| && bitmap[b]
    ensures bitmap[b := false] == Cleared(bitmap, {b})
    ensures |FreeIn(bitmap[b := false])| == |FreeIn(bitmap)| + 1
  {
    assert FreeIn(bitmap[b := false]) == FreeIn(bitmap) + {b};
  }

  lemma ClearedTwice(bitmap: seq<bool>, some: set<nat>, more: set<nat>)
    ensures Cleared(Cleared(bitmap, some), more) == Cleared(bitmap, some + more)
  {
  }

  lemma UsedAfterClear(bitmap: seq<bool>, blocks: set<nat>)
    ensures UsedIn(Cleared(bitmap, blocks)) == UsedIn(bitmap) - blocks
  {
  }

  lemma SameUsedSameBitmap(a: seq<bool>, b: seq<bool>)
    requires |a| == |b| && UsedIn(a) == UsedIn(b)
    ensures a == b
  {
    forall k: nat | k < |a|
      ensures a[k] == b[k]
    {
      assert k in UsedIn(a) <==> k in UsedIn(b);
    }
  }

  class BlockAllocator {
    const totalBlocks: nat
    var freeBlocks: nat
    var bitmap: seq<bool>

    // The count of free blocks is exact.
    ghost predicate Valid()
      reads this
    {
      && |bitmap| == totalBlocks <= 0xFFFF_FFFF
      && freeBlocks == |FreeIn(bitmap)|
    }

    constructor (total: nat)
      requires total <= 0xFFFF_FFFF
      ensures Valid() && totalBlocks == total
      ensures forall b :: 0 <= b < total ==> bitmap[b] == (b == 0)
      ensures UsedIn(bitmap) <= {0}
    {
      // Block 0 is the superblock.
      totalBlocks := total;
      freeBlocks := if total == 0 then 0 else total - 1;
      bitmap := seq(total, b => b == 0);
      new;
      FreshCount(bitmap);
    }

    // None when nothing is free, otherwise the lowest free block.
    method AllocateBlock() returns (r: Option<nat>)
      requires Valid()
      modifies this
      ensures Valid()
      ensures r == LowestFree(old(bitmap))
      ensures r.None? ==> bitmap == old(bitmap) && freeBlocks == old(freeBlocks)
      ensures r.Some? ==> bitmap == old(bitmap)[r.value := true] && freeBlocks == old(freeBlocks) - 1
    {
      if freeBlocks == 0 {
        return None;
      }
      for idx := 0 to |bitmap|
        invariant bitmap == old(bitmap) && freeBlocks == old(freeBlocks)
        invariant forall b :: 0 <= b < idx ==> bitmap[b]
      {
        if !bitmap[idx] {
          SetOneUsed(bitmap, idx);
          assert idx in FreeIn(bitmap);
          bitmap := bitmap[idx := true];
          freeBlocks := freeBlocks - 1;
          return Some(idx);
        }
      }
      return None;
    }

    // Out-of-range and free blocks are ignored.
    method FreeBlock(block: nat)
      requires Valid()
      modifies this
      ensures Valid()
      ensures bitmap == Cleared(old(bitmap), {block})
    {
      if block < |bitmap| && bitmap[block] {
        SetOneFree(bitmap, block);
        bitmap := bitmap[block := false];
        freeBlocks := freeBlocks + 1;
      }
      assert bitmap == Cleared(old(bitmap), {block});
    }
  }

  lemma {:induction false} FreshCount(bitmap: seq<bool>)
    requires forall b :: 0 <= b < |bitmap| ==> bitmap[b] == (b == 0)
    ensures |FreeIn(bitmap)| == if |bitmap| == 0 then 0 else |bitmap| - 1
  {
    if |bitmap| <= 1 {
      assert FreeIn(bitmap) == {};
    } else {
      var last := |bitmap| - 1;
      FreshCount(bitmap[..last]);
      assert FreeIn(bitmap) == FreeIn(bitmap[..last]) + {last};
    }
  }
}
