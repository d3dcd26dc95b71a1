// The SPFS v2 engine: its allocator, its sectors, and the inodes it writes
// (kernel/src/fs.rs).
module SpfsEngine {
  import opened Wrappers
  import opened Bytes
  import opened Blocks
  import opened Spfs

  datatype FsError = NoSpace | InvalidSeek | PermissionDenied | NotFound | CorruptedMetadata

  class InodeV2 {
    var direct: seq<nat>
    var indirect: nat
    var doubleIndirect: nat
    var size: nat
    var blockCount: nat

    function Ptrs(): Pointers
      reads this
    {
      Pointers(direct, indirect, doubleIndirect)
    }

    constructor ()
      ensures Ptrs() == NO_POINTERS && size == 0 && blockCount == 0
    {
      direct, indirect, doubleIndirect, size, blockCount := [0, 0, 0, 0, 0, 0], 0, 0, 0, 0;
    }
  }

  class Engine {
    const allocator: BlockAllocator
    var blockData: map<nat, Block>

    function Image(): Disk
      reads this, allocator
    {
      Disk(allocator.bitmap, blockData)
    }

    ghost predicate Valid()
      reads this, allocator
    {
      allocator.Valid() && InSync(Image())
    }

    constructor (total: nat)
      requires total <= 0xFFFF_FFFF
      ensures Valid() && fresh(allocator)
      ensures |allocator.bitmap| == total && blockData == map[]
      ensures forall b :: 0 <= b < total ==> allocator.bitmap[b] == (b == 0)
    {
      allocator := new BlockAllocator(total);
      blockData := map[];
    }

    // All n blocks are taken, or none.
    method Stage(n: nat) returns (staged: Option<seq<nat>>)
      requires Valid()
      modifies allocator
      ensures allocator.Valid()
      ensures staged.None? <==> n > old(allocator.freeBlocks)
      ensures staged.None? ==>
        allocator.bitmap == old(allocator.bitmap) && allocator.freeBlocks == old(allocator.freeBlocks)
      ensures staged.Some? ==> |staged.value| == n && Staged(old(Image()), Image(), staged.value)
    {
      ghost var before := Image();
      var taken: seq<nat> := [];
      for i := 0 to n
        invariant allocator.Valid() && blockData == before.data && |taken| == i
        invariant Staged(before, Image(), taken)
        invariant allocator.freeBlocks + i == old(allocator.freeBlocks)
      {
        ghost var bitmap := allocator.bitmap;
        var found := allocator.AllocateBlock();
        match found
        case Some(blk) =>
          StageOne(before, bitmap, blockData, taken, blk);
          taken := taken + [blk];
        case None =>
          RollBack(taken, before);
          return None;
      }
      return Some(taken);
    }

    // Gives back the blocks staged so far, in the order they were taken.
    method RollBack(taken: seq<nat>, ghost before: Disk)
      requires allocator.Valid() && Staged(before, Image(), taken)
      modifies allocator
      ensures allocator.Valid() && allocator.bitmap == before.bitmap
    {
      ghost var bitmap := allocator.bitmap;
      assert bitmap == Cleared(bitmap, Elements(taken[..0]));
      for i := 0 to |taken|
        invariant allocator.Valid()
        invariant allocator.bitmap == Cleared(bitmap, Elements(taken[..i]))
      {
        allocator.FreeBlock(taken[i]);
        ClearedTwice(bitmap, Elements(taken[..i]), {taken[i]});
        assert Elements(taken[..i + 1]) == Elements(taken[..i]) + {taken[i]};
      }
      assert taken[..|taken|] == taken;
      Unstaged(before, Disk(bitmap, before.data), taken);
    }

    // Stores one sector and records its pointer.
    method PlaceBlock(inode: InodeV2, k: nat, blk: nat, buf: Block)
      requires allocator.Valid() && |inode.direct| == DIRECT_BLOCKS
      modifies this, allocator, inode`direct, inode`indirect
      ensures allocator.Valid()
      ensures (Image(), inode.Ptrs()) == Place(old(Image()), old(inode.Ptrs()), k, blk, buf)
    {
      blockData := blockData[blk := buf];
      if k < DIRECT_BLOCKS {
        inode.direct := inode.direct[k := blk];
      } else if k < DIRECT_BLOCKS + PTRS_PER_BLOCK {
        if inode.indirect == 0 {
          var found := allocator.AllocateBlock();
          if found.Some? {
            inode.indirect := found.value;
            blockData := blockData[found.value := ZeroBlock()];
          }
        }
        if inode.indirect in blockData {
          blockData := blockData[inode.indirect := SetEntry(blockData[inode.indirect], k - DIRECT_BLOCKS, blk)];
        }
      }
    }

    // Takes every block the data needs before it stores any of it. The write is
    // refused, with nothing changed, exactly when the data sectors alone exceed
    // the free blocks.
    method WriteFile(inode: InodeV2, data: seq<byte>) returns (r: Result<nat, FsError>)
      requires Valid() && |inode.direct| == DIRECT_BLOCKS
      modifies this, allocator, inode
      ensures Valid() && |inode.direct| == DIRECT_BLOCKS
      ensures r == if BlocksFor(|data|) > old(allocator.freeBlocks) then Err(NoSpace) else Ok(|data|)
      ensures r.Err? || data == [] ==>
                && Image() == old(Image()) && inode.Ptrs() == old(inode.Ptrs())
                && inode.size == old(inode.size) && inode.blockCount == old(inode.blockCount)
      ensures r.Ok? && data != [] ==>
                && Wrote(old(Image()), old(inode.Ptrs()), data, Image(), inode.Ptrs())
                && inode.size == |data| % 0x1_0000_0000 && inode.blockCount == BlocksFor(|data|)
    {
      if data == [] {
        return Ok(0);
      }
      var needed := (|data| + BLOCK_SIZE - 1) / BLOCK_SIZE;
      var staged := Stage(needed);
      if staged.None? {
        return Err(NoSpace);
      }
      ghost var d0 := Image();
      StagedInSync(old(Image()), d0, staged.value);
      inode.blockCount := StoreAll(inode, staged.value, data);
      PlaceAllKeepsSync(d0, old(inode.Ptrs()), staged.value, data, needed);
      SyncedButNothing(Image(), staged.value);
      inode.size := |data| % 0x1_0000_0000;
      hide InSync, Staged, SyncedBut, PlaceAll;
      assert Wrote(old(Image()), old(inode.Ptrs()), data, Image(), inode.Ptrs()) by {
        assert Staged(old(Image()), d0, staged.value);
      }
      return Ok(|data|);
    }

    // Stores the data sector by sector.
    method StoreAll(inode: InodeV2, blocks: seq<nat>, data: seq<byte>) returns (k: nat)
      requires allocator.Valid() && |inode.direct| == DIRECT_BLOCKS && |blocks| == BlocksFor(|data|)
      modifies this, allocator, inode`direct, inode`indirect
      ensures allocator.Valid() && k == |blocks|
      ensures (Image(), inode.Ptrs()) == PlaceAll(old(Image()), old(inode.Ptrs()), blocks, data, |blocks|)
      ensures |inode.direct| == DIRECT_BLOCKS
    {
      hide Place, Chunk, BlocksFor, At;
      ghost var d0, p0 := Image(), inode.Ptrs();
      AtStart(data);
      var written := 0;
      k := 0;
      while written < |data|
        invariant k <= |blocks| && At(|data|, k) == written
        invariant allocator.Valid() && |inode.direct| == DIRECT_BLOCKS
        invariant (Image(), inode.Ptrs()) == PlaceAll(d0, p0, blocks, data, k)
      {
        var chunkLen := if |data| - written < BLOCK_SIZE then |data| - written else BLOCK_SIZE;
        var buf: Block := data[written..written + chunkLen] + ZeroBlock()[chunkLen..];
        ChunkIs(data, written, k, buf);
        PlaceBlock(inode, k, blocks[k], buf);
        written := written + chunkLen;
        k := k + 1;
      }
    }

    // Frees one block and forgets its sector.
    method Drop(blk: nat)
      requires allocator.Valid()
      modifies this, allocator
      ensures allocator.Valid() && Image() == Released(old(Image()), {blk})
    {
      allocator.FreeBlock(blk);
      blockData := blockData - {blk};
    }

    // Frees every block that a table points to.
    method DropEntries(table: Block)
      requires allocator.Valid()
      modifies this, allocator
      ensures allocator.Valid() && Image() == Released(old(Image()), NonZero(Entries(table)))
    {
      ghost var e, before := Entries(table), Image();
      NoneReleased(before, e);
      hide Released, NonZero;
      for i := 0 to PTRS_PER_BLOCK
        invariant allocator.Valid() && Image() == Released(before, NonZero(e[..i]))
      {
        var blk := Entry(table, i);
        OneMore(e, i);
        assert e[i] == blk;
        assert NonZero(e[..i]) + {} == NonZero(e[..i]);
        if blk != 0 {
          ReleasedTwice(before, NonZero(e[..i]), {blk});
          Drop(blk);
        }
      }
      assert e[..PTRS_PER_BLOCK] == e;
    }

    // Frees a table block and every block it points to.
    method ReclaimTable(t: nat)
      requires allocator.Valid()
      modifies this, allocator
      ensures allocator.Valid() && Image() == Released(old(Image()), TableBlocks(old(Image()), t))
    {
      hide Released, NonZero, Entries, Cleared;
      ghost var before := Image();
      NothingReleased(before);
      if t == 0 {
        return;
      }
      if t in blockData {
        var table := blockData[t];
        blockData := blockData - {t};
        DropEntries(table);
        TableReleased(before, t, NonZero(Entries(table)));
      } else {
        TableReleased(before, t, {});
      }
      allocator.FreeBlock(t);
    }

    method ReclaimDirect(inode: InodeV2)
      requires allocator.Valid() && |inode.direct| == DIRECT_BLOCKS
      modifies this, allocator, inode`direct
      ensures allocator.Valid() && inode.direct == NO_POINTERS.direct
      ensures Image() == Released(old(Image()), NonZero(old(inode.direct)))
    {
      ghost var d, direct := Image(), inode.direct;
      NoneReleased(d, direct);
      hide Released, NonZero;
      for i := 0 to DIRECT_BLOCKS
        invariant allocator.Valid() && |inode.direct| == DIRECT_BLOCKS
        invariant Image() == Released(d, NonZero(direct[..i]))
        invariant forall k :: 0 <= k < DIRECT_BLOCKS ==> inode.direct[k] == if k < i then 0 else direct[k]
      {
        OneMore(direct, i);
        if inode.direct[i] != 0 {
          ReleasedTwice(d, NonZero(direct[..i]), {inode.direct[i]});
          Drop(inode.direct[i]);
          inode.direct := inode.direct[i := 0];
        }
      }
      assert direct[..DIRECT_BLOCKS] == direct;
    }

    // Frees everything that is reached from the inode, which is then empty.
    method Truncate(inode: InodeV2)
      requires Valid() && |inode.direct| == DIRECT_BLOCKS
      modifies this, allocator, inode
      ensures Valid()
      ensures Image() == Truncated(old(Image()), old(inode.Ptrs()))
      ensures inode.Ptrs() == NO_POINTERS && inode.size == 0 && inode.blockCount == 0
    {
      hide InSync, Released, TableBlocks, ReleaseDouble, NonZero;
      TruncatedInSync(Image(), inode.Ptrs());
      ReleasedNothing(Released(Image(), NonZero(inode.direct)));
      ReclaimDirect(inode);
      if inode.indirect != 0 {
        ReclaimTable(inode.indirect);
        inode.indirect := 0;
      }
      if inode.doubleIndirect != 0 {
        ReclaimDouble(inode.doubleIndirect);
        inode.doubleIndirect := 0;
      }
      inode.size := 0;
      inode.blockCount := 0;
    }

    // Frees the tables of a double table, one after the other.
    method ReclaimTables(table: Block)
      requires allocator.Valid()
      modifies this, allocator
      ensures allocator.Valid() && Image() == ReleaseTables(old(Image()), Entries(table), PTRS_PER_BLOCK)
    {
      hide Released, TableBlocks;
      for i := 0 to PTRS_PER_BLOCK
        invariant allocator.Valid()
        invariant Image() == ReleaseTables(old(Image()), Entries(table), i)
      {
        var second := Entry(table, i);
        ReclaimTable(second);
      }
    }

    method ReclaimDouble(t: nat)
      requires allocator.Valid() && t != 0
      modifies this, allocator
      ensures allocator.Valid() && Image() == ReleaseDouble(old(Image()), t)
    {
      hide Entries, ReleaseTables, Cleared, FreeIn, ReleaseDouble;
      ghost var before := Image();
      if t in blockData {
        var table := blockData[t];
        blockData := blockData - {t};
        ReclaimTables(table);
      }
      ghost var e := Image();
      allocator.FreeBlock(t);
      DoubleReleased(before, t, e, Image());
    }
  }

  // The double table's own bitmap bit goes last.
  lemma DoubleReleased(before: Disk, t: nat, e: Disk, after: Disk)
    requires t != 0 && after == Disk(Cleared(e.bitmap, {t}), e.data)
    requires e == if t in before.data
                  then ReleaseTables(Disk(before.bitmap, before.data - {t}), Entries(before.data[t]), PTRS_PER_BLOCK)
                  else before
    ensures after == ReleaseDouble(before, t)
  {
    hide Entries, ReleaseTables, Cleared;
    if t in before.data {
      TablesOnlyRelease(Disk(before.bitmap, before.data - {t}), Entries(before.data[t]), PTRS_PER_BLOCK);
    }
    assert e.data - {t} == e.data;
  }

  // A write that outgrows its pointers: 135 sectors on a disk with room for many
  // more. It is accepted, but the data cannot be read back and a sector is lost.
  method OutgrowPointers() returns (engine: Engine, inode: InodeV2, data: seq<byte>)
    ensures engine.Valid() && BlocksFor(|data|) == 135 && inode.size == |data|
    ensures !Reads(engine.Image(), inode.Ptrs(), data)
    ensures exists b :: b in engine.blockData && b !in Owned(engine.Image(), inode.Ptrs())
  {
    engine := new Engine(1000);
    inode := new InodeV2();
    FreshFree(engine.allocator.bitmap);
    TooLong(|FreeIn(engine.allocator.bitmap)|);
    ghost var before := engine.Image();
    hide InSync, Wrote, Reads, Owned, FreeIn, Zeros, BlocksFor, Fits, Sound;
    data := Zeros(LONG);
    var r := engine.WriteFile(inode, data);
    WriteMeans(before, data, engine.Image(), inode.Ptrs());
    NotAllOwned(before.data.Keys, Owned(engine.Image(), inode.Ptrs()), engine.blockData.Keys);
  }

  const LONG: nat := 135 * 512

  lemma TooLong(free: nat)
    ensures BlocksFor(LONG) == 135 && LONG % 0x1_0000_0000 == LONG && !Fits(LONG, free)
  {
  }

  lemma NotAllOwned(before: set<nat>, owned: set<nat>, stored: set<nat>)
    requires before == {} && before + owned <= stored && stored != before + owned
    ensures exists b :: b in stored && b !in owned
  {
  }

  lemma FreshFree(bitmap: seq<bool>)
    requires |bitmap| > 0 && forall b :: 0 <= b < |bitmap| ==> bitmap[b] == (b == 0)
    ensures |FreeIn(bitmap)| == |bitmap| - 1
  {
    FreshCount(bitmap);
  }

  lemma StageOne(before: Disk, bitmap: seq<bool>, data: map<nat, Block>, taken: seq<nat>, blk: nat)
    requires Staged(before, Disk(bitmap, data), taken) && blk < |bitmap| && !bitmap[blk]
    ensures Staged(before, Disk(bitmap[blk := true], data), taken + [blk])
  {
    SetOneUsed(bitmap, blk);
    ElementsMore(taken, blk);
    FreeIsUnused(bitmap, blk);
    FreeIsUnused(before.bitmap, blk);
    assert blk in FreeIn(bitmap) && |before.bitmap| == |bitmap|;
    assert blk !in Elements(taken);
    DistinctMore(taken, blk);
    hide FreeIn, UsedIn, Elements, Distinct;
  }

  lemma Unstaged(before: Disk, d: Disk, taken: seq<nat>)
    requires Staged(before, d, taken)
    ensures Cleared(d.bitmap, Elements(taken)) == before.bitmap
  {
    UsedAfterClear(d.bitmap, Elements(taken));
    assert Elements(taken) !! UsedIn(before.bitmap);
    assert UsedIn(Cleared(d.bitmap, Elements(taken))) == UsedIn(before.bitmap);
    SameUsedSameBitmap(Cleared(d.bitmap, Elements(taken)), before.bitmap);
  }

  // How many bytes k sectors hold.
  function At(len: nat, k: nat): nat {
    if k * BLOCK_SIZE < len then k * BLOCK_SIZE else len
  }

  lemma AtStart(data: seq<byte>)
    ensures At(|data|, 0) == 0
    ensures forall k :: 0 <= k <= BlocksFor(|data|) ==> (At(|data|, k) < |data| <==> k < BlocksFor(|data|))
  {
  }

  lemma ChunkIs(data: seq<byte>, written: nat, k: nat, buf: Block)
    requires written == At(|data|, k) < |data|
    requires var n := if |data| - written < BLOCK_SIZE then |data| - written else BLOCK_SIZE;
             buf == data[written..written + n] + ZeroBlock()[n..] && |buf| == BLOCK_SIZE
    ensures k * BLOCK_SIZE <= |data| && buf == Chunk(data, k)
    ensures At(|data|, k + 1) == written + if |data| - written < BLOCK_SIZE then |data| - written else BLOCK_SIZE
  {
  }

  lemma SyncedButNothing(d: Disk, blocks: seq<nat>)
    requires SyncedBut(d, Elements(blocks[|blocks|..]))
    ensures InSync(d)
  {
    assert Elements(blocks[|blocks|..]) == {};
  }

  // No table and no double table: nothing to release.
  lemma ReleasedNothing(d: Disk)
    ensures Released(d, TableBlocks(d, 0)) == d
    ensures forall e: Disk :: ReleaseDouble(e, 0) == e
  {
  }

  lemma NothingReleased(d: Disk)
    ensures Released(d, {}) == d
  {
  }

  lemma NoneReleased(d: Disk, s: seq<nat>)
    ensures Released(d, NonZero(s[..0])) == d
  {
  }

  // The table's own sector goes first and its bitmap bit last.
  lemma TableReleased(d: Disk, t: nat, entries: set<nat>)
    ensures var e := Released(Disk(d.bitmap, d.data - {t}), entries);
            Disk(Cleared(e.bitmap, {t}), e.data) == Released(d, {t} + entries)
    ensures t !in d.data ==> Disk(Cleared(d.bitmap, {t}), d.data) == Released(d, {t})
  {
    ClearedTwice(d.bitmap, entries, {t});
    assert entries + {t} == {t} + entries;
  }

  lemma OneMore(s: seq<nat>, i: nat)
    requires i < |s|
    ensures NonZero(s[..i + 1]) == NonZero(s[..i]) + (if s[i] == 0 then {} else {s[i]})
  {
    assert s[..i + 1] == s[..i] + [s[i]];
    forall b | b in NonZero(s[..i])
      ensures b in NonZero(s[..i + 1])
    {
      var k :| 0 <= k < i && s[..i][k] == b && b != 0;
      assert s[..i + 1][k] == b;
    }
    if s[i] != 0 { assert s[..i + 1][i] in NonZero(s[..i + 1]); }
  }

  lemma {:induction false} TablesOnlyRelease(d: Disk, tables: seq<nat>, k: nat)
    requires k <= |tables|
    ensures ReleaseTables(d, tables, k).data.Keys <= d.data.Keys
  {
    if k > 0 { TablesOnlyRelease(d, tables, k - 1); }
  }

  // In sync but for the table block that is being taken apart.
  ghost predicate InSyncBar(d: Disk, t: nat) {
    && |d.bitmap| <= 0xFFFF_FFFF && (|d.bitmap| > 0 ==> d.bitmap[0])
    && d.data.Keys - {t} == UsedIn(d.bitmap) - {0, t}
  }

  lemma ReleasedInSyncBar(d: Disk, t: nat, blocks: set<nat>)
    requires InSyncBar(d, t) && 0 !in blocks
    ensures InSyncBar(Released(d, blocks), t)
  {
    UsedAfterClear(d.bitmap, blocks);
    assert Released(d, blocks).data.Keys - {t} == (d.data.Keys - {t}) - blocks;
  }

  lemma {:induction false} TablesInSync(d: Disk, t: nat, tables: seq<nat>, k: nat)
    requires InSyncBar(d, t) && k <= |tables|
    ensures InSyncBar(ReleaseTables(d, tables, k), t)
  {
    if k > 0 {
      TablesInSync(d, t, tables, k - 1);
      var e := ReleaseTables(d, tables, k - 1);
      ReleasedInSyncBar(e, t, TableBlocks(e, tables[k - 1]));
    }
  }

  lemma DoubleInSync(d: Disk, t: nat)
    requires InSync(d)
    ensures InSync(ReleaseDouble(d, t))
  {
    if t in d.data {
      var cut := Disk(d.bitmap, d.data - {t});
      assert InSyncBar(cut, t);
      TablesInSync(cut, t, Entries(d.data[t]), PTRS_PER_BLOCK);
      var e := ReleaseTables(cut, Entries(d.data[t]), PTRS_PER_BLOCK);
      ReleasedInSyncBar(e, t, {t});
      assert Released(e, {t}).data.Keys == Released(e, {t}).data.Keys - {t};
      assert UsedIn(Released(e, {t}).bitmap) - {0, t} == UsedIn(Released(e, {t}).bitmap) - {0} by {
        UsedAfterClear(e.bitmap, {t});
      }
    } else if t != 0 {
      ReleasedInSync(d, {t});
    }
  }

  lemma TruncatedInSync(d: Disk, p: Pointers)
    requires InSync(d)
    ensures InSync(Truncated(d, p))
  {
    var d1 := Released(d, NonZero(p.direct));
    ReleasedInSync(d, NonZero(p.direct));
    var d2 := Released(d1, TableBlocks(d1, p.indirect));
    ReleasedInSync(d1, TableBlocks(d1, p.indirect));
    hide InSync, Released, ReleaseDouble, TableBlocks;
    DoubleInSync(d2, p.double);
  }
}
