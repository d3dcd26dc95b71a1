// Files of SPFS v2 on the block allocator: direct and indirect pointers, writes
// that take effect as a whole, and reclamation (kernel/src/fs.rs).
module Spfs {
  import opened Wrappers
  import opened Bytes
  import opened Blocks

  const BLOCK_SIZE: nat := 512
  const PTRS_PER_BLOCK: nat := 128
  const DIRECT_BLOCKS: nat := 6
  const REACHABLE_BLOCKS: nat := DIRECT_BLOCKS + PTRS_PER_BLOCK

  type Block = b: seq<byte> | |b| == 512 witness seq(512, _ => 0)

  function ZeroBlock(): Block {
    seq(512, _ => 0)
  }

  // The allocator's bitmap and the sectors in use.
  datatype Disk = Disk(bitmap: seq<bool>, data: map<nat, Block>)

  // The pointers of an inode; 0 means none.
  datatype Pointers = Pointers(direct: seq<nat>, indirect: nat, double: nat)

  const NO_POINTERS: Pointers := Pointers([0, 0, 0, 0, 0, 0], 0, 0)

  // ----------------------------------------------------------- table blocks

  function Entry(b: Block, k: nat): nat
    requires k < PTRS_PER_BLOCK
  {
    LeAt(b, 4 * k, 4)
  }

  function SetEntry(b: Block, k: nat, v: nat): Block
    requires k < PTRS_PER_BLOCK
  {
    b[..4 * k] + ToLe(v, 4) + b[4 * k + 4..]
  }

  lemma SetEntryOk(b: Block, k: nat, v: nat, j: nat)
    requires k < PTRS_PER_BLOCK && j < PTRS_PER_BLOCK && v < 0x1_0000_0000
    ensures Entry(SetEntry(b, k, v), j) == if j == k then v else Entry(b, j)
  {
    Limits();
    if j == k {
      LeInside(b[..4 * k], v, 4, b[4 * k + 4..]);
    } else {
      assert SetEntry(b, k, v)[4 * j..4 * j + 4] == b[4 * j..4 * j + 4];
      LeAtShifted(SetEntry(b, k, v), 4 * j, b, 4 * j, 4);
    }
  }

  // A table is an array of 32-bit integers, lowest byte first.
  lemma EntryDigits(b: Block, k: nat)
    requires k < PTRS_PER_BLOCK
    ensures Digits(b, 4 * k, Entry(b, k), 4)
  {
    IntegerDigits(b, 4 * k, 4);
  }

  lemma ZeroEntry(k: nat)
    requires k < PTRS_PER_BLOCK
    ensures Entry(ZeroBlock(), k) == 0
  {
    assert LeAt(ZeroBlock(), 4 * k + 4, 0) == 0;
    assert LeAt(ZeroBlock(), 4 * k + 3, 1) == 0;
    assert LeAt(ZeroBlock(), 4 * k + 2, 2) == 0;
    assert LeAt(ZeroBlock(), 4 * k + 1, 3) == 0;
  }

  // ---------------------------------------------------------------- reading

  // The pointer to the k-th block of a file.
  function PointerAt(d: Disk, p: Pointers, k: nat): nat
    requires |p.direct| == DIRECT_BLOCKS
  {
    if k < DIRECT_BLOCKS then p.direct[k]
    else if k < REACHABLE_BLOCKS then
      if p.indirect in d.data then Entry(d.data[p.indirect], k - DIRECT_BLOCKS) else 0
    else if k < REACHABLE_BLOCKS + PTRS_PER_BLOCK * PTRS_PER_BLOCK && p.double in d.data then
      var table := Entry(d.data[p.double], (k - REACHABLE_BLOCKS) / PTRS_PER_BLOCK);
      if table in d.data then Entry(d.data[table], (k - REACHABLE_BLOCKS) % PTRS_PER_BLOCK) else 0
    else 0
  }

  // The bytes that are reached through the pointers begin with these.
  ghost predicate Reads(d: Disk, p: Pointers, bytes: seq<byte>) {
    |p.direct| == DIRECT_BLOCKS
    && forall o :: 0 <= o < |bytes| ==>
         && PointerAt(d, p, o / BLOCK_SIZE) in d.data
         && d.data[PointerAt(d, p, o / BLOCK_SIZE)][o % BLOCK_SIZE] == bytes[o]
  }

  // ---------------------------------------------------------------- writing

  function BlocksFor(len: nat): nat {
    (len + BLOCK_SIZE - 1) / BLOCK_SIZE
  }

  // As few sectors of 512 bytes as hold the data.
  lemma BlocksAreEnough(len: nat, n: nat)
    ensures len <= 512 * n <==> BlocksFor(len) <= n
  {
  }

  // The k-th sector of the data, padded with zeros.
  function Chunk(data: seq<byte>, k: nat): (b: Block)
    requires k * BLOCK_SIZE <= |data|
  {
    var rest := data[k * BLOCK_SIZE..];
    if |rest| >= BLOCK_SIZE then rest[..BLOCK_SIZE] else rest + ZeroBlock()[|rest|..]
  }

  // The table block for a file that outgrows its direct pointers.
  function WithTable(d: Disk, p: Pointers): (Disk, Pointers) {
    if p.indirect != 0 then (d, p)
    else
      match LowestFree(d.bitmap)
      case None => (d, p)
      case Some(t) => (Disk(d.bitmap[t := true], d.data[t := ZeroBlock()]), p.(indirect := t))
  }

  // One sector is stored and its pointer recorded, where there is one for it.
  function Place(d: Disk, p: Pointers, k: nat, blk: nat, chunk: Block): (r: (Disk, Pointers))
    requires |p.direct| == DIRECT_BLOCKS
    ensures |r.1.direct| == DIRECT_BLOCKS
  {
    var stored := Disk(d.bitmap, d.data[blk := chunk]);
    if k < DIRECT_BLOCKS then (stored, p.(direct := p.direct[k := blk]))
    else if k < REACHABLE_BLOCKS then
      var (e, q) := WithTable(stored, p);
      if q.indirect in e.data then
        (Disk(e.bitmap, e.data[q.indirect := SetEntry(e.data[q.indirect], k - DIRECT_BLOCKS, blk)]), q)
      else (e, q)
    else (stored, p)
  }

  // The first k sectors of the data stored in these blocks.
  function PlaceAll(d: Disk, p: Pointers, blocks: seq<nat>, data: seq<byte>, k: nat): (r: (Disk, Pointers))
    requires |p.direct| == DIRECT_BLOCKS && k <= |blocks| == BlocksFor(|data|)
    ensures |r.1.direct| == DIRECT_BLOCKS
  {
    if k == 0 then (d, p)
    else
      var (e, q) := PlaceAll(d, p, blocks, data, k - 1);
      Place(e, q, k - 1, blocks[k - 1], Chunk(data, k - 1))
  }

  // Sectors are stored for exactly the used blocks other than the superblock.
  ghost predicate InSync(d: Disk) {
    && |d.bitmap| <= 0xFFFF_FFFF
    && (|d.bitmap| > 0 ==> d.bitmap[0])
    && d.data.Keys == UsedIn(d.bitmap) - {0}
  }

  predicate Distinct(s: seq<nat>) {
    forall i, j :: 0 <= i < j < |s| ==> s[i] != s[j]
  }

  lemma DistinctMore(s: seq<nat>, b: nat)
    requires Distinct(s) && b !in s
    ensures Distinct(s + [b])
  {
  }

  lemma ElementsMore(s: seq<nat>, b: nat)
    ensures Elements(s + [b]) == Elements(s) + {b}
  {
  }

  // The blocks have been taken for a write, and hold nothing yet.
  ghost predicate Staged(before: Disk, d: Disk, blocks: seq<nat>) {
    && d.data == before.data && |d.bitmap| == |before.bitmap|
    && Distinct(blocks)
    && Elements(blocks) <= FreeIn(before.bitmap)
    && UsedIn(d.bitmap) == UsedIn(before.bitmap) + Elements(blocks)
  }

  // The table block that a write of k sectors has allocated.
  function TableFor(d: Disk, k: nat): Option<nat> {
    if k > DIRECT_BLOCKS then LowestFree(d.bitmap) else None
  }

  // The pointers of an inode that was empty, after k sectors.
  ghost predicate PointersFilled(blocks: seq<nat>, k: nat, t: Option<nat>, p: Pointers)
    requires k <= |blocks|
  {
    && |p.direct| == DIRECT_BLOCKS && p.double == 0
    && (forall j :: 0 <= j < DIRECT_BLOCKS ==> p.direct[j] == if j < k then blocks[j] else 0)
    && p.indirect == (if t.Some? then t.value else 0)
  }

  // The sectors after k of the data's have been stored, with a table block or none.
  ghost predicate Stored(d0: Disk, blocks: seq<nat>, data: seq<byte>, k: nat, t: Option<nat>, d: Disk)
    requires k <= |blocks| == BlocksFor(|data|)
  {
    && (forall x :: x in d.data <==> x in d0.data || x in blocks[..k] || t == Some(x))
    && (forall x :: x in d0.data ==> d.data[x] == d0.data[x])
    && (forall j :: 0 <= j < k ==> d.data[blocks[j]] == Chunk(data, j))
  }

  // The table names the sectors after the direct ones.
  ghost predicate TableFilled(blocks: seq<nat>, k: nat, table: Block)
    requires k <= |blocks|
  {
    forall i :: 0 <= i < PTRS_PER_BLOCK ==>
      Entry(table, i) == if i + DIRECT_BLOCKS < k then blocks[i + DIRECT_BLOCKS] else 0
  }

  // What has been stored for an empty inode after k sectors.
  ghost predicate Filled(d0: Disk, blocks: seq<nat>, data: seq<byte>, k: nat, d: Disk, p: Pointers) {
    var t := TableFor(d0, k);
    && k <= |blocks| == BlocksFor(|data|)
    && PointersFilled(blocks, k, t, p)
    && Stored(d0, blocks, data, k, t, d)
    && d.bitmap == (if t.Some? then d0.bitmap[t.value := true] else d0.bitmap)
    && (t.Some? ==> TableFilled(blocks, k, d.data[t.value]))
  }

  // What the blocks of a write have in common with no other block.
  ghost predicate Taken(d0: Disk, blocks: seq<nat>) {
    && Distinct(blocks)
    && (forall j :: 0 <= j < |blocks| ==> blocks[j] !in d0.data && 0 < blocks[j] <= 0xFFFF_FFFF)
    && 0 !in d0.data
    && var t := LowestFree(d0.bitmap);
       t.Some? ==> t.value !in d0.data && t.value !in blocks && 0 < t.value <= 0xFFFF_FFFF
  }

  lemma StagedTaken(before: Disk, d0: Disk, blocks: seq<nat>)
    requires InSync(before) && Staged(before, d0, blocks)
    ensures Taken(d0, blocks)
  {
    forall j | 0 <= j < |blocks|
      ensures blocks[j] !in d0.data && 0 < blocks[j] <= 0xFFFF_FFFF
    {
      assert blocks[j] in FreeIn(before.bitmap);
      assert 0 in UsedIn(before.bitmap);
    }
    var t := LowestFree(d0.bitmap);
    if t.Some? {
      assert t.value !in UsedIn(d0.bitmap);
      assert 0 in UsedIn(before.bitmap);
    }
  }

  lemma SectorIsNew(d0: Disk, blocks: seq<nat>, k: nat)
    requires Taken(d0, blocks) && k < |blocks|
    ensures blocks[k] !in blocks[..k] && blocks[k] !in d0.data && LowestFree(d0.bitmap) != Some(blocks[k])
    ensures 0 < blocks[k] <= 0xFFFF_FFFF
  {
    assert forall j :: 0 <= j < k ==> blocks[j] != blocks[k];
    assert blocks[k] in blocks;
  }

  lemma StoreOne(d0: Disk, blocks: seq<nat>, data: seq<byte>, k: nat, t: Option<nat>, d: Disk)
    requires k < |blocks| == BlocksFor(|data|) && Stored(d0, blocks, data, k, t, d)
    requires blocks[k] !in blocks[..k] && blocks[k] !in d0.data && t != Some(blocks[k])
    ensures k * BLOCK_SIZE <= |data|
    ensures Stored(d0, blocks, data, k + 1, t, Disk(d.bitmap, d.data[blocks[k] := Chunk(data, k)]))
  {
    hide Chunk;
    assert blocks[..k + 1] == blocks[..k] + [blocks[k]];
    assert forall j :: 0 <= j < k ==> blocks[j] in blocks[..k] && blocks[j] != blocks[k];
  }

  // A table block comes into use, or its contents change.
  lemma StoreTable(d0: Disk, blocks: seq<nat>, data: seq<byte>, k: nat, t: Option<nat>, d: Disk, at: nat, table: Block)
    requires k <= |blocks| == BlocksFor(|data|) && Stored(d0, blocks, data, k, t, d)
    requires at !in blocks && at !in d0.data && (t == None || t == Some(at))
    ensures Stored(d0, blocks, data, k, Some(at), Disk(d.bitmap, d.data[at := table]))
  {
    hide Chunk;
    assert forall j :: 0 <= j < k ==> blocks[j] in blocks && blocks[j] != at;
    assert forall x :: x in blocks[..k] ==> x in blocks;
  }

  lemma FillDirect(d0: Disk, blocks: seq<nat>, data: seq<byte>, k: nat, d: Disk, p: Pointers)
    requires Taken(d0, blocks) && k < |blocks| && k < DIRECT_BLOCKS && Filled(d0, blocks, data, k, d, p)
    ensures k * BLOCK_SIZE <= |data|
    ensures var (e, q) := Place(d, p, k, blocks[k], Chunk(data, k)); Filled(d0, blocks, data, k + 1, e, q)
  {
    SectorIsNew(d0, blocks, k);
    StoreOne(d0, blocks, data, k, None, d);
    hide Chunk, Taken, LowestFree, Stored, TableFilled;
  }

  lemma FillBeyond(d0: Disk, blocks: seq<nat>, data: seq<byte>, k: nat, d: Disk, p: Pointers)
    requires Taken(d0, blocks) && k < |blocks| && k >= REACHABLE_BLOCKS && Filled(d0, blocks, data, k, d, p)
    ensures k * BLOCK_SIZE <= |data|
    ensures var (e, q) := Place(d, p, k, blocks[k], Chunk(data, k)); Filled(d0, blocks, data, k + 1, e, q)
  {
    SectorIsNew(d0, blocks, k);
    StoreOne(d0, blocks, data, k, TableFor(d0, k), d);
    var t := LowestFree(d0.bitmap);
    if t.Some? {
      TableStaysFilled(blocks, k, d.data[t.value]);
      assert d.data[blocks[k] := Chunk(data, k)][t.value] == d.data[t.value];
    }
    hide Chunk, Taken, LowestFree, Stored, TableFilled;
  }

  lemma TableStaysFilled(blocks: seq<nat>, k: nat, table: Block)
    requires REACHABLE_BLOCKS <= k < |blocks| && TableFilled(blocks, k, table)
    ensures TableFilled(blocks, k + 1, table)
  {
    hide Entry;
  }

  lemma ZeroTable(blocks: seq<nat>)
    requires DIRECT_BLOCKS <= |blocks|
    ensures TableFilled(blocks, DIRECT_BLOCKS, ZeroBlock())
  {
    forall i | 0 <= i < PTRS_PER_BLOCK
      ensures Entry(ZeroBlock(), i) == 0
    {
      ZeroEntry(i);
    }
  }

  lemma EntryFillsTable(blocks: seq<nat>, k: nat, table: Block)
    requires DIRECT_BLOCKS <= k < |blocks| && k < REACHABLE_BLOCKS && TableFilled(blocks, k, table)
    requires blocks[k] <= 0xFFFF_FFFF
    ensures TableFilled(blocks, k + 1, SetEntry(table, k - DIRECT_BLOCKS, blocks[k]))
  {
    hide Entry, SetEntry;
    var next := SetEntry(table, k - DIRECT_BLOCKS, blocks[k]);
    forall i | 0 <= i < PTRS_PER_BLOCK
      ensures Entry(next, i)
           == if i + DIRECT_BLOCKS < k + 1 then blocks[i + DIRECT_BLOCKS] else 0
    {
      SetEntryOk(table, k - DIRECT_BLOCKS, blocks[k], i);
    }
  }

  // The table is there, or there was no block for it.
  lemma TableReady(d0: Disk, blocks: seq<nat>, data: seq<byte>, k: nat, d: Disk, p: Pointers)
    requires Taken(d0, blocks) && k < |blocks| && DIRECT_BLOCKS <= k < REACHABLE_BLOCKS
    requires Filled(d0, blocks, data, k, d, p)
    ensures k * BLOCK_SIZE <= |data|
    ensures var w := WithTable(Disk(d.bitmap, d.data[blocks[k] := Chunk(data, k)]), p);
            var t := LowestFree(d0.bitmap);
            && w.1 == p.(indirect := if t.Some? then t.value else 0)
            && w.0.bitmap == (if t.Some? then d0.bitmap[t.value := true] else d0.bitmap)
            && Stored(d0, blocks, data, k + 1, t, w.0)
            && (t.Some? ==> TableFilled(blocks, k, w.0.data[t.value]))
  {
    SectorIsNew(d0, blocks, k);
    StoreOne(d0, blocks, data, k, TableFor(d0, k), d);
    var stored := Disk(d.bitmap, d.data[blocks[k] := Chunk(data, k)]);
    var t := LowestFree(d0.bitmap);
    if k == DIRECT_BLOCKS {
      if t.Some? {
        assert t.value !in blocks && t.value !in d0.data;
        StoreTable(d0, blocks, data, k + 1, None, stored, t.value, ZeroBlock());
        ZeroTable(blocks);
      }
    } else if t.Some? {
      assert stored.data[t.value] == d.data[t.value];
    }
    assert t.Some? ==> t.value != 0;
    hide Chunk, Taken, LowestFree, Stored, TableFilled;
  }

  lemma FillIndirect(d0: Disk, blocks: seq<nat>, data: seq<byte>, k: nat, d: Disk, p: Pointers)
    requires Taken(d0, blocks) && k < |blocks| && DIRECT_BLOCKS <= k < REACHABLE_BLOCKS
    requires Filled(d0, blocks, data, k, d, p)
    ensures k * BLOCK_SIZE <= |data|
    ensures var (e, q) := Place(d, p, k, blocks[k], Chunk(data, k)); Filled(d0, blocks, data, k + 1, e, q)
  {
    TableReady(d0, blocks, data, k, d, p);
    SectorIsNew(d0, blocks, k);
    var t := LowestFree(d0.bitmap);
    var w := WithTable(Disk(d.bitmap, d.data[blocks[k] := Chunk(data, k)]), p);
    if t.Some? {
      assert t.value !in blocks && t.value !in d0.data && t.value in w.0.data;
      var table := SetEntry(w.0.data[t.value], k - DIRECT_BLOCKS, blocks[k]);
      EntryFillsTable(blocks, k, w.0.data[t.value]);
      StoreTable(d0, blocks, data, k + 1, t, w.0, t.value, table);
    } else {
      assert forall j :: 0 <= j < k + 1 ==> blocks[j] != 0;
      assert 0 !in blocks[..k + 1];
      assert 0 !in w.0.data;
    }
    hide WithTable, Chunk, LowestFree, Stored, TableFilled, Taken, SetEntry;
  }

  lemma FillNext(d0: Disk, blocks: seq<nat>, data: seq<byte>, k: nat, d: Disk, p: Pointers)
    requires Taken(d0, blocks) && k < |blocks| && Filled(d0, blocks, data, k, d, p)
    ensures |p.direct| == DIRECT_BLOCKS && k * BLOCK_SIZE <= |data|
    ensures var r := Place(d, p, k, blocks[k], Chunk(data, k)); Filled(d0, blocks, data, k + 1, r.0, r.1)
  {
    if k < DIRECT_BLOCKS {
      FillDirect(d0, blocks, data, k, d, p);
    } else if k < REACHABLE_BLOCKS {
      FillIndirect(d0, blocks, data, k, d, p);
    } else {
      FillBeyond(d0, blocks, data, k, d, p);
    }
  }

  lemma FillStart(d0: Disk, blocks: seq<nat>, data: seq<byte>)
    requires Taken(d0, blocks) && |blocks| == BlocksFor(|data|)
    ensures Filled(d0, blocks, data, 0, d0, NO_POINTERS)
  {
  }

  lemma {:induction false} FillsEmpty(d0: Disk, blocks: seq<nat>, data: seq<byte>, k: nat)
    requires Taken(d0, blocks) && k <= |blocks| == BlocksFor(|data|)
    ensures var r := PlaceAll(d0, NO_POINTERS, blocks, data, k); Filled(d0, blocks, data, k, r.0, r.1)
  {
    hide Taken, Filled, Place, Chunk, BlocksFor;
    if k == 0 {
      FillStart(d0, blocks, data);
    } else {
      FillsEmpty(d0, blocks, data, k - 1);
      var r := PlaceAll(d0, NO_POINTERS, blocks, data, k - 1);
      FillNext(d0, blocks, data, k - 1, r.0, r.1);
      assert PlaceAll(d0, NO_POINTERS, blocks, data, k) == Place(r.0, r.1, k - 1, blocks[k - 1], Chunk(data, k - 1));
    }
  }

  // --------------------------------------------------- what a write achieves

  // There is a pointer for every sector of the data.
  predicate Fits(len: nat, free: nat) {
    var n := BlocksFor(len);
    n <= free && (n <= DIRECT_BLOCKS || (n <= REACHABLE_BLOCKS && n < free))
  }

  lemma ChunkByte(data: seq<byte>, o: nat)
    requires o < |data|
    ensures o / BLOCK_SIZE * BLOCK_SIZE <= |data| && o / BLOCK_SIZE < BlocksFor(|data|)
    ensures Chunk(data, o / BLOCK_SIZE)[o % BLOCK_SIZE] == data[o]
  {
    var k := o / BLOCK_SIZE;
    assert data[k * BLOCK_SIZE..][o % BLOCK_SIZE] == data[o];
  }

  // What a sector of the data holds: its 512 bytes from 512 k on, then zeros.
  lemma ChunkBytes(data: seq<byte>, k: nat, j: nat)
    requires k * BLOCK_SIZE <= |data| && j < 512
    ensures Chunk(data, k)[j] == if 512 * k + j < |data| then data[512 * k + j] else 0
  {
    assert data[k * BLOCK_SIZE..] == data[512 * k..];
  }

  // The data can be read back through the pointers exactly when there was a
  // pointer for each of its sectors.
  lemma ReadsBack(d0: Disk, blocks: seq<nat>, data: seq<byte>, d: Disk, p: Pointers)
    requires Taken(d0, blocks) && Filled(d0, blocks, data, |blocks|, d, p)
    ensures Reads(d, p, data)
       <==> |blocks| <= DIRECT_BLOCKS || (|blocks| <= REACHABLE_BLOCKS && LowestFree(d0.bitmap).Some?)
  {
    var n := |blocks|;
    if n <= DIRECT_BLOCKS || (n <= REACHABLE_BLOCKS && LowestFree(d0.bitmap).Some?) {
      forall o | 0 <= o < |data|
        ensures PointerAt(d, p, o / BLOCK_SIZE) in d.data
        ensures d.data[PointerAt(d, p, o / BLOCK_SIZE)][o % BLOCK_SIZE] == data[o]
      {
        ReadsByte(d0, blocks, data, d, p, o);
      }
    } else {
      var k := if n > REACHABLE_BLOCKS then REACHABLE_BLOCKS else DIRECT_BLOCKS;
      assert PointerAt(d, p, k) == 0 && 0 !in d.data by { NoPointer(d0, blocks, data, d, p, k); }
      var o := k * BLOCK_SIZE;
      assert o / BLOCK_SIZE == k && o < |data|;
    }
  }

  lemma ReadsByte(d0: Disk, blocks: seq<nat>, data: seq<byte>, d: Disk, p: Pointers, o: nat)
    requires Taken(d0, blocks) && Filled(d0, blocks, data, |blocks|, d, p) && o < |data|
    requires |blocks| <= DIRECT_BLOCKS || (|blocks| <= REACHABLE_BLOCKS && LowestFree(d0.bitmap).Some?)
    ensures PointerAt(d, p, o / BLOCK_SIZE) in d.data
    ensures d.data[PointerAt(d, p, o / BLOCK_SIZE)][o % BLOCK_SIZE] == data[o]
  {
    ChunkByte(data, o);
    ReadsSector(d0, blocks, data, d, p, o / BLOCK_SIZE);
    hide *;
  }

  lemma ReadsSector(d0: Disk, blocks: seq<nat>, data: seq<byte>, d: Disk, p: Pointers, k: nat)
    requires Filled(d0, blocks, data, |blocks|, d, p) && k < |blocks|
    requires |blocks| <= DIRECT_BLOCKS || (|blocks| <= REACHABLE_BLOCKS && LowestFree(d0.bitmap).Some?)
    ensures |p.direct| == DIRECT_BLOCKS && PointerAt(d, p, k) in d.data
    ensures k * BLOCK_SIZE <= |data| && d.data[PointerAt(d, p, k)] == Chunk(data, k)
  {
    hide Chunk, LowestFree, Entry;
    assert PointerAt(d, p, k) == blocks[k];
    assert blocks[k] in blocks[..|blocks|];
  }

  lemma NoPointer(d0: Disk, blocks: seq<nat>, data: seq<byte>, d: Disk, p: Pointers, k: nat)
    requires Taken(d0, blocks) && Filled(d0, blocks, data, |blocks|, d, p)
    requires k == REACHABLE_BLOCKS
             || (DIRECT_BLOCKS <= k < REACHABLE_BLOCKS < |blocks| + REACHABLE_BLOCKS
                 && LowestFree(d0.bitmap).None?)
    ensures PointerAt(d, p, k) == 0 && 0 !in d.data
  {
    hide Chunk, Entry;
    assert 0 !in blocks;
    assert blocks[..|blocks|] == blocks;
  }

  // --------------------------------------------------------------- ownership

  function NonZero(s: seq<nat>): set<nat> {
    set k | 0 <= k < |s| && s[k] != 0 :: s[k]
  }

  function Entries(b: Block): (r: seq<nat>)
    ensures |r| == PTRS_PER_BLOCK && forall k :: 0 <= k < |r| ==> r[k] == Entry(b, k)
  {
    seq(PTRS_PER_BLOCK, k requires 0 <= k < PTRS_PER_BLOCK => Entry(b, k))
  }

  // A table block and the blocks it points to.
  function TableBlocks(d: Disk, t: nat): set<nat> {
    if t == 0 then {}
    else if t in d.data then {t} + NonZero(Entries(d.data[t]))
    else {t}
  }

  function DoubleBlocks(d: Disk, t: nat): set<nat> {
    if t == 0 then {}
    else if t in d.data then {t} + AllTables(d, Entries(d.data[t]))
    else {t}
  }

  function AllTables(d: Disk, tables: seq<nat>): set<nat> {
    set k, b | 0 <= k < |tables| && b in TableBlocks(d, tables[k]) :: b
  }

  // Every block that is reached from an inode.
  function Owned(d: Disk, p: Pointers): set<nat> {
    NonZero(p.direct) + TableBlocks(d, p.indirect) + DoubleBlocks(d, p.double)
  }

  // A file without a double table whose pointers all lead to different sectors.
  ghost predicate Sound(d: Disk, p: Pointers) {
    && |p.direct| == DIRECT_BLOCKS && p.double == 0
    && Owned(d, p) <= d.data.Keys
    && (forall i, j :: 0 <= i < j < DIRECT_BLOCKS && p.direct[i] != 0 ==> p.direct[i] != p.direct[j])
    && (p.indirect != 0 ==> p.indirect !in NonZero(p.direct) && ApartTable(d, p))
  }

  ghost predicate ApartTable(d: Disk, p: Pointers) {
    && p.indirect in d.data
    && var e := Entries(d.data[p.indirect]);
       && (forall i, j :: 0 <= i < j < PTRS_PER_BLOCK && e[i] != 0 ==> e[i] != e[j])
       && p.indirect !in NonZero(e) && NonZero(e) !! NonZero(p.direct)
  }

  // The blocks with these positions.
  function Part(blocks: seq<nat>, lo: nat, hi: nat): set<nat> {
    set j: nat | lo <= j < |blocks| && j < hi :: blocks[j]
  }

  lemma Parts(blocks: seq<nat>, lo: nat, mid: nat, hi: nat)
    requires Distinct(blocks)
    requires lo <= mid <= hi
    ensures Part(blocks, lo, mid) !! Part(blocks, mid, hi)
    ensures Part(blocks, lo, mid) + Part(blocks, mid, hi) == Part(blocks, lo, hi)
  {
    forall b | b in Part(blocks, lo, hi)
      ensures b in Part(blocks, lo, mid) || b in Part(blocks, mid, hi)
    {
      var j: nat :| lo <= j < |blocks| && j < hi && blocks[j] == b;
    }
  }

  // The blocks of a write that no pointer leads to.
  function Lost(d0: Disk, blocks: seq<nat>): set<nat> {
    Part(blocks, if LowestFree(d0.bitmap).Some? then REACHABLE_BLOCKS else DIRECT_BLOCKS, |blocks|)
  }

  lemma FilledDirect(d0: Disk, blocks: seq<nat>, data: seq<byte>, d: Disk, p: Pointers)
    requires Taken(d0, blocks) && Filled(d0, blocks, data, |blocks|, d, p)
    ensures NonZero(p.direct) == Part(blocks, 0, DIRECT_BLOCKS)
    ensures forall i, j :: 0 <= i < j < DIRECT_BLOCKS && p.direct[i] != 0 ==> p.direct[i] != p.direct[j]
  {
    hide Chunk, Entry, LowestFree;
    forall b | b in Part(blocks, 0, DIRECT_BLOCKS)
      ensures b in NonZero(p.direct)
    {
      var j: nat :| j < |blocks| && j < DIRECT_BLOCKS && blocks[j] == b;
      assert p.direct[j] == b;
    }
  }

  lemma FilledEntries(d0: Disk, blocks: seq<nat>, data: seq<byte>, d: Disk, p: Pointers)
    requires Taken(d0, blocks) && Filled(d0, blocks, data, |blocks|, d, p)
    requires TableFor(d0, |blocks|).Some?
    ensures p.indirect == LowestFree(d0.bitmap).value && p.indirect in d.data && p.indirect !in blocks
    ensures NonZero(Entries(d.data[p.indirect])) == Part(blocks, DIRECT_BLOCKS, REACHABLE_BLOCKS)
    ensures var e := Entries(d.data[p.indirect]);
            forall i, j :: 0 <= i < j < PTRS_PER_BLOCK && e[i] != 0 ==> e[i] != e[j]
  {
    hide Chunk, Entry, LowestFree;
    var e := Entries(d.data[p.indirect]);
    assert forall i :: 0 <= i < PTRS_PER_BLOCK ==>
      e[i] == if i + DIRECT_BLOCKS < |blocks| then blocks[i + DIRECT_BLOCKS] else 0;
    forall b | b in Part(blocks, DIRECT_BLOCKS, REACHABLE_BLOCKS)
      ensures b in NonZero(e)
    {
      var j: nat :| DIRECT_BLOCKS <= j < |blocks| && j < REACHABLE_BLOCKS && blocks[j] == b;
      assert e[j - DIRECT_BLOCKS] == b;
    }
  }

  lemma FilledKeys(d0: Disk, blocks: seq<nat>, data: seq<byte>, d: Disk, p: Pointers)
    requires Taken(d0, blocks) && Filled(d0, blocks, data, |blocks|, d, p)
    ensures var t := TableFor(d0, |blocks|);
            d.data.Keys == d0.data.Keys + Part(blocks, 0, |blocks|) + (if t.Some? then {t.value} else {})
    ensures Part(blocks, 0, |blocks|) !! d0.data.Keys
  {
    assert blocks[..|blocks|] == blocks;
    forall b | b in blocks
      ensures b in Part(blocks, 0, |blocks|)
    {
      var j :| 0 <= j < |blocks| && blocks[j] == b;
    }
  }

  lemma PartCut(blocks: seq<nat>, lo: nat, hi: nat)
    ensures |blocks| <= hi ==> Part(blocks, lo, hi) == Part(blocks, lo, |blocks|) && Part(blocks, hi, |blocks|) == {}
  {
  }

  // The blocks of a write are its direct ones, those in its table, and the rest.
  lemma ThreeParts(blocks: seq<nat>)
    requires Distinct(blocks)
    ensures var (a, b, c) := (Part(blocks, 0, DIRECT_BLOCKS), Part(blocks, DIRECT_BLOCKS, REACHABLE_BLOCKS),
                              Part(blocks, REACHABLE_BLOCKS, |blocks|));
            && a !! b && a !! c && b !! c && Part(blocks, 0, |blocks|) == a + b + c
            && b + c == Part(blocks, DIRECT_BLOCKS, |blocks|)
  {
    var n := |blocks|;
    var lo := if DIRECT_BLOCKS < n then DIRECT_BLOCKS else n;
    var hi := if REACHABLE_BLOCKS < n then REACHABLE_BLOCKS else n;
    PartCut(blocks, 0, DIRECT_BLOCKS);
    PartCut(blocks, DIRECT_BLOCKS, REACHABLE_BLOCKS);
    Parts(blocks, 0, lo, n);
    Parts(blocks, lo, hi, n);
  }

  lemma FilledOwnedTable(d0: Disk, blocks: seq<nat>, data: seq<byte>, d: Disk, p: Pointers)
    requires Taken(d0, blocks) && Filled(d0, blocks, data, |blocks|, d, p) && TableFor(d0, |blocks|).Some?
    ensures Sound(d, p) && p.indirect !in d0.data && p.indirect !in blocks
    ensures Owned(d, p) == Part(blocks, 0, DIRECT_BLOCKS) + Part(blocks, DIRECT_BLOCKS, REACHABLE_BLOCKS) + {p.indirect}
    ensures d.data.Keys == d0.data.Keys + Part(blocks, 0, |blocks|) + {p.indirect}
  {
    FilledDirect(d0, blocks, data, d, p);
    FilledKeys(d0, blocks, data, d, p);
    FilledEntries(d0, blocks, data, d, p);
    ThreeParts(blocks);
    PartInside(blocks, 0, |blocks|);
    assert p.indirect != 0 && p.indirect !in d0.data && |p.direct| == DIRECT_BLOCKS && p.double == 0;
    hide Part, Filled, Entries, NonZero, Taken, LowestFree, Sound;
    SingleTable(d, p);
  }

  lemma PartInside(blocks: seq<nat>, lo: nat, hi: nat)
    ensures forall b :: b in Part(blocks, lo, hi) ==> b in blocks
  {
  }

  // An inode with a table whose pointers are all different.
  lemma SingleTable(d: Disk, p: Pointers)
    requires |p.direct| == DIRECT_BLOCKS && p.double == 0 && p.indirect != 0 && p.indirect in d.data
    requires forall i, j :: 0 <= i < j < DIRECT_BLOCKS && p.direct[i] != 0 ==> p.direct[i] != p.direct[j]
    requires var e := Entries(d.data[p.indirect]);
             && (forall i, j :: 0 <= i < j < PTRS_PER_BLOCK && e[i] != 0 ==> e[i] != e[j])
             && p.indirect !in NonZero(e) && p.indirect !in NonZero(p.direct) && NonZero(e) !! NonZero(p.direct)
             && NonZero(e) + NonZero(p.direct) <= d.data.Keys
    ensures Sound(d, p) && Owned(d, p) == NonZero(p.direct) + NonZero(Entries(d.data[p.indirect])) + {p.indirect}
  {
    hide Entries, NonZero;
    assert Owned(d, p) == NonZero(p.direct) + ({p.indirect} + NonZero(Entries(d.data[p.indirect])));
  }

  lemma FilledOwnedDirect(d0: Disk, blocks: seq<nat>, data: seq<byte>, d: Disk, p: Pointers)
    requires Taken(d0, blocks) && Filled(d0, blocks, data, |blocks|, d, p) && TableFor(d0, |blocks|).None?
    ensures Sound(d, p) && Owned(d, p) == Part(blocks, 0, DIRECT_BLOCKS)
    ensures d.data.Keys == d0.data.Keys + Part(blocks, 0, |blocks|)
  {
    FilledDirect(d0, blocks, data, d, p);
    FilledKeys(d0, blocks, data, d, p);
    ThreeParts(blocks);
    assert p.indirect == 0 && p.double == 0 && |p.direct| == DIRECT_BLOCKS;
    hide Part, Filled, Entries, NonZero, Taken, LowestFree;
    assert Owned(d, p) == Part(blocks, 0, DIRECT_BLOCKS);
  }

  // After a write the new sectors belong to the file, each by one pointer, or to
  // nobody; nothing else is touched.
  lemma FilledOwned(d0: Disk, blocks: seq<nat>, data: seq<byte>, d: Disk, p: Pointers)
    requires Taken(d0, blocks) && Filled(d0, blocks, data, |blocks|, d, p)
    ensures Sound(d, p)
    ensures Owned(d, p) !! Lost(d0, blocks) && Owned(d, p) !! d0.data.Keys && Lost(d0, blocks) !! d0.data.Keys
    ensures d.data.Keys == d0.data.Keys + Owned(d, p) + Lost(d0, blocks)
  {
    ThreeParts(blocks);
    hide Part, Filled, Sound, Owned, Taken, LowestFree;
    FilledKeys(d0, blocks, data, d, p);
    LostPart(d0, blocks);
    if TableFor(d0, |blocks|).Some? {
      FilledOwnedTable(d0, blocks, data, d, p);
    } else {
      FilledOwnedDirect(d0, blocks, data, d, p);
      PartCut(blocks, 0, DIRECT_BLOCKS);
      PartCut(blocks, 0, REACHABLE_BLOCKS);
    }
    PartInside(blocks, REACHABLE_BLOCKS, |blocks|);
    hide Lost;
  }

  lemma LostPart(d0: Disk, blocks: seq<nat>)
    ensures Lost(d0, blocks) ==
      Part(blocks, if TableFor(d0, |blocks|).Some? then REACHABLE_BLOCKS else DIRECT_BLOCKS, |blocks|)
  {
    if |blocks| <= DIRECT_BLOCKS {
      PartCut(blocks, 0, DIRECT_BLOCKS);
      PartCut(blocks, 0, REACHABLE_BLOCKS);
    }
    hide Part, LowestFree;
  }

  // -------------------------------------------------------------- reclaiming

  // The disk without these blocks.
  function Released(d: Disk, blocks: set<nat>): Disk {
    Disk(Cleared(d.bitmap, blocks), d.data - blocks)
  }

  lemma ReleasedTwice(d: Disk, some: set<nat>, more: set<nat>)
    ensures Released(Released(d, some), more) == Released(d, some + more)
  {
    ClearedTwice(d.bitmap, some, more);
  }

  // The second-level tables named by the first k entries are released in turn.
  function ReleaseTables(d: Disk, tables: seq<nat>, k: nat): Disk
    requires k <= |tables|
  {
    if k == 0 then d
    else
      var e := ReleaseTables(d, tables, k - 1);
      Released(e, TableBlocks(e, tables[k - 1]))
  }

  function ReleaseDouble(d: Disk, t: nat): Disk {
    if t == 0 then d
    else if t in d.data then
      Released(ReleaseTables(Disk(d.bitmap, d.data - {t}), Entries(d.data[t]), PTRS_PER_BLOCK), {t})
    else Released(d, {t})
  }

  // Truncation walks the direct pointers, the table and the double table.
  function Truncated(d: Disk, p: Pointers): Disk {
    var d1 := Released(d, NonZero(p.direct));
    var d2 := Released(d1, TableBlocks(d1, p.indirect));
    ReleaseDouble(d2, p.double)
  }

  // Truncating a sound file releases exactly the blocks it owns.
  lemma TruncatesOwned(d: Disk, p: Pointers)
    requires Sound(d, p)
    ensures Truncated(d, p) == Released(d, Owned(d, p))
  {
    var d1 := Released(d, NonZero(p.direct));
    if p.indirect != 0 {
      assert TableBlocks(d1, p.indirect) == TableBlocks(d, p.indirect);
    }
    ReleasedTwice(d, NonZero(p.direct), TableBlocks(d, p.indirect));
    assert Owned(d, p) == NonZero(p.direct) + TableBlocks(d, p.indirect);
  }

  // A file is untouched by what happens to blocks it does not own.
  lemma OthersUntouched(d: Disk, e: Disk, p: Pointers, bytes: seq<byte>)
    requires Sound(d, p)
    requires forall b :: b in Owned(d, p) ==> b in e.data && e.data[b] == d.data[b]
    requires 0 !in d.data && 0 !in e.data
    ensures Sound(e, p) && Owned(e, p) == Owned(d, p)
    ensures Reads(e, p, bytes) <==> Reads(d, p, bytes)
  {
    if p.indirect != 0 { assert p.indirect in Owned(d, p); }
    assert Owned(e, p) == Owned(d, p);
    forall k: nat
      ensures PointerAt(e, p, k) == PointerAt(d, p, k)
      ensures PointerAt(d, p, k) != 0 ==> PointerAt(d, p, k) in Owned(d, p)
    {
      if DIRECT_BLOCKS <= k < REACHABLE_BLOCKS && p.indirect != 0 {
        assert Entries(d.data[p.indirect])[k - DIRECT_BLOCKS] == PointerAt(d, p, k);
      }
    }
  }

  // --------------------------------------------------------- staying in sync

  // The sectors still to be stored are the ones missing.
  ghost predicate SyncedBut(d: Disk, rest: set<nat>) {
    && |d.bitmap| <= 0xFFFF_FFFF && (|d.bitmap| > 0 ==> d.bitmap[0])
    && d.data.Keys + rest == UsedIn(d.bitmap) - {0}
  }

  lemma PlaceKeepsSync(d: Disk, p: Pointers, k: nat, blk: nat, chunk: Block, rest: set<nat>)
    requires |p.direct| == DIRECT_BLOCKS && SyncedBut(d, rest + {blk})
    ensures SyncedBut(Place(d, p, k, blk, chunk).0, rest)
  {
    var stored := Disk(d.bitmap, d.data[blk := chunk]);
    assert SyncedBut(stored, rest);
    TableKeepsSync(stored, p, rest);
    var w := WithTable(stored, p);
    if w.1.indirect in w.0.data {
      var i := if DIRECT_BLOCKS <= k < REACHABLE_BLOCKS then k - DIRECT_BLOCKS else 0;
      var table := SetEntry(w.0.data[w.1.indirect], i, blk);
      assert w.0.data[w.1.indirect := table].Keys == w.0.data.Keys;
    }
  }

  lemma TableKeepsSync(d: Disk, p: Pointers, rest: set<nat>)
    requires SyncedBut(d, rest)
    ensures SyncedBut(WithTable(d, p).0, rest)
  {
    var t := LowestFree(d.bitmap);
    if t.Some? {
      SetOneUsed(d.bitmap, t.value);
      assert t.value != 0 && |d.bitmap| > 0;
      MoreKeys(d.data, t.value, ZeroBlock());
      AddBeside(d.data.Keys, rest, UsedIn(d.bitmap), t.value);
      hide UsedIn, FreeIn, LowestFree;
    }
  }

  lemma AddBeside(keys: set<nat>, rest: set<nat>, used: set<nat>, t: nat)
    requires keys + rest == used - {0} && t != 0
    ensures (keys + {t}) + rest == (used + {t}) - {0}
  {
    assert (keys + {t}) + rest == (keys + rest) + {t};
  }

  lemma MoreKeys(m: map<nat, Block>, k: nat, b: Block)
    ensures m[k := b].Keys == m.Keys + {k}
  {
  }

  lemma ElementsFrom(s: seq<nat>, k: nat)
    requires k < |s|
    ensures Elements(s[k..]) == Elements(s[k + 1..]) + {s[k]}
  {
    assert s[k..] == [s[k]] + s[k + 1..];
  }

  lemma {:induction false} PlaceAllKeepsSync(d0: Disk, p: Pointers, blocks: seq<nat>, data: seq<byte>, k: nat)
    requires |p.direct| == DIRECT_BLOCKS && k <= |blocks| == BlocksFor(|data|)
    requires SyncedBut(d0, Elements(blocks))
    ensures SyncedBut(PlaceAll(d0, p, blocks, data, k).0, Elements(blocks[k..]))
  {
    assert k > 0 ==> (k - 1) * BLOCK_SIZE <= |data|;
    if k == 0 {
      assert blocks[0..] == blocks;
    } else {
      hide SyncedBut, Place, Elements, Chunk, BlocksFor;
      PlaceAllKeepsSync(d0, p, blocks, data, k - 1);
      ElementsFrom(blocks, k - 1);
      var r := PlaceAll(d0, p, blocks, data, k - 1);
      PlaceKeepsSync(r.0, r.1, k - 1, blocks[k - 1], Chunk(data, k - 1), Elements(blocks[k..]));
    }
  }

  lemma StagedInSync(before: Disk, d0: Disk, blocks: seq<nat>)
    requires InSync(before) && Staged(before, d0, blocks)
    ensures SyncedBut(d0, Elements(blocks))
  {
    if |d0.bitmap| > 0 { assert 0 in UsedIn(before.bitmap) && 0 in UsedIn(d0.bitmap); }
    assert 0 !in FreeIn(before.bitmap) && 0 !in blocks;
  }

  lemma ReleasedInSync(d: Disk, blocks: set<nat>)
    requires InSync(d) && 0 !in blocks
    ensures InSync(Released(d, blocks))
  {
    UsedAfterClear(d.bitmap, blocks);
  }

  // --------------------------------------------------------- whole operations

  // What a successful write does: some free blocks were taken, and the data was
  // placed in them.
  ghost predicate Wrote(before: Disk, p: Pointers, data: seq<byte>, after: Disk, q: Pointers) {
    |p.direct| == DIRECT_BLOCKS
    && exists d0, blocks ::
         && |blocks| == BlocksFor(|data|) && Staged(before, d0, blocks)
         && (after, q) == PlaceAll(d0, p, blocks, data, |blocks|)
  }

  // For an empty inode: the file is sound and owns new sectors only, every old
  // sector is as it was, and the data is readable, with no sector lost to the
  // disk, exactly when there was a pointer for each of its sectors.
  lemma WriteMeans(before: Disk, data: seq<byte>, after: Disk, q: Pointers)
    requires InSync(before) && Wrote(before, NO_POINTERS, data, after, q)
    ensures InSync(after) && Sound(after, q) && Owned(after, q) !! before.data.Keys
    ensures before.data.Keys + Owned(after, q) <= after.data.Keys
    ensures forall b :: b in before.data ==> after.data[b] == before.data[b]
    ensures Reads(after, q, data) <==> Fits(|data|, |FreeIn(before.bitmap)|)
    ensures after.data.Keys == before.data.Keys + Owned(after, q) <==> Fits(|data|, |FreeIn(before.bitmap)|)
  {
    var d0, blocks :| |blocks| == BlocksFor(|data|) && Staged(before, d0, blocks)
                      && (after, q) == PlaceAll(d0, NO_POINTERS, blocks, data, |blocks|);
    WroteInSync(before, NO_POINTERS, data, after, q);
    StagedTaken(before, d0, blocks);
    FillsEmpty(d0, blocks, data, |blocks|);
    hide *;
    OldSectorsStay(before, d0, blocks, data, after, q);
    WriteOwns(d0, blocks, data, after, q);
    WriteReads(before, d0, blocks, data, after, q);
    WriteLoses(before, d0, blocks, data, after, q);
  }

  lemma WriteOwns(d0: Disk, blocks: seq<nat>, data: seq<byte>, after: Disk, q: Pointers)
    requires Taken(d0, blocks) && Filled(d0, blocks, data, |blocks|, after, q)
    ensures Sound(after, q) && Owned(after, q) !! d0.data.Keys && d0.data.Keys + Owned(after, q) <= after.data.Keys
  {
    FilledOwned(d0, blocks, data, after, q);
    hide *;
  }

  lemma WriteReads(before: Disk, d0: Disk, blocks: seq<nat>, data: seq<byte>, after: Disk, q: Pointers)
    requires Staged(before, d0, blocks) && Taken(d0, blocks) && Filled(d0, blocks, data, |blocks|, after, q)
    requires |blocks| == BlocksFor(|data|)
    ensures Reads(after, q, data) <==> Fits(|data|, |FreeIn(before.bitmap)|)
  {
    StagedCount(before, d0, blocks);
    ReadsBack(d0, blocks, data, after, q);
    hide Staged, Taken, Filled, Reads, FreeIn, LowestFree;
  }

  lemma WriteLoses(before: Disk, d0: Disk, blocks: seq<nat>, data: seq<byte>, after: Disk, q: Pointers)
    requires Staged(before, d0, blocks) && Taken(d0, blocks) && Filled(d0, blocks, data, |blocks|, after, q)
    requires |blocks| == BlocksFor(|data|)
    ensures after.data.Keys == d0.data.Keys + Owned(after, q) <==> Fits(|data|, |FreeIn(before.bitmap)|)
  {
    StagedCount(before, d0, blocks);
    FilledOwned(d0, blocks, data, after, q);
    LostExactly(d0, blocks);
    hide Staged, Taken, Filled, Owned, Sound, FreeIn, LowestFree, Lost;
    var lost := Lost(d0, blocks);
    if lost != {} {
      var b :| b in lost;
      assert b in after.data.Keys && b !in d0.data.Keys + Owned(after, q);
    }
  }

  lemma OldSectorsStay(before: Disk, d0: Disk, blocks: seq<nat>, data: seq<byte>, after: Disk, q: Pointers)
    requires Staged(before, d0, blocks) && Filled(d0, blocks, data, |blocks|, after, q)
    ensures d0.data == before.data
    ensures forall b :: b in before.data ==> b in after.data && after.data[b] == before.data[b]
  {
  }

  // A write keeps sectors and bitmap together, also over a file in use.
  lemma WroteInSync(before: Disk, p: Pointers, data: seq<byte>, after: Disk, q: Pointers)
    requires InSync(before) && Wrote(before, p, data, after, q)
    ensures InSync(after)
  {
    var d0, blocks :| |blocks| == BlocksFor(|data|) && Staged(before, d0, blocks)
                      && (after, q) == PlaceAll(d0, p, blocks, data, |blocks|);
    StagedInSync(before, d0, blocks);
    PlaceAllKeepsSync(d0, p, blocks, data, |blocks|);
    assert Elements(blocks[|blocks|..]) == {};
  }

  lemma FreeIsUnused(bitmap: seq<bool>, b: nat)
    ensures b in FreeIn(bitmap) <==> b < |bitmap| && b !in UsedIn(bitmap)
  {
  }

  lemma StagedFree(before: Disk, d0: Disk, blocks: seq<nat>)
    requires Staged(before, d0, blocks)
    ensures FreeIn(before.bitmap) == FreeIn(d0.bitmap) + Elements(blocks)
    ensures FreeIn(d0.bitmap) !! Elements(blocks)
  {
    assert forall b :: b in Elements(blocks) ==> b in FreeIn(before.bitmap);
    hide FreeIn, UsedIn, Elements;
    forall b
      ensures b in FreeIn(before.bitmap) <==> b in FreeIn(d0.bitmap) || b in Elements(blocks)
      ensures b in FreeIn(d0.bitmap) ==> b !in Elements(blocks)
    {
      FreeIsUnused(before.bitmap, b);
      FreeIsUnused(d0.bitmap, b);
    }
  }

  lemma StagedCount(before: Disk, d0: Disk, blocks: seq<nat>)
    requires Staged(before, d0, blocks)
    ensures |FreeIn(d0.bitmap)| + |blocks| == |FreeIn(before.bitmap)|
    ensures |blocks| == |FreeIn(before.bitmap)| <==> LowestFree(d0.bitmap).None?
  {
    StagedFree(before, d0, blocks);
    DistinctCount(blocks);
    hide FreeIn, UsedIn, Elements, LowestFrom;
  }

  lemma {:induction false} DistinctCount(blocks: seq<nat>)
    requires Distinct(blocks)
    ensures |Elements(blocks)| == |blocks|
  {
    if blocks != [] {
      var last := |blocks| - 1;
      DistinctCount(blocks[..last]);
      assert blocks == blocks[..last] + [blocks[last]];
      assert Elements(blocks) == Elements(blocks[..last]) + {blocks[last]};
    }
  }

  lemma LostExactly(d0: Disk, blocks: seq<nat>)
    ensures Lost(d0, blocks) == {}
       <==> |blocks| <= DIRECT_BLOCKS || (|blocks| <= REACHABLE_BLOCKS && LowestFree(d0.bitmap).Some?)
  {
    var from := if LowestFree(d0.bitmap).Some? then REACHABLE_BLOCKS else DIRECT_BLOCKS;
    if from < |blocks| { assert blocks[from] in Lost(d0, blocks); }
  }

  // Writing a file and truncating it again leaves the disk exactly as it was,
  // bitmap and sectors, precisely when every sector of the data had a pointer.
  lemma WriteThenTruncate(before: Disk, data: seq<byte>, after: Disk, q: Pointers)
    requires InSync(before) && Wrote(before, NO_POINTERS, data, after, q)
    ensures Truncated(after, q) == before <==> Fits(|data|, |FreeIn(before.bitmap)|)
  {
    hide *;
    WriteMeans(before, data, after, q);
    TruncatesOwned(after, q);
    OwnedIsStored(after, q);
    ReleasedInSync(after, Owned(after, q));
    WroteSameSize(before, NO_POINTERS, data, after, q);
    BackAgain(before, after, Owned(after, q));
  }

  // Releasing what is new restores the disk if nothing else is, and only then.
  lemma BackAgain(before: Disk, after: Disk, owned: set<nat>)
    requires InSync(before) && InSync(Released(after, owned)) && |after.bitmap| == |before.bitmap|
    requires owned !! before.data.Keys && before.data.Keys + owned <= after.data.Keys
    requires forall b :: b in before.data ==> after.data[b] == before.data[b]
    ensures Released(after, owned) == before <==> after.data.Keys == before.data.Keys + owned
  {
    var back := Released(after, owned);
    assert back.data == after.data - owned && |back.bitmap| == |before.bitmap|;
    hide InSync, Released;
    if after.data.Keys == before.data.Keys + owned {
      assert back.data == before.data;
      SyncedBitmap(back, before);
    } else {
      var b :| b in after.data.Keys && b !in before.data.Keys + owned;
      assert b in back.data;
    }
  }

  lemma OwnedIsStored(d: Disk, p: Pointers)
    requires Sound(d, p) && InSync(d)
    ensures Owned(d, p) <= d.data.Keys && 0 !in Owned(d, p)
  {
  }

  lemma SyncedBitmap(a: Disk, b: Disk)
    requires InSync(a) && InSync(b) && |a.bitmap| == |b.bitmap| && a.data == b.data
    ensures a == b
  {
    if |a.bitmap| > 0 {
      assert 0 in UsedIn(a.bitmap) && 0 in UsedIn(b.bitmap);
    } else {
      assert UsedIn(a.bitmap) == {} && UsedIn(b.bitmap) == {};
    }
    assert UsedIn(a.bitmap) - {0} == UsedIn(b.bitmap) - {0};
    forall x: nat
      ensures x in UsedIn(a.bitmap) <==> x in UsedIn(b.bitmap)
    {
      assert x != 0 ==> (x in UsedIn(a.bitmap) <==> x in UsedIn(a.bitmap) - {0});
      assert x != 0 ==> (x in UsedIn(b.bitmap) <==> x in UsedIn(b.bitmap) - {0});
    }
    assert UsedIn(a.bitmap) == UsedIn(b.bitmap);
    SameUsedSameBitmap(a.bitmap, b.bitmap);
  }

  lemma WroteSameSize(before: Disk, p: Pointers, data: seq<byte>, after: Disk, q: Pointers)
    requires Wrote(before, p, data, after, q)
    ensures |after.bitmap| == |before.bitmap|
  {
    var d0, blocks :| |blocks| == BlocksFor(|data|) && Staged(before, d0, blocks)
                      && (after, q) == PlaceAll(d0, p, blocks, data, |blocks|);
    PlaceAllSameSize(d0, p, blocks, data, |blocks|);
  }

  lemma PlaceSameSize(d: Disk, p: Pointers, k: nat, blk: nat, chunk: Block)
    requires |p.direct| == DIRECT_BLOCKS
    ensures |Place(d, p, k, blk, chunk).0.bitmap| == |d.bitmap|
  {
    hide SetEntry;
  }

  lemma {:induction false} PlaceAllSameSize(d0: Disk, p: Pointers, blocks: seq<nat>, data: seq<byte>, k: nat)
    requires |p.direct| == DIRECT_BLOCKS && k <= |blocks| == BlocksFor(|data|)
    ensures |PlaceAll(d0, p, blocks, data, k).0.bitmap| == |d0.bitmap|
  {
    hide Place, Chunk;
    if k > 0 {
      PlaceAllSameSize(d0, p, blocks, data, k - 1);
      var (e, q) := PlaceAll(d0, p, blocks, data, k - 1);
      PlaceSameSize(e, q, k - 1, blocks[k - 1], Chunk(data, k - 1));
    }
  }
}
