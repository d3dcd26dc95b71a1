// Writing over a file in use: old sectors may be left without an owner, but no
// sector ever gets two (kernel/src/fs.rs).
module SpfsRewrite {
  import opened Wrappers
  import opened Bytes
  import opened Blocks
  import opened Spfs

  // The file owns what it owned in `d0` and sectors that were not stored then;
  // the sectors of others are as they were.
  ghost predicate TookNew(d0: Disk, p0: Pointers, d: Disk, p: Pointers) {
    && d0.data.Keys <= d.data.Keys && Sound(d, p)
    && Owned(d, p) <= Owned(d0, p0) + (d.data.Keys - d0.data.Keys)
    && forall b :: b in d0.data && b !in Owned(d0, p0) ==> d.data[b] == d0.data[b]
  }

  lemma TookNothing(d: Disk, p: Pointers)
    requires Sound(d, p)
    ensures TookNew(d, p, d, p)
  {
  }

  lemma TookMore(d0: Disk, p0: Pointers, d1: Disk, p1: Pointers, d2: Disk, p2: Pointers)
    requires TookNew(d0, p0, d1, p1) && TookNew(d1, p1, d2, p2)
    ensures TookNew(d0, p0, d2, p2)
  {
    hide Sound, Owned;
  }

  // ------------------------------------------------------------ one pointer

  // A new sector that no pointer leads to yet.
  lemma StoredSound(d: Disk, p: Pointers, blk: nat, chunk: Block)
    requires Sound(d, p) && blk !in d.data && blk != 0 && 0 !in d.data
    ensures var e := Disk(d.bitmap, d.data[blk := chunk]);
            Sound(e, p) && Owned(e, p) == Owned(d, p) && blk !in Owned(e, p)
  {
    OwnedKeys(d, p);
    hide Sound, Owned;
    OthersUntouched(d, Disk(d.bitmap, d.data[blk := chunk]), p, []);
  }

  lemma OwnedKeys(d: Disk, p: Pointers)
    requires Sound(d, p)
    ensures Owned(d, p) <= d.data.Keys
  {
  }

  lemma NonZeroSet(s: seq<nat>, i: nat, v: nat)
    requires i < |s| && v != 0
    ensures NonZero(s[i := v]) <= NonZero(s) + {v}
  {
  }

  // Pointers stay different when one becomes a new one.
  lemma DifferentSet(s: seq<nat>, i: nat, v: nat)
    requires i < |s| && v !in NonZero(s) && v != 0
    requires forall j, k :: 0 <= j < k < |s| && s[j] != 0 ==> s[j] != s[k]
    ensures var t := s[i := v]; forall j, k :: 0 <= j < k < |t| && t[j] != 0 ==> t[j] != t[k]
  {
    assert forall j :: 0 <= j < |s| && s[j] != 0 ==> s[j] in NonZero(s);
  }

  lemma DirectSound(d: Disk, p: Pointers, k: nat, blk: nat)
    requires Sound(d, p) && k < DIRECT_BLOCKS && blk != 0 && blk in d.data && blk !in Owned(d, p)
    ensures var q := p.(direct := p.direct[k := blk]); Sound(d, q) && Owned(d, q) <= Owned(d, p) + {blk}
  {
    NonZeroSet(p.direct, k, blk);
    DifferentSet(p.direct, k, blk);
    if p.indirect != 0 { assert p.indirect in Owned(d, p); }
    hide NonZero, Entries;
  }

  lemma EmptyTable()
    ensures NonZero(Entries(ZeroBlock())) == {} && forall i :: 0 <= i < PTRS_PER_BLOCK ==> Entries(ZeroBlock())[i] == 0
  {
    hide Entry;
    forall i | 0 <= i < PTRS_PER_BLOCK ensures Entries(ZeroBlock())[i] == 0 {
      ZeroEntry(i);
    }
  }

  lemma NewTableSound(d: Disk, p: Pointers, t: nat, bitmap: seq<bool>)
    requires Sound(d, p) && p.indirect == 0 && t !in d.data && t != 0 && 0 !in d.data
    ensures var (e, q) := (Disk(bitmap, d.data[t := ZeroBlock()]), p.(indirect := t));
            Sound(e, q) && Owned(e, q) == Owned(d, p) + {t}
  {
    EmptyTable();
    OwnedKeys(d, p);
    hide NonZero, Entries, ZeroBlock;
  }

  lemma EntriesSet(table: Block, i: nat, blk: nat)
    requires i < PTRS_PER_BLOCK && 0 < blk <= 0xFFFF_FFFF
    ensures Entries(SetEntry(table, i, blk)) == Entries(table)[i := blk]
  {
    hide SetEntry, Entry;
    forall j | 0 <= j < PTRS_PER_BLOCK
      ensures Entries(SetEntry(table, i, blk))[j] == Entries(table)[i := blk][j]
    {
      SetEntryOk(table, i, blk, j);
    }
  }

  lemma EntrySound(d: Disk, p: Pointers, i: nat, blk: nat)
    requires Sound(d, p) && p.indirect != 0 && p.indirect in d.data && i < PTRS_PER_BLOCK
    requires 0 < blk <= 0xFFFF_FFFF && blk in d.data && blk !in Owned(d, p)
    ensures var e := Disk(d.bitmap, d.data[p.indirect := SetEntry(d.data[p.indirect], i, blk)]);
            Sound(e, p) && Owned(e, p) <= Owned(d, p) + {blk}
  {
    var entries := Entries(d.data[p.indirect]);
    assert NonZero(entries) <= Owned(d, p) && p.indirect in Owned(d, p) && NonZero(p.direct) <= Owned(d, p);
    EntriesSet(d.data[p.indirect], i, blk);
    NonZeroSet(entries, i, blk);
    DifferentSet(entries, i, blk);
    hide NonZero, Entries, SetEntry;
  }

  // ------------------------------------------------------------- one sector

  // The block is taken and not stored, and so is the next free one.
  ghost predicate Fresh(d: Disk, blk: nat) {
    && blk !in d.data && 0 < blk <= 0xFFFF_FFFF && 0 !in d.data
    && var t := LowestFree(d.bitmap);
       t.Some? ==> t.value !in d.data && t.value != blk && 0 < t.value
  }

  lemma PlaceTakesNew(d: Disk, p: Pointers, k: nat, blk: nat, chunk: Block)
    requires Sound(d, p) && Fresh(d, blk)
    ensures var (e, q) := Place(d, p, k, blk, chunk);
            && TookNew(d, p, e, q)
            && e.data.Keys <= d.data.Keys + {blk} + FreeIn(d.bitmap)
  {
    OwnedKeys(d, p);
    StoredSound(d, p, blk, chunk);
    var stored := Disk(d.bitmap, d.data[blk := chunk]);
    if k < DIRECT_BLOCKS {
      hide Sound, Owned, LowestFree;
      DirectSound(stored, p, k, blk);
    } else if k < REACHABLE_BLOCKS {
      TableTakesNew(d, p, k, blk, chunk);
    }
    hide Sound, Owned, LowestFree, SetEntry;
  }

  lemma TableTakesNew(d: Disk, p: Pointers, k: nat, blk: nat, chunk: Block)
    requires Sound(d, p) && Fresh(d, blk) && DIRECT_BLOCKS <= k < REACHABLE_BLOCKS
    ensures var (e, q) := Place(d, p, k, blk, chunk);
            && TookNew(d, p, e, q)
            && e.data.Keys <= d.data.Keys + {blk} + FreeIn(d.bitmap)
  {
    hide Sound, Owned, LowestFree, SetEntry, ZeroBlock;
    OwnedKeys(d, p);
    StoredSound(d, p, blk, chunk);
    TableIsStored(d, p);
    var stored := Disk(d.bitmap, d.data[blk := chunk]);
    var t := LowestFree(d.bitmap);
    if p.indirect != 0 {
      EntrySound(stored, p, k - DIRECT_BLOCKS, blk);
    } else if t.Some? {
      NewTableTakesNew(stored, p, t.value, k - DIRECT_BLOCKS, blk);
    }
  }

  lemma NewTableTakesNew(d: Disk, p: Pointers, t: nat, i: nat, blk: nat)
    requires Sound(d, p) && p.indirect == 0 && t !in d.data && t != 0 && 0 !in d.data && i < PTRS_PER_BLOCK
    requires 0 < blk <= 0xFFFF_FFFF && blk in d.data && blk !in Owned(d, p) && t < |d.bitmap|
    ensures var (e, q) := (Disk(d.bitmap[t := true], d.data[t := ZeroBlock()]), p.(indirect := t));
            var f := Disk(e.bitmap, e.data[t := SetEntry(e.data[t], i, blk)]);
            && Sound(f, q) && Owned(f, q) <= Owned(d, p) + {t, blk} && f.data.Keys == d.data.Keys + {t}
            && forall b :: b in d.data ==> f.data[b] == d.data[b]
  {
    hide Sound, Owned, SetEntry, ZeroBlock;
    NewTableSound(d, p, t, d.bitmap[t := true]);
    var (e, q) := (Disk(d.bitmap[t := true], d.data[t := ZeroBlock()]), p.(indirect := t));
    EntrySound(e, q, i, blk);
  }

  lemma TableIsStored(d: Disk, p: Pointers)
    requires Sound(d, p)
    ensures p.indirect != 0 ==> p.indirect in d.data && p.indirect in Owned(d, p)
  {
  }

  // ------------------------------------------------------------- all sectors

  lemma StillFresh(d: Disk, rest: seq<nat>)
    requires SyncedBut(d, Elements(rest)) && rest != [] && rest[0] !in d.data && rest[0] <= 0xFFFF_FFFF
    ensures Fresh(d, rest[0]) && FreeIn(d.bitmap) !! Elements(rest)
  {
    assert rest[0] in Elements(rest);
    assert UsedIn(d.bitmap) !! FreeIn(d.bitmap);
    assert forall b :: b in d.data.Keys + Elements(rest) ==> b in UsedIn(d.bitmap) && b != 0;
    var t := LowestFree(d.bitmap);
    if t.Some? {
      assert t.value in FreeIn(d.bitmap) && 0 in UsedIn(d.bitmap);
    }
    hide LowestFree;
  }

  // No block from the k-th on is stored yet.
  ghost predicate Unstored(d: Disk, blocks: seq<nat>, k: nat) {
    forall j :: k <= j < |blocks| ==> blocks[j] !in d.data
  }

  lemma NextTakesNew(d0: Disk, p0: Pointers, blocks: seq<nat>, data: seq<byte>, k: nat)
    requires |p0.direct| == DIRECT_BLOCKS && k < |blocks| == BlocksFor(|data|) && Distinct(blocks)
    requires SyncedBut(d0, Elements(blocks)) && forall j :: 0 <= j < |blocks| ==> blocks[j] <= 0xFFFF_FFFF
    requires var (d, p) := PlaceAll(d0, p0, blocks, data, k); Sound(d, p) && Unstored(d, blocks, k)
    ensures var ((d, p), (e, q)) := (PlaceAll(d0, p0, blocks, data, k), PlaceAll(d0, p0, blocks, data, k + 1));
            TookNew(d, p, e, q) && Unstored(e, blocks, k + 1)
  {
    PlaceAllKeepsSync(d0, p0, blocks, data, k);
    var (d, p) := PlaceAll(d0, p0, blocks, data, k);
    var rest := blocks[k..];
    assert forall j :: k < j < |blocks| ==> blocks[j] == rest[j - k] && blocks[j] in Elements(rest);
    StillFresh(d, rest);
    hide Sound, Owned, Fresh, SyncedBut, Elements, Place, Chunk, FreeIn, TookNew;
    PlaceTakesNew(d, p, k, blocks[k], Chunk(data, k));
  }

  lemma {:induction false} PlaceAllTakesNew(d0: Disk, p0: Pointers, blocks: seq<nat>, data: seq<byte>, j: nat, k: nat)
    requires |p0.direct| == DIRECT_BLOCKS && j <= k <= |blocks| == BlocksFor(|data|) && Distinct(blocks)
    requires SyncedBut(d0, Elements(blocks)) && forall i :: 0 <= i < |blocks| ==> blocks[i] <= 0xFFFF_FFFF
    requires var (d, p) := PlaceAll(d0, p0, blocks, data, j); Sound(d, p) && Unstored(d, blocks, j)
    ensures var ((d, p), (e, q)) := (PlaceAll(d0, p0, blocks, data, j), PlaceAll(d0, p0, blocks, data, k));
            TookNew(d, p, e, q) && Unstored(e, blocks, k)
  {
    hide Sound, Owned, SyncedBut, Elements, Unstored, PlaceAll;
    var (d, p) := PlaceAll(d0, p0, blocks, data, j);
    if k == j {
      TookNothing(d, p);
    } else {
      PlaceAllTakesNew(d0, p0, blocks, data, j, k - 1);
      NextTakesNew(d0, p0, blocks, data, k - 1);
      var ((e, q), (f, r)) := (PlaceAll(d0, p0, blocks, data, k - 1), PlaceAll(d0, p0, blocks, data, k));
      TookMore(d, p, e, q, f, r);
    }
  }

  // Before anything is placed.
  lemma NothingPlaced(before: Disk, d0: Disk, p: Pointers, blocks: seq<nat>)
    requires InSync(before) && Sound(before, p) && Staged(before, d0, blocks)
    ensures Sound(d0, p) && Owned(d0, p) == Owned(before, p) && Unstored(d0, blocks, 0)
    ensures SyncedBut(d0, Elements(blocks)) && Distinct(blocks)
    ensures forall j :: 0 <= j < |blocks| ==> 0 < blocks[j] <= 0xFFFF_FFFF
  {
    StagedInSync(before, d0, blocks);
    StagedTaken(before, d0, blocks);
    SameFile(before, d0, p);
    hide InSync, Sound, Owned, SyncedBut, LowestFree;
  }

  // Any write leaves the file sound: it owns old sectors of its own and new ones,
  // and the sectors of other files are as they were.
  lemma WriteTakesNew(before: Disk, p: Pointers, data: seq<byte>, after: Disk, q: Pointers)
    requires InSync(before) && Sound(before, p) && Wrote(before, p, data, after, q)
    ensures InSync(after) && TookNew(before, p, after, q)
  {
    WroteInSync(before, p, data, after, q);
    var d0, blocks :| |blocks| == BlocksFor(|data|) && Staged(before, d0, blocks)
                      && (after, q) == PlaceAll(d0, p, blocks, data, |blocks|);
    NothingPlaced(before, d0, p, blocks);
    hide InSync, Sound, Owned, SyncedBut, Unstored;
    PlaceAllTakesNew(d0, p, blocks, data, 0, |blocks|);
  }

  // -------------------------------------------------------- what is left behind

  // Over a file with a first sector, that sector stays stored, and the file no
  // longer leads to it. Afterwards the file has a first sector.
  lemma OverwriteLoses(before: Disk, p: Pointers, data: seq<byte>, after: Disk, q: Pointers)
    requires InSync(before) && Sound(before, p) && Wrote(before, p, data, after, q) && data != []
    ensures |q.direct| == DIRECT_BLOCKS && q.direct[0] != 0
    ensures p.direct[0] != 0 ==> p.direct[0] in Owned(before, p) && p.direct[0] in before.data
    ensures p.direct[0] != 0 ==> p.direct[0] in after.data && p.direct[0] !in Owned(after, q)
  {
    var d0, blocks :| |blocks| == BlocksFor(|data|) && Staged(before, d0, blocks)
                      && (after, q) == PlaceAll(d0, p, blocks, data, |blocks|);
    NothingPlaced(before, d0, p, blocks);
    OwnedKeys(before, p);
    hide InSync, Owned, SyncedBut, Sound;
    FirstPlaced(d0, p, blocks, data);
    hide Unstored;
    PlaceAllTakesNew(d0, p, blocks, data, 0, 1);
    PlaceAllTakesNew(d0, p, blocks, data, 1, |blocks|);
    FirstStays(d0, p, blocks, data, |blocks|);
  }

  lemma FirstPlaced(d: Disk, p: Pointers, blocks: seq<nat>, data: seq<byte>)
    requires Sound(d, p) && 0 < |blocks| == BlocksFor(|data|) && blocks[0] !in d.data && blocks[0] != 0
    ensures var (e, q) := PlaceAll(d, p, blocks, data, 1);
            && q.direct[0] == blocks[0]
            && (p.direct[0] != 0 ==> p.direct[0] in Owned(d, p) && p.direct[0] in e.data && p.direct[0] !in Owned(e, q))
  {
    hide Chunk, Entries;
    assert PlaceAll(d, p, blocks, data, 0) == (d, p);
    assert PlaceAll(d, p, blocks, data, 1) == Place(d, p, 0, blocks[0], Chunk(data, 0));
    if p.direct[0] != 0 { assert p.direct[0] in NonZero(p.direct); }
  }

  lemma {:induction false} FirstStays(d: Disk, p: Pointers, blocks: seq<nat>, data: seq<byte>, k: nat)
    requires |p.direct| == DIRECT_BLOCKS && 0 < k <= |blocks| == BlocksFor(|data|)
    ensures PlaceAll(d, p, blocks, data, k).1.direct[0] == PlaceAll(d, p, blocks, data, 1).1.direct[0]
  {
    if k > 1 {
      FirstStays(d, p, blocks, data, k - 1);
      hide LowestFree, ZeroBlock, SetEntry, Chunk;
    }
  }

  // What a file is depends on the sectors and not on the bitmap.
  lemma SameFile(d: Disk, e: Disk, p: Pointers)
    requires e.data == d.data
    ensures Owned(e, p) == Owned(d, p) && (Sound(e, p) <==> Sound(d, p))
  {
    assert forall t :: TableBlocks(e, t) == TableBlocks(d, t);
    hide TableBlocks;
    assert AllTables(e, []) == AllTables(d, []);
    forall s: seq<nat> ensures AllTables(e, s) == AllTables(d, s) {
    }
  }
}
