// The SPFS write-ahead journal: logging, commit, recovery, and its sector
// (kernel/src/fs.rs).
module Journal {
  import opened Wrappers
  import opened Bytes
  import opened Blocks

  datatype OpType = AllocBlock | FreeBlock | WriteInode | Commit

  datatype Record = Record(op: OpType, inode: u32, block: u32, sequence: u64)

  // ---------------------------------------------------------------- recovery

  // The blocks of the allocation records that were never committed, in order.
  function Uncommitted(records: seq<Record>, committed: u64): seq<nat> {
    if records == [] then []
    else
      var last := records[|records| - 1];
      var rest := Uncommitted(records[..|records| - 1], committed);
      if last.sequence > committed && last.op.AllocBlock? then rest + [last.block] else rest
  }

  function Committed(records: seq<Record>, committed: u64): (kept: seq<Record>)
    ensures forall r :: r in kept ==> r.sequence <= committed
  {
    if records == [] then []
    else
      var last := records[|records| - 1];
      var rest := Committed(records[..|records| - 1], committed);
      if last.sequence <= committed then rest + [last] else rest
  }

  lemma {:induction false} CommittedIsAll(records: seq<Record>, committed: u64)
    requires forall r :: r in records ==> r.sequence <= committed
    ensures Committed(records, committed) == records && Uncommitted(records, committed) == []
  {
    if records != [] {
      CommittedIsAll(records[..|records| - 1], committed);
      assert records == records[..|records| - 1] + [records[|records| - 1]];
    }
  }

  // Recovering twice is recovering once: nothing uncommitted is left.
  lemma RecoverTwice(records: seq<Record>, committed: u64)
    ensures Committed(Committed(records, committed), committed) == Committed(records, committed)
    ensures Uncommitted(Committed(records, committed), committed) == []
  {
    CommittedIsAll(Committed(records, committed), committed);
  }

  class SpfsJournal {
    var records: seq<Record>
    var nextSequence: u64
    var committedSequence: u64

    constructor ()
      ensures records == [] && nextSequence == 1 && committedSequence == 0
    {
      records, nextSequence, committedSequence := [], 1, 0;
    }

    // Appends a record under the next sequence number.
    method Log(op: OpType, inode: u32, block: u32) returns (seqNo: u64)
      requires nextSequence < 0xFFFF_FFFF_FFFF_FFFF
      modifies this`records, this`nextSequence
      ensures seqNo == old(nextSequence) && nextSequence == seqNo + 1
      ensures records == old(records) + [Record(op, inode, block, seqNo)]
    {
      seqNo := nextSequence;
      nextSequence := nextSequence + 1;
      records := records + [Record(op, inode, block, seqNo)];
    }

    // Committing an old sequence number changes nothing.
    method CommitUpTo(seqNo: u64)
      modifies this`records, this`committedSequence
      ensures committedSequence == if seqNo > old(committedSequence) then seqNo else old(committedSequence)
      ensures records == old(records) + if seqNo > old(committedSequence) then [Record(Commit, 0, 0, seqNo)] else []
    {
      if seqNo > committedSequence {
        committedSequence := seqNo;
        records := records + [Record(Commit, 0, 0, seqNo)];
      }
    }

    // Frees every block that was allocated without being committed and forgets
    // the records of it.
    method Recover(allocator: BlockAllocator) returns (rolledBack: nat)
      requires allocator.Valid()
      modifies this`records, allocator
      ensures allocator.Valid()
      ensures allocator.bitmap == Cleared(old(allocator.bitmap), Elements(Uncommitted(old(records), committedSequence)))
      ensures records == Committed(old(records), committedSequence)
      ensures rolledBack == |Uncommitted(old(records), committedSequence)|
    {
      var pending: seq<nat> := [];
      var kept: seq<Record> := [];
      for i := 0 to |records|
        invariant pending == Uncommitted(records[..i], committedSequence)
        invariant kept == Committed(records[..i], committedSequence)
      {
        assert records[..i + 1][..i] == records[..i];
        if records[i].sequence > committedSequence {
          if records[i].op == AllocBlock {
            pending := pending + [records[i].block];
          }
        } else {
          kept := kept + [records[i]];
        }
      }
      assert records[..|records|] == records;
      rolledBack := FreeAll(allocator, pending);
      records := kept;
    }
  }

  // Frees these blocks one after the other.
  method FreeAll(allocator: BlockAllocator, blocks: seq<nat>) returns (count: nat)
    requires allocator.Valid()
    modifies allocator
    ensures allocator.Valid() && count == |blocks|
    ensures allocator.bitmap == Cleared(old(allocator.bitmap), Elements(blocks))
  {
    ghost var before := allocator.bitmap;
    count := 0;
    assert before == Cleared(before, Elements(blocks[..0]));
    hide Cleared;
    for i := 0 to |blocks|
      invariant allocator.Valid() && count == i
      invariant allocator.bitmap == Cleared(before, Elements(blocks[..i]))
    {
      allocator.FreeBlock(blocks[i]);
      ClearedTwice(before, Elements(blocks[..i]), {blocks[i]});
      assert Elements(blocks[..i + 1]) == Elements(blocks[..i]) + {blocks[i]};
      count := count + 1;
    }
    assert blocks[..|blocks|] == blocks;
  }

  // ------------------------------------------------------- a crash and after

  // What happens between a commit and a crash: blocks are allocated, or freed.
  datatype Work = Alloc(inode: u32) | Free(inode: u32, block: u32)

  // The blocks that the work frees.
  function FreedBy(work: seq<Work>): set<nat> {
    set w | w in work && w.Free? :: w.block
  }

  // Blocks in use since the commit, those allocated, those freed.
  ghost predicate Tracked(bitmap0: seq<bool>, bitmap: seq<bool>, taken: set<nat>, freed: set<nat>) {
    && |bitmap| == |bitmap0|
    && UsedIn(bitmap) <= UsedIn(bitmap0) + taken
    && (forall x :: x in UsedIn(bitmap0) && x !in freed ==> x in UsedIn(bitmap) && x !in taken)
    && (forall x :: x in UsedIn(bitmap0) && x in freed && x in UsedIn(bitmap) ==> x in taken)
  }

  lemma TrackedAlloc(bitmap0: seq<bool>, bitmap: seq<bool>, taken: set<nat>, freed: set<nat>, b: nat)
    requires Tracked(bitmap0, bitmap, taken, freed) && b < |bitmap| && !bitmap[b]
    ensures Tracked(bitmap0, bitmap[b := true], taken + {b}, freed)
  {
    SetOneUsed(bitmap, b);
    assert b !in UsedIn(bitmap);
  }

  lemma TrackedFree(bitmap0: seq<bool>, bitmap: seq<bool>, taken: set<nat>, freed: set<nat>, b: nat)
    requires Tracked(bitmap0, bitmap, taken, freed)
    ensures Tracked(bitmap0, Cleared(bitmap, {b}), taken, freed + {b})
  {
    UsedAfterClear(bitmap, {b});
  }

  // Undoing the allocations restores the bitmap if no block in use was freed, and
  // only then.
  lemma TrackedRestores(bitmap0: seq<bool>, bitmap: seq<bool>, taken: set<nat>, freed: set<nat>)
    requires Tracked(bitmap0, bitmap, taken, freed)
    ensures Cleared(bitmap, taken) == bitmap0 <==> freed !! UsedIn(bitmap0)
  {
    UsedAfterClear(bitmap, taken);
    if freed !! UsedIn(bitmap0) {
      assert UsedIn(Cleared(bitmap, taken)) == UsedIn(bitmap0);
      SameUsedSameBitmap(Cleared(bitmap, taken), bitmap0);
    } else {
      var x :| x in freed && x in UsedIn(bitmap0);
      assert x !in UsedIn(Cleared(bitmap, taken));
    }
  }

  // After a commit of everything logged, blocks are allocated and freed, each step
  // followed by its record; then the machine crashes and recovers. The journal is
  // as it was at the commit. The allocator is as it was at the commit exactly when
  // no block that was in use then has been freed since.
  method CrashAndRecover(journal: SpfsJournal, allocator: BlockAllocator, work: seq<Work>) returns (rolledBack: nat)
    requires allocator.Valid() && allocator.totalBlocks < 0x1_0000_0000
    requires journal.nextSequence + |work| <= 0xFFFF_FFFF_FFFF_FFFF
    requires journal.committedSequence < journal.nextSequence
    requires forall r :: r in journal.records ==> r.sequence <= journal.committedSequence
    modifies journal, allocator
    ensures allocator.Valid()
    ensures journal.records == old(journal.records) && journal.committedSequence == old(journal.committedSequence)
    ensures allocator.bitmap == old(allocator.bitmap) <==> FreedBy(work) !! UsedIn(old(allocator.bitmap))
    ensures FreedBy(work) !! UsedIn(old(allocator.bitmap)) ==> allocator.freeBlocks == old(allocator.freeBlocks)
  {
    ghost var bitmap0, records0, committed := allocator.bitmap, journal.records, journal.committedSequence;
    CommittedIsAll(records0, committed);
    hide Tracked, Committed, Uncommitted, UsedIn, FreeIn;
    for i := 0 to |work|
      invariant allocator.Valid()
      invariant journal.committedSequence == committed < journal.nextSequence <= old(journal.nextSequence) + i
      invariant Committed(journal.records, committed) == records0
      invariant Tracked(bitmap0, allocator.bitmap, Elements(Uncommitted(journal.records, committed)),
                        FreedBy(work[..i]))
    {
      FreedByNext(work, i);
      Do(journal, allocator, work[i], bitmap0, FreedBy(work[..i]));
    }
    assert work[..|work|] == work;
    TrackedRestores(bitmap0, allocator.bitmap, Elements(Uncommitted(journal.records, committed)), FreedBy(work));
    rolledBack := journal.Recover(allocator);
  }

  lemma FreedByNext(work: seq<Work>, i: nat)
    requires i < |work|
    ensures FreedBy(work[..i + 1]) == FreedBy(work[..i]) + if work[i].Free? then {work[i].block} else {}
  {
    assert work[..i + 1] == work[..i] + [work[i]];
  }

  // One piece of work, followed by its record.
  method Do(journal: SpfsJournal, allocator: BlockAllocator, w: Work, ghost bitmap0: seq<bool>, ghost freed: set<nat>)
    requires allocator.Valid() && allocator.totalBlocks < 0x1_0000_0000
    requires journal.committedSequence < journal.nextSequence < 0xFFFF_FFFF_FFFF_FFFF
    requires Tracked(bitmap0, allocator.bitmap, Elements(Uncommitted(journal.records, journal.committedSequence)),
                     freed)
    modifies journal`records, journal`nextSequence, allocator
    ensures allocator.Valid() && old(journal.nextSequence) <= journal.nextSequence <= old(journal.nextSequence) + 1
    ensures Committed(journal.records, journal.committedSequence)
         == Committed(old(journal.records), journal.committedSequence)
    ensures Tracked(bitmap0, allocator.bitmap, Elements(Uncommitted(journal.records, journal.committedSequence)),
                    freed + if w.Free? then {w.block} else {})
  {
    hide Tracked, Committed, Uncommitted, UsedIn, FreeIn;
    ghost var records, committed, bitmap := journal.records, journal.committedSequence, allocator.bitmap;
    ghost var taken := Elements(Uncommitted(records, committed));
    match w
    case Alloc(inode) =>
      assert freed + {} == freed;
      var found := allocator.AllocateBlock();
      if found.Some? {
        var logged := journal.Log(AllocBlock, inode, found.value);
        LoggedAlloc(records, committed, Record(AllocBlock, inode, found.value, logged));
        TrackedAlloc(bitmap0, bitmap, taken, freed, found.value);
      }
    case Free(inode, block) =>
      allocator.FreeBlock(block);
      var logged := journal.Log(FreeBlock, inode, block);
      LoggedAlloc(records, committed, Record(FreeBlock, inode, block, logged));
      assert taken + {} == taken;
      TrackedFree(bitmap0, bitmap, taken, freed, block);
  }

  // A block that was in use at the commit and has been freed since is lost: block
  // 1 of two is taken and committed, then freed before the crash, and recovery
  // does not take it again.
  method FreedSinceCommit() returns (committed: seq<bool>, recovered: seq<bool>)
    ensures committed == [true, true] && recovered != committed
  {
    var allocator := new BlockAllocator(2);
    var journal := new SpfsJournal();
    assert 1 in FreeIn(allocator.bitmap);
    var found := allocator.AllocateBlock();
    assert found == Some(1);
    var logged := journal.Log(AllocBlock, 0, 1);
    journal.CommitUpTo(logged);
    committed := allocator.bitmap;
    assert committed == [true, true] && 1 in UsedIn(committed);
    var work := [Free(0, 1)];
    assert work[0].block in FreedBy(work);
    forall r | r in journal.records ensures r.sequence <= journal.committedSequence {
    }
    var rolledBack := CrashAndRecover(journal, allocator, work);
    recovered := allocator.bitmap;
  }

  lemma LoggedAlloc(records: seq<Record>, committed: u64, r: Record)
    requires r.sequence > committed
    ensures Committed(records + [r], committed) == Committed(records, committed)
    ensures Elements(Uncommitted(records + [r], committed))
         == Elements(Uncommitted(records, committed)) + (if r.op.AllocBlock? then {r.block} else {})
  {
    assert (records + [r])[..|records|] == records;
  }
}
