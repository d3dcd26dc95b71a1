// Runs of writes and truncations over many files of one SPFS v2 engine
// (kernel/src/fs.rs).
module SpfsVolume {
  import opened Bytes
  import opened Blocks
  import opened Spfs
  import opened SpfsEngine
  import opened SpfsRewrite
  import opened Wrappers

  // A file's pointers and the bytes last written to it.
  datatype File = File(ptrs: Pointers, content: seq<byte>)

  datatype Volume = Volume(disk: Disk, files: seq<File>)

  datatype VolumeOp = WriteOp(i: nat, data: seq<byte>) | TruncateOp(i: nat)

  const EMPTY_FILE: File := File(NO_POINTERS, [])

  // There is something to write and room for it.
  predicate Stores(v: Volume, data: seq<byte>) {
    data != [] && BlocksFor(|data|) <= |FreeIn(v.disk.bitmap)|
  }

  // One operation, as Engine.WriteFile and Engine.Truncate specify it. A file may
  // be written over.
  ghost predicate Next(v: Volume, op: VolumeOp, w: Volume) {
    && op.i < |v.files|
    && match op
       case WriteOp(i, data) =>
         if !Stores(v, data) then w == v
            else
              && |w.files| == |v.files|
              && w.files == v.files[i := File(w.files[i].ptrs, data)]
              && Wrote(v.disk, v.files[i].ptrs, data, w.disk, w.files[i].ptrs)
       case TruncateOp(i) =>
         w == Volume(Truncated(v.disk, v.files[i].ptrs), v.files[i := EMPTY_FILE])
  }

  // The write is refused, or it is to an empty file and there is a pointer for
  // every sector of it.
  predicate Careful(v: Volume, op: VolumeOp)
    requires op.i < |v.files|
  {
    op.WriteOp? && Stores(v, op.data) ==>
      v.files[op.i].ptrs == NO_POINTERS && Fits(|op.data|, |FreeIn(v.disk.bitmap)|)
  }

  // Every sector has at most one owner, and within a file at most one pointer; a
  // file with any pointer has the first one.
  ghost predicate Inv(v: Volume) {
    && InSync(v.disk)
    && (forall i :: 0 <= i < |v.files| ==> Started(v.files[i].ptrs))
    && (forall i :: 0 <= i < |v.files| ==> Sound(v.disk, v.files[i].ptrs))
    && (forall i, j :: 0 <= i < j < |v.files| ==>
         Owned(v.disk, v.files[i].ptrs) !! Owned(v.disk, v.files[j].ptrs))
  }

  predicate Started(p: Pointers) {
    |p.direct| == DIRECT_BLOCKS && (p == NO_POINTERS || p.direct[0] != 0)
  }

  // Every sector has an owner, and every file reads as what was written.
  ghost predicate Faithful(v: Volume) {
    && (forall i :: 0 <= i < |v.files| ==> Reads(v.disk, v.files[i].ptrs, v.files[i].content))
    && forall b :: b in v.disk.data ==> HasOwner(v, b)
  }

  ghost predicate HasOwner(v: Volume, b: nat) {
    exists i :: 0 <= i < |v.files| && b in Owned(v.disk, v.files[i].ptrs)
  }

  // The other files after a step that changes none of their sectors.
  lemma OthersKept(v: Volume, op: VolumeOp, w: Volume, j: nat)
    requires Inv(v) && InSync(w.disk) && j < |v.files| && j < |w.files| && w.files[j] == v.files[j]
    requires forall b :: b in Owned(v.disk, v.files[j].ptrs) ==> b in w.disk.data && w.disk.data[b] == v.disk.data[b]
    ensures Sound(w.disk, w.files[j].ptrs) && Owned(w.disk, w.files[j].ptrs) == Owned(v.disk, v.files[j].ptrs)
    ensures Reads(v.disk, v.files[j].ptrs, v.files[j].content) <==> Reads(w.disk, w.files[j].ptrs, w.files[j].content)
  {
    OthersUntouched(v.disk, w.disk, v.files[j].ptrs, v.files[j].content);
  }

  // All files but one are as they were.
  ghost predicate Kept(v: Volume, w: Volume, i: nat) {
    && |w.files| == |v.files|
    && forall j :: 0 <= j < |v.files| && j != i ==>
         && w.files[j] == v.files[j]
         && Sound(w.disk, w.files[j].ptrs) && Owned(w.disk, w.files[j].ptrs) == Owned(v.disk, v.files[j].ptrs)
         && (Reads(v.disk, v.files[j].ptrs, v.files[j].content) ==> Reads(w.disk, w.files[j].ptrs, w.files[j].content))
  }

  lemma OwnerKept(v: Volume, w: Volume, i: nat, b: nat)
    requires Kept(v, w, i) && HasOwner(v, b) && i < |v.files| && b !in Owned(v.disk, v.files[i].ptrs)
    ensures HasOwner(w, b)
  {
    hide Owned, Sound, Reads;
    var k :| 0 <= k < |v.files| && b in Owned(v.disk, v.files[k].ptrs);
    assert b in Owned(w.disk, w.files[k].ptrs);
  }

  lemma WriteKeepsOthers(v: Volume, i: nat, data: seq<byte>, w: Volume)
    requires Inv(v) && Next(v, WriteOp(i, data), w) && Stores(v, data)
    ensures InSync(w.disk) && TookNew(v.disk, v.files[i].ptrs, w.disk, w.files[i].ptrs)
    ensures Kept(v, w, i)
  {
    hide Wrote, Sound, Owned, Reads, InSync, Fits;
    WriteTakesNew(v.disk, v.files[i].ptrs, data, w.disk, w.files[i].ptrs);
    forall j | 0 <= j < |v.files| && j != i
      ensures Sound(w.disk, w.files[j].ptrs) && Owned(w.disk, w.files[j].ptrs) == Owned(v.disk, v.files[j].ptrs)
      ensures Reads(v.disk, v.files[j].ptrs, v.files[j].content) <==> Reads(w.disk, w.files[j].ptrs, w.files[j].content)
    {
      SoundOwned(v.disk, v.files[j].ptrs);
      OthersKept(v, WriteOp(i, data), w, j);
    }
  }

  lemma WriteKeeps(v: Volume, i: nat, data: seq<byte>, w: Volume)
    requires Inv(v) && Next(v, WriteOp(i, data), w) && Stores(v, data)
    ensures Inv(w)
  {
    hide Wrote, Sound, Owned, Reads, InSync, Fits;
    WriteKeepsOthers(v, i, data, w);
    OverwriteLoses(v.disk, v.files[i].ptrs, data, w.disk, w.files[i].ptrs);
    forall j | 0 <= j < |v.files| ensures Owned(v.disk, v.files[j].ptrs) <= v.disk.data.Keys {
      SoundOwned(v.disk, v.files[j].ptrs);
    }
  }

  lemma WriteKeepsFaith(v: Volume, i: nat, data: seq<byte>, w: Volume)
    requires Inv(v) && Next(v, WriteOp(i, data), w) && Stores(v, data)
    requires v.files[i].ptrs == NO_POINTERS && Fits(|data|, |FreeIn(v.disk.bitmap)|) && Faithful(v)
    ensures Faithful(w)
  {
    WriteKeepsOthers(v, i, data, w);
    WriteMeans(v.disk, data, w.disk, w.files[i].ptrs);
    EmptyOwnsNothing(v.disk);
    hide Wrote, Sound, Owned, Reads, InSync, Fits, Inv;
    NewAreOwned(v, i, w);
    hide HasOwner, Stores;
  }

  // Nothing was lost where every new sector belongs to the file that was empty.
  lemma NewAreOwned(v: Volume, i: nat, w: Volume)
    requires Kept(v, w, i) && i < |v.files| && Owned(v.disk, v.files[i].ptrs) == {}
    requires w.disk.data.Keys == v.disk.data.Keys + Owned(w.disk, w.files[i].ptrs)
    requires forall b :: b in v.disk.data ==> HasOwner(v, b)
    ensures forall b :: b in w.disk.data ==> HasOwner(w, b)
  {
    hide Sound, Owned, Reads;
    forall b | b in w.disk.data
      ensures HasOwner(w, b)
    {
      if b in v.disk.data {
        OwnerKept(v, w, i, b);
      } else {
        assert b in Owned(w.disk, w.files[i].ptrs);
      }
    }
  }

  lemma SoundOwned(d: Disk, p: Pointers)
    requires Sound(d, p)
    ensures Owned(d, p) <= d.data.Keys
  {
  }

  lemma EmptyOwnsNothing(d: Disk)
    ensures Owned(d, NO_POINTERS) == {} && Sound(d, NO_POINTERS) && Reads(d, NO_POINTERS, [])
  {
  }

  lemma TruncateReleases(v: Volume, i: nat, w: Volume)
    requires Inv(v) && Next(v, TruncateOp(i), w)
    ensures InSync(w.disk) && w.disk.data == v.disk.data - Owned(v.disk, v.files[i].ptrs)
    ensures Kept(v, w, i)
  {
    hide Truncated, Sound, Owned, Reads, InSync;
    ReleasedIs(v.disk, v.files[i].ptrs);
    forall j | 0 <= j < |v.files| && j != i
      ensures Sound(w.disk, w.files[j].ptrs) && Owned(w.disk, w.files[j].ptrs) == Owned(v.disk, v.files[j].ptrs)
      ensures Reads(v.disk, v.files[j].ptrs, v.files[j].content) <==> Reads(w.disk, w.files[j].ptrs, w.files[j].content)
    {
      SoundOwned(v.disk, v.files[j].ptrs);
      OthersKept(v, TruncateOp(i), w, j);
    }
  }

  lemma ReleasedIs(d: Disk, p: Pointers)
    requires InSync(d) && Sound(d, p)
    ensures InSync(Truncated(d, p)) && Truncated(d, p).data == d.data - Owned(d, p)
  {
    hide Truncated, Sound, Owned;
    TruncatesOwned(d, p);
    SoundOwned(d, p);
    ReleasedInSync(d, Owned(d, p));
  }

  lemma TruncateKeeps(v: Volume, i: nat, w: Volume)
    requires Inv(v) && Next(v, TruncateOp(i), w)
    ensures Inv(w)
  {
    TruncateReleases(v, i, w);
    EmptyOwnsNothing(w.disk);
    hide Truncated, Sound, Owned, Reads, InSync, Released;
  }

  lemma TruncateKeepsOwners(v: Volume, i: nat, w: Volume)
    requires Inv(v) && Next(v, TruncateOp(i), w) && forall b :: b in v.disk.data ==> HasOwner(v, b)
    ensures forall b :: b in w.disk.data ==> HasOwner(w, b)
  {
    TruncateReleases(v, i, w);
    hide *;
    forall b | b in w.disk.data
      ensures HasOwner(w, b)
    {
      assert HasOwner(v, b) && b !in Owned(v.disk, v.files[i].ptrs);
      OwnerKept(v, w, i, b);
    }
  }

  lemma TruncateKeepsFaith(v: Volume, i: nat, w: Volume)
    requires Inv(v) && Next(v, TruncateOp(i), w) && Faithful(v)
    ensures Faithful(w)
  {
    TruncateKeepsOwners(v, i, w);
    TruncateReleases(v, i, w);
    EmptyOwnsNothing(w.disk);
    assert w.files[i] == EMPTY_FILE && i < |v.files|;
    hide Truncated, Sound, Owned, Reads, InSync, Released, HasOwner, Inv, Next;
  }

  lemma StepKeeps(v: Volume, op: VolumeOp, w: Volume)
    requires Inv(v) && Next(v, op, w)
    ensures Inv(w)
    ensures op.i < |v.files| && (Careful(v, op) && Faithful(v) ==> Faithful(w))
    ensures |w.disk.bitmap| == |v.disk.bitmap| && |w.files| == |v.files|
  {
    match op {
      case WriteOp(i, data) =>
        if Stores(v, data) {
          WriteKeeps(v, i, data, w);
          if Careful(v, op) && Faithful(v) { WriteKeepsFaith(v, i, data, w); }
          WroteSameSize(v.disk, v.files[i].ptrs, data, w.disk, w.files[i].ptrs);
        }
      case TruncateOp(i) =>
        TruncateKeeps(v, i, w);
        if Faithful(v) { TruncateKeepsFaith(v, i, w); }
        TruncatesOwned(v.disk, v.files[i].ptrs);
    }
  }

  // ------------------------------------------------------------- lost sectors

  // A stored sector that no file leads to.
  ghost predicate Stranded(v: Volume, b: nat) {
    b in v.disk.data && !HasOwner(v, b)
  }

  lemma OverwriteStrands(v: Volume, i: nat, data: seq<byte>, w: Volume)
    requires Inv(v) && Next(v, WriteOp(i, data), w) && Stores(v, data) && v.files[i].ptrs != NO_POINTERS
    ensures Stranded(w, v.files[i].ptrs.direct[0])
  {
    WriteKeepsOthers(v, i, data, w);
    var b := v.files[i].ptrs.direct[0];
    assert Started(v.files[i].ptrs);
    OverwriteLoses(v.disk, v.files[i].ptrs, data, w.disk, w.files[i].ptrs);
    hide Wrote, Sound, Owned, Reads, InSync, Fits, Started;
    forall j | 0 <= j < |w.files| ensures b !in Owned(w.disk, w.files[j].ptrs) {
      if j < i { assert Owned(v.disk, v.files[j].ptrs) !! Owned(v.disk, v.files[i].ptrs); }
      if j > i { assert Owned(v.disk, v.files[i].ptrs) !! Owned(v.disk, v.files[j].ptrs); }
    }
  }

  lemma OutgrownStrands(v: Volume, i: nat, data: seq<byte>, w: Volume) returns (b: nat)
    requires Inv(v) && Next(v, WriteOp(i, data), w) && Stores(v, data) && v.files[i].ptrs == NO_POINTERS
    requires !Fits(|data|, |FreeIn(v.disk.bitmap)|)
    ensures Stranded(w, b)
  {
    WriteKeepsOthers(v, i, data, w);
    WriteMeans(v.disk, data, w.disk, w.files[i].ptrs);
    hide Wrote, Owned, Reads, InSync, Fits;
    b :| b in w.disk.data && b !in v.disk.data && b !in Owned(w.disk, w.files[i].ptrs);
    forall j | 0 <= j < |w.files| ensures b !in Owned(w.disk, w.files[j].ptrs) {
      if j != i { SoundOwned(v.disk, v.files[j].ptrs); }
    }
  }

  // A step that is not careful loses a sector.
  lemma StepStrands(v: Volume, op: VolumeOp, w: Volume) returns (b: nat)
    requires Inv(v) && Next(v, op, w) && op.i < |v.files| && !Careful(v, op)
    ensures Stranded(w, b)
  {
    assert Started(v.files[op.i].ptrs);
    hide Inv, Next, Fits, Stranded;
    if v.files[op.i].ptrs == NO_POINTERS {
      b := OutgrownStrands(v, op.i, op.data, w);
    } else {
      b := v.files[op.i].ptrs.direct[0];
      OverwriteStrands(v, op.i, op.data, w);
    }
  }

  // A lost sector is never found again.
  lemma StrandedStays(v: Volume, op: VolumeOp, w: Volume, b: nat)
    requires Inv(v) && Next(v, op, w) && Stranded(v, b)
    ensures Stranded(w, b)
  {
    match op {
      case WriteOp(i, data) => if Stores(v, data) { WriteKeepsOthers(v, i, data, w); }
      case TruncateOp(i) => TruncateReleases(v, i, w); EmptyOwnsNothing(w.disk);
    }
    hide Wrote, Truncated, Sound, Owned, Reads, InSync, Stores, Inv;
    forall j | 0 <= j < |w.files| ensures b !in Owned(w.disk, w.files[j].ptrs) {
      assert b !in Owned(v.disk, v.files[j].ptrs);
    }
  }

  ghost predicate IsRun(ops: seq<VolumeOp>, states: seq<Volume>) {
    && |states| == |ops| + 1
    && forall k :: 0 <= k < |ops| ==> Next(states[k], ops[k], states[k + 1])
  }

  ghost predicate CarefulRun(ops: seq<VolumeOp>, states: seq<Volume>) {
    |states| == |ops| + 1 && forall k :: 0 <= k < |ops| ==> ops[k].i < |states[k].files| && Careful(states[k], ops[k])
  }

  // Whatever is written, over whatever file, and truncated: in every state of a
  // run no sector has two owners; if every write was to an empty file and did not
  // outgrow its pointers, every sector is owned and every file reads as what was
  // written to it.
  lemma {:induction false} RunKeeps(ops: seq<VolumeOp>, states: seq<Volume>, k: nat)
    requires IsRun(ops, states) && Inv(states[0]) && k < |states|
    ensures Inv(states[k]) && |states[k].disk.bitmap| == |states[0].disk.bitmap|
    ensures CarefulRun(ops, states) && Faithful(states[0]) ==> Faithful(states[k])
  {
    if k > 0 {
      RunKeeps(ops, states, k - 1);
      assert Next(states[k - 1], ops[k - 1], states[k]);
      hide Next, Inv, Faithful, Careful;
      StepKeeps(states[k - 1], ops[k - 1], states[k]);
    }
  }

  lemma {:induction false} StrandedForever(ops: seq<VolumeOp>, states: seq<Volume>, j: nat, k: nat, b: nat)
    requires IsRun(ops, states) && Inv(states[0]) && j <= k < |states| && Stranded(states[j], b)
    ensures Stranded(states[k], b)
  {
    hide *;
    RunLength(ops, states);
    if j < k {
      StrandedForever(ops, states, j, k - 1, b);
      RunKeeps(ops, states, k - 1);
      RunStep(ops, states, k - 1);
      StrandedStays(states[k - 1], ops[k - 1], states[k], b);
    }
  }

  lemma RunLength(ops: seq<VolumeOp>, states: seq<Volume>)
    requires IsRun(ops, states)
    ensures |states| == |ops| + 1
  {
    hide Next;
  }

  lemma RunStep(ops: seq<VolumeOp>, states: seq<Volume>, k: nat)
    requires IsRun(ops, states) && k < |ops|
    ensures |states| == |ops| + 1 && Next(states[k], ops[k], states[k + 1]) && ops[k].i < |states[k].files|
  {
    assert Next(states[k], ops[k], states[k + 1]);
    hide Wrote, Truncated, Stores;
  }

  lemma CarelessStep(ops: seq<VolumeOp>, states: seq<Volume>) returns (k: nat)
    requires IsRun(ops, states) && !CarefulRun(ops, states)
    ensures k < |ops| && |states| == |ops| + 1 && ops[k].i < |states[k].files| && !Careful(states[k], ops[k])
  {
    hide Next, Careful;
    k :| k < |ops| && (ops[k].i < |states[k].files| ==> !Careful(states[k], ops[k]));
    RunStep(ops, states, k);
  }

  // A run that was careless once ends with a lost sector.
  lemma CarelessRun(ops: seq<VolumeOp>, states: seq<Volume>) returns (b: nat)
    requires IsRun(ops, states) && Inv(states[0]) && !CarefulRun(ops, states)
    ensures Stranded(states[|ops|], b)
  {
    hide *;
    RunLength(ops, states);
    var k := CarelessStep(ops, states);
    RunStep(ops, states, k);
    RunKeeps(ops, states, k);
    b := StepStrands(states[k], ops[k], states[k + 1]);
    StrandedForever(ops, states, k + 1, |ops|, b);
  }

  // At the end of a run every sector is owned and every file reads as what was
  // last written to it, exactly if every write that was not refused went to an
  // empty file and did not outgrow its pointers.
  lemma RunFaithful(ops: seq<VolumeOp>, states: seq<Volume>)
    requires IsRun(ops, states) && Inv(states[0]) && Faithful(states[0])
    ensures Faithful(states[|ops|]) <==> CarefulRun(ops, states)
  {
    RunKeeps(ops, states, |ops|);
    hide Next, Inv, CarefulRun;
    if !CarefulRun(ops, states) {
      var b := CarelessRun(ops, states);
    }
  }

  // When all files have been truncated the disk is the one the run began with,
  // bitmap, free count and sectors, exactly if the run was careful.
  lemma RunRestores(ops: seq<VolumeOp>, states: seq<Volume>)
    requires IsRun(ops, states) && Inv(states[0]) && Faithful(states[0])
    requires forall f :: f in states[0].files ==> f == EMPTY_FILE
    requires forall f :: f in states[|ops|].files ==> f == EMPTY_FILE
    ensures states[|ops|].disk == states[0].disk <==> CarefulRun(ops, states)
  {
    RunKeeps(ops, states, |ops|);
    RunFaithful(ops, states);
    NothingStored(states[0]);
    if CarefulRun(ops, states) {
      NothingStored(states[|ops|]);
      SyncedBitmap(states[|ops|].disk, states[0].disk);
    } else {
      var b := CarelessRun(ops, states);
    }
  }

  lemma NothingStored(v: Volume)
    requires Inv(v) && Faithful(v) && forall f :: f in v.files ==> f == EMPTY_FILE
    ensures v.disk.data == map[]
  {
    EmptyOwnsNothing(v.disk);
    hide Owned, Sound, Reads, InSync;
    if d :| d in v.disk.data {
      assert HasOwner(v, d);
      var k :| 0 <= k < |v.files| && d in Owned(v.disk, v.files[k].ptrs);
      assert v.files[k] in v.files;
    }
  }

  // ------------------------------------------------------------- the engine

  // The engine and its inodes hold the volume.
  ghost predicate IsVolume(engine: Engine, inodes: seq<InodeV2>, v: Volume)
    reads engine, engine.allocator, inodes
  {
    && engine.Valid() && v.disk == engine.Image() && |v.files| == |inodes|
    && (forall i :: 0 <= i < |inodes| ==> v.files[i].ptrs == inodes[i].Ptrs() && |inodes[i].direct| == DIRECT_BLOCKS)
    && forall i, j :: 0 <= i < j < |inodes| ==> inodes[i] != inodes[j]
  }

  // The engine takes the step of the volume.
  method Serve(engine: Engine, inodes: seq<InodeV2>, op: VolumeOp, ghost v: Volume) returns (ghost w: Volume)
    requires IsVolume(engine, inodes, v) && op.i < |inodes|
    modifies engine, engine.allocator, inodes
    ensures IsVolume(engine, inodes, w) && Next(v, op, w)
  {
    hide InSync, Wrote, Truncated;
    var inode := inodes[op.i];
    match op
    case WriteOp(i, data) =>
      var r := engine.WriteFile(inode, data);
      w := if r.Err? || data == [] then v
           else Volume(engine.Image(), v.files[i := File(inode.Ptrs(), data)]);
    case TruncateOp(i) =>
      engine.Truncate(inode);
      w := Volume(engine.Image(), v.files[i := EMPTY_FILE]);
  }

  // What the engine does with a list of requests is a run, so all that is proved
  // of runs holds of it.
  method ServeAll(engine: Engine, inodes: seq<InodeV2>, ops: seq<VolumeOp>, ghost v: Volume)
    returns (ghost states: seq<Volume>)
    requires IsVolume(engine, inodes, v) && Inv(v) && forall op :: op in ops ==> op.i < |inodes|
    modifies engine, engine.allocator, inodes
    ensures IsRun(ops, states) && states[0] == v && IsVolume(engine, inodes, states[|ops|])
    ensures Inv(states[|ops|]) && (Faithful(v) ==> (Faithful(states[|ops|]) <==> CarefulRun(ops, states)))
  {
    hide IsVolume, Next, Inv, Faithful, Careful;
    states := [v];
    assert ops[..0] == [];
    for i := 0 to |ops|
      invariant IsRun(ops[..i], states) && states[0] == v && IsVolume(engine, inodes, states[i])
    {
      assert ops[i] in ops;
      ghost var w := Serve(engine, inodes, ops[i], states[i]);
      OneMoreStep(ops[..i], states, ops[i], w);
      assert ops[..i + 1] == ops[..i] + [ops[i]];
      states := states + [w];
    }
    assert ops[..|ops|] == ops;
    RunKeeps(ops, states, |ops|);
    if Faithful(v) { RunFaithful(ops, states); }
  }

  lemma OneMoreStep(ops: seq<VolumeOp>, states: seq<Volume>, op: VolumeOp, w: Volume)
    requires IsRun(ops, states) && Next(states[|ops|], op, w)
    ensures IsRun(ops + [op], states + [w])
  {
    hide Next;
    var more := ops + [op];
    forall k | 0 <= k < |more| ensures Next((states + [w])[k], more[k], (states + [w])[k + 1]) {
      if k < |ops| { assert Next(states[k], ops[k], states[k + 1]); }
    }
  }

  // A fresh engine with empty inodes is where runs begin.
  lemma FreshVolume(bitmap: seq<bool>, n: nat)
    requires |bitmap| <= 0xFFFF_FFFF && forall b :: 0 <= b < |bitmap| ==> bitmap[b] == (b == 0)
    ensures var v := Volume(Disk(bitmap, map[]), seq(n, _ => EMPTY_FILE)); Inv(v) && Faithful(v)
  {
    EmptyOwnsNothing(Disk(bitmap, map[]));
  }
}
