// Storing the file tree on the data drive and loading it again
// (kernel/src/fs.rs).
module FsDisk {
  import opened Wrappers
  import opened Bytes
  import opened FsImage
  import FF = FsFormat
  import Spfs
  import Journal
  import Wal

  type Sector = Spfs.Block

  const MAX_IMAGE: nat := 10 * 1024 * 1024
  const TAG: seq<byte> := [83, 80, 70, 83]

  // A drive of a fixed number of sectors; access beyond them fails, and a drive
  // that is absent has none.
  class Drive {
    var sectors: seq<Sector>

    method WriteSector(lba: nat, s: Sector) returns (ok: bool)
      modifies this
      ensures ok == (lba < |old(sectors)|)
      ensures sectors == if ok then old(sectors)[lba := s] else old(sectors)
    {
      ok := lba < |sectors|;
      if ok { sectors := sectors[lba := s]; }
    }

    method ReadSector(lba: nat) returns (r: Option<Sector>)
      ensures r == if lba < |sectors| then Some(sectors[lba]) else None
    {
      r := if lba < |sectors| then Some(sectors[lba]) else None;
    }
  }

  // ----------------------------------------------------- writing and parsing

  method AppendField(bytes: seq<byte>, buf: seq<byte>) returns (out: seq<byte>)
    ensures out == buf + Field(bytes)
  {
    out := buf + Len(|bytes|);
    Regroup(buf, Len(|bytes|), bytes);
    out := out + bytes;
  }

  // Appends a node's image to the buffer.
  method AppendNode(node: FsNode, buf: seq<byte>) returns (out: seq<byte>)
    ensures out == buf + Serialize(node)
    decreases node
  {
    hide Field, Len, SerializeAll, CountKept;
    match node
    case File(name, content) =>
      out := AppendField(name, buf + [1]);
      Regroup(buf + [1], Field(name), Field(content));
      Regroup(buf, [1], Field(name) + Field(content));
      out := AppendField(content, out);
    case Device(name) =>
      out := AppendField(name, buf + [3]);
      Regroup(buf, [3], Field(name));
    case Directory(name, children) =>
      out := AppendField(name, buf + [2]);
      ghost var rest;
      if name == PROC || name == DEV {
        AllSkipped(name, children);
        rest := Len(0) + [];
        assert Len(0) + [] == Len(0);
        out := out + Len(0);
      } else {
        var count := CountChildren(name, children);
        rest := Len(count) + SerializeAll(name, children);
        Regroup(out, Len(count), SerializeAll(name, children));
        out := AppendChildren(name, children, out + Len(count));
      }
      Regroup(buf + [2], Field(name), rest);
      Regroup(buf, [2], Field(name) + rest);
  }

  lemma {:induction false} AllSkipped(parent: Name, children: seq<FsNode>)
    requires Synthetic(parent)
    ensures CountKept(parent, children) == 0 && SerializeAll(parent, children) == []
  {
    if children != [] { AllSkipped(parent, children[1..]); }
  }

  method CountChildren(parent: Name, children: seq<FsNode>) returns (count: nat)
    requires !Synthetic(parent)
    ensures count == CountKept(parent, children)
  {
    count := 0;
    for i := 0 to |children|
      invariant count + CountKept(parent, children[i..]) == CountKept(parent, children)
    {
      assert children[i..][1..] == children[i + 1..];
      if !(parent == ROOT && (children[i].name == PROC || children[i].name == DEV)) { count := count + 1; }
    }
  }

  method AppendChildren(parent: Name, children: seq<FsNode>, buf: seq<byte>) returns (out: seq<byte>)
    requires !Synthetic(parent)
    ensures out == buf + SerializeAll(parent, children)
    decreases children
  {
    hide Serialize;
    out := buf;
    assert children[0..] == children;
    for i := 0 to |children|
      invariant out + SerializeAll(parent, children[i..]) == buf + SerializeAll(parent, children)
    {
      assert children[i..][1..] == children[i + 1..];
      if !(parent == ROOT && (children[i].name == PROC || children[i].name == DEV)) {
        Regroup(out, Serialize(children[i]), SerializeAll(parent, children[i + 1..]));
        out := AppendNode(children[i], out);
      } else {
        assert SerializeAll(parent, children[i..]) == SerializeAll(parent, children[i + 1..]);
      }
    }
  }

  function Prepend(nodes: seq<FsNode>, all: ParseAll): ParseAll {
    match all
    case OutOfRangeAll => OutOfRangeAll
    case ParsedAll(more, end) => ParsedAll(nodes + more, end)
  }

  // Reads a node; an index out of range stops the kernel.
  method ReadNode(data: seq<byte>, offset: nat) returns (r: Parse)
    ensures r == Deserialize(data, offset)
    decreases |data| - offset, 1
  {
    hide LeAt, Utf8, DeserializeAll;
    if offset >= |data| { return NoNode(offset); }
    var typ := data[offset];
    if typ != 1 && typ != 2 && typ != 3 { return NoNode(offset + 1); }
    if offset + 5 > |data| { return OutOfRange; }
    var nameEnd := offset + 5 + LeAt(data, offset + 1, 4);
    if nameEnd > |data| { return OutOfRange; }
    var name := data[offset + 5..nameEnd];
    if !Utf8(name) { return NoNode(offset + 5); }
    if typ == 1 {
      if nameEnd + 4 > |data| { return OutOfRange; }
      var end := nameEnd + 4 + LeAt(data, nameEnd, 4);
      if end > |data| { return OutOfRange; }
      return Parsed(File(name, data[nameEnd + 4..end]), end);
    } else if typ == 2 {
      if nameEnd + 4 > |data| { return OutOfRange; }
      var all := ReadChildren(data, nameEnd + 4, LeAt(data, nameEnd, 4));
      return if all.OutOfRangeAll? then OutOfRange else Parsed(Directory(name, all.nodes), all.offset);
    } else {
      return Parsed(Device(name), nameEnd);
    }
  }

  method ReadChildren(data: seq<byte>, start: nat, count: nat) returns (r: ParseAll)
    requires start <= |data|
    ensures r == DeserializeAll(data, start, count)
    decreases |data| - start, 2
  {
    hide Deserialize;
    var children: seq<FsNode> := [];
    var at := start;
    PrependNothing(DeserializeAll(data, start, count));
    for i := 0 to count
      invariant start <= at <= |data|
      invariant DeserializeAll(data, start, count) == Prepend(children, DeserializeAll(data, at, count - i))
    {
      var child := ReadNode(data, at);
      match child
      case OutOfRange => return OutOfRangeAll;
      case NoNode(next) => at := next;
      case Parsed(node, next) =>
        PrependOne(children, node, DeserializeAll(data, next, count - i - 1));
        children, at := children + [node], next;
    }
    assert DeserializeAll(data, at, 0) == ParsedAll([], at);
    assert children + [] == children;
    return ParsedAll(children, at);
  }

  lemma PrependNothing(all: ParseAll)
    ensures Prepend([], all) == all
  {
  }

  lemma PrependOne(nodes: seq<FsNode>, node: FsNode, rest: ParseAll)
    ensures Prepend(nodes, Prepend([node], rest)) == Prepend(nodes + [node], rest)
  {
    if rest.ParsedAll? { assert nodes + ([node] + rest.nodes) == nodes + [node] + rest.nodes; }
  }

  // ------------------------------------------------------------ sync and load

  function Header(size: nat): Sector {
    Len(size) + TAG + Spfs.ZeroBlock()[8..]
  }

  // The drive after a sync: header, then the image in zero-padded sectors as far
  // as they fit.
  ghost predicate Synced(before: seq<Sector>, after: seq<Sector>, image: seq<byte>) {
    && |after| == |before|
    && forall lba :: 0 <= lba < |after| ==>
         after[lba] == if lba == 0 then Header(|image|)
                       else if lba <= Spfs.BlocksFor(|image|) then (Reached(image, lba); Spfs.Chunk(image, lba - 1))
                       else before[lba]
  }

  lemma Reached(image: seq<byte>, lba: nat)
    requires 0 < lba <= Spfs.BlocksFor(|image|)
    ensures (lba - 1) * Spfs.BLOCK_SIZE <= |image|
  {
  }

  // The sectors after the header and the first k of the image have been written.
  ghost predicate Written(before: seq<Sector>, now: seq<Sector>, image: seq<byte>, k: nat) {
    && k <= Spfs.BlocksFor(|image|) && |now| == |before|
    && (|now| > 0 ==> now[0] == Header(|image|))
    && forall lba :: 1 <= lba < |now| ==>
         now[lba] == if lba <= k then (Reached(image, lba); Spfs.Chunk(image, lba - 1)) else before[lba]
  }

  lemma WrittenOneMore(before: seq<Sector>, now: seq<Sector>, image: seq<byte>, k: nat)
    requires Written(before, now, image, k) && k + 1 < |now| && k < Spfs.BlocksFor(|image|)
    ensures k * Spfs.BLOCK_SIZE <= |image|
    ensures Written(before, now[k + 1 := Spfs.Chunk(image, k)], image, k + 1)
  {
    Reached(image, k + 1);
    hide Spfs.Chunk, Header, Spfs.BlocksFor;
  }

  // Whatever has no room on the drive is left out.
  lemma WrittenIsSynced(before: seq<Sector>, now: seq<Sector>, image: seq<byte>, k: nat)
    requires Written(before, now, image, k) && (k == Spfs.BlocksFor(|image|) || |now| <= k + 1)
    ensures Synced(before, now, image)
  {
    hide Spfs.Chunk, Header, Spfs.BlocksFor;
  }

  // Where everything stands after a sync, sector by sector: the size of the image and
  // the tag, then the image in sectors of 512 bytes, zeros behind each of the two;
  // sectors behind the image are as they were.
  ghost predicate DriveLayout(before: seq<Sector>, after: seq<Sector>, image: seq<byte>) {
    && |after| == |before|
    && (after != [] ==>
         && Digits(after[0], 0, |image| % 0x1_0000_0000, 4)
         && after[0][4] == 83 && after[0][5] == 80 && after[0][6] == 70 && after[0][7] == 83
         && forall j :: 8 <= j < 512 ==> after[0][j] == 0)
    && forall lba {:trigger after[lba]} :: 1 <= lba < |after| ==>
         if |image| <= 512 * (lba - 1) then after[lba] == before[lba]
         else forall j :: 0 <= j < 512 ==>
                after[lba][j] == if 512 * (lba - 1) + j < |image| then image[512 * (lba - 1) + j] else 0
  }

  lemma SyncedLayout(before: seq<Sector>, after: seq<Sector>, image: seq<byte>)
    requires Synced(before, after, image)
    ensures DriveLayout(before, after, image)
  {
    HeaderLayout(|image|);
    hide Header, Digits, Spfs.Chunk, Spfs.BlocksFor;
    forall lba | 1 <= lba < |after|
      ensures if |image| <= 512 * (lba - 1) then after[lba] == before[lba]
              else forall j :: 0 <= j < 512 ==>
                     after[lba][j] == if 512 * (lba - 1) + j < |image| then image[512 * (lba - 1) + j] else 0
    {
      Spfs.BlocksAreEnough(|image|, lba - 1);
      if |image| > 512 * (lba - 1) {
        Reached(image, lba);
        forall j | 0 <= j < 512
          ensures after[lba][j] == if 512 * (lba - 1) + j < |image| then image[512 * (lba - 1) + j] else 0
        {
          Spfs.ChunkBytes(image, lba - 1, j);
        }
      }
    }
  }

  lemma HeaderLayout(size: nat)
    ensures var h := Header(size);
            && Digits(h, 0, size % 0x1_0000_0000, 4) && h[4] == 83 && h[5] == 80 && h[6] == 70 && h[7] == 83
            && forall j :: 8 <= j < 512 ==> h[j] == 0
  {
    var h := Header(size);
    assert h[0..4] == ToLe(size % 0x1_0000_0000, 4);
    WrittenDigits(h, 0, size % 0x1_0000_0000, 4);
    hide Digits, ToLe;
  }

  method SyncToDisk(root: FsNode, drive: Drive)
    modifies drive
    ensures Synced(old(drive.sectors), drive.sectors, Serialize(root))
    ensures DriveLayout(old(drive.sectors), drive.sectors, Serialize(root))
  {
    hide DriveLayout;
    var buf := AppendNode(root, []);
    assert buf == Serialize(root);
    hide Spfs.Chunk, Header, Serialize, Spfs.BlocksFor;
    ghost var before := drive.sectors;
    var ok := drive.WriteSector(0, Header(|buf|));
    if !ok {
      SyncedLayout(before, drive.sectors, buf);
      return;
    }
    hide Written, Synced;
    var n := Spfs.BlocksFor(|buf|);
    HeaderWritten(before, buf);
    for k := 0 to n
      invariant Written(before, drive.sectors, buf, k)
    {
      Reached(buf, k + 1);
      if k + 1 < |drive.sectors| {
        WrittenOneMore(before, drive.sectors, buf, k);
      } else {
        WrittenIsSynced(before, drive.sectors, buf, k);
        SyncedLayout(before, drive.sectors, buf);
      }
      ok := drive.WriteSector(1 + k, Spfs.Chunk(buf, k));
      if !ok { return; }
    }
    WrittenIsSynced(before, drive.sectors, buf, n);
    SyncedLayout(before, drive.sectors, buf);
  }

  lemma HeaderWritten(before: seq<Sector>, image: seq<byte>)
    requires before != []
    ensures Written(before, before[0 := Header(|image|)], image, 0)
  {
  }

  datatype Load = Defaults | Unchanged | Loaded(root: FsNode) | Crashed

  // The sectors after the header; what cannot be read is zero.
  function Collected(sectors: seq<Sector>, n: nat): (data: seq<byte>)
    ensures |data| == n * Spfs.BLOCK_SIZE
    ensures forall o :: 0 <= o < |data| ==>
              data[o] == if 1 + o / Spfs.BLOCK_SIZE < |sectors|
                         then sectors[1 + o / Spfs.BLOCK_SIZE][o % Spfs.BLOCK_SIZE] else 0
  {
    if n == 0 then []
    else Collected(sectors, n - 1) + (if n < |sectors| then sectors[n] else Spfs.ZeroBlock())
  }

  function LoadOf(sectors: seq<Sector>): Load {
    if sectors == [] || sectors[0][4..8] != TAG then Defaults
    else
      var size := LeAt(sectors[0], 0, 4);
      if size == 0 || size > MAX_IMAGE then Defaults
      else
        match Deserialize(Collected(sectors, Spfs.BlocksFor(size))[..size], 0)
        case Parsed(node, _) => Loaded(node)
        case NoNode(_) => Unchanged
        case OutOfRange => Crashed
  }

  // The drive holds no file system: it cannot be read, has no tag, or names no size or
  // one above ten mebibytes.
  ghost predicate NoFileSystem(sectors: seq<Sector>) {
    || sectors == []
    || sectors[0][4] != 83 || sectors[0][5] != 80 || sectors[0][6] != 70 || sectors[0][7] != 83
    || Digits(sectors[0], 0, 0, 4) || forall n :: 0 <= n <= 10_485_760 ==> !Digits(sectors[0], 0, n, 4)
  }

  lemma DefaultsExactly(sectors: seq<Sector>)
    ensures LoadOf(sectors) == Defaults <==> NoFileSystem(sectors)
  {
    if sectors != [] {
      var h, size := sectors[0], LeAt(sectors[0], 0, 4);
      IntegerDigits(h, 0, 4);
      Limits();
      assert h[4..8] == [h[4], h[5], h[6], h[7]];
      hide LeAt, Digits, Deserialize, Collected;
      forall n | 0 <= n < 0x1_0000_0000 ensures Digits(h, 0, n, 4) <==> n == size {
        if Digits(h, 0, n, 4) { DigitsReadBack(h, 0, n, 4); }
      }
    }
  }

  // A tree that stands in the sectors after the header, whatever wrote it, is loaded;
  // its size is the one in the header.
  lemma StandingIsLoaded(sectors: seq<Sector>, size: nat, node: FsNode, end: nat)
    requires sectors != [] && 0 < size <= MAX_IMAGE && sectors[0][4..8] == TAG && Digits(sectors[0], 0, size, 4)
    requires NamesOk(node) && FF.Stands(Collected(sectors, Spfs.BlocksFor(size))[..size], 0, node, end)
    ensures LoadOf(sectors) == Loaded(node)
  {
    Limits();
    DigitsReadBack(sectors[0], 0, size, 4);
    hide LeAt, Digits, Deserialize, Collected, FF.Stands, NamesOk;
    FF.StandingIsRead(Collected(sectors, Spfs.BlocksFor(size))[..size], 0, node, end);
  }

  method LoadFromDisk(drive: Drive) returns (r: Load)
    ensures r == LoadOf(drive.sectors)
    ensures r == Defaults <==> NoFileSystem(drive.sectors)
  {
    DefaultsExactly(drive.sectors);
    hide NoFileSystem;
    var header := drive.ReadSector(0);
    if header.None? || header.value[4..8] != TAG {
      return Defaults;
    }
    var size := LeAt(header.value, 0, 4);
    if size == 0 || size > MAX_IMAGE {
      return Defaults;
    }
    var data: seq<byte> := [];
    for i := 0 to Spfs.BlocksFor(size)
      invariant data == Collected(drive.sectors, i)
    {
      var sec := drive.ReadSector(1 + i);
      data := data + if sec.Some? then sec.value else Spfs.ZeroBlock();
    }
    var node := ReadNode(data[..size], 0);
    match node
    case Parsed(root, _) => return Loaded(root);
    case NoNode(_) => return Unchanged;
    case OutOfRange => return Crashed;
  }

  lemma HeaderReads(size: nat)
    requires size < 0x1_0000_0000
    ensures LeAt(Header(size), 0, 4) == size && Header(size)[4..8] == TAG
  {
    assert Header(size)[0..4] == Len(size);
    LenAt(Header(size), 0, size);
  }

  lemma CollectedImage(before: seq<Sector>, after: seq<Sector>, image: seq<byte>)
    requires Synced(before, after, image) && |after| > Spfs.BlocksFor(|image|)
    ensures |image| <= |Collected(after, Spfs.BlocksFor(|image|))|
    ensures Collected(after, Spfs.BlocksFor(|image|))[..|image|] == image
  {
    var data := Collected(after, Spfs.BlocksFor(|image|));
    forall o | 0 <= o < |image|
      ensures data[o] == image[o]
    {
      Spfs.ChunkByte(image, o);
      assert after[1 + o / Spfs.BLOCK_SIZE] == Spfs.Chunk(image, o / Spfs.BLOCK_SIZE);
    }
  }

  // The tree that was stored comes back, less what lives only in memory, exactly
  // when its image is at most ten mebibytes; a larger one is taken for no file
  // system at all.
  lemma LoadsWhatWasSynced(before: seq<Sector>, after: seq<Sector>, root: FsNode)
    requires NamesOk(root) && |Serialize(root)| < 0x1_0000_0000
    requires Synced(before, after, Serialize(root)) && |after| > Spfs.BlocksFor(|Serialize(root)|)
    ensures LoadOf(after) == if |Serialize(root)| <= 10_485_760 then Loaded(Strip(root)) else Defaults
  {
    var image := Serialize(root);
    HeaderReads(|image|);
    CollectedImage(before, after, image);
    assert image[0..|image|] == image;
    RoundTrip(image, 0, root);
  }

  // Storing the loaded tree and loading it once more changes nothing.
  lemma SecondRoundTrip(before: seq<Sector>, after: seq<Sector>, root: FsNode)
    requires NamesOk(root) && |Serialize(root)| <= MAX_IMAGE
    requires Synced(before, after, Serialize(Strip(root))) && |after| > Spfs.BlocksFor(|Serialize(root)|)
    ensures LoadOf(after) == Loaded(Strip(root))
  {
    StripTwice(root);
    LoadsWhatWasSynced(before, after, Strip(root));
  }

  method SyncThenLoad(root: FsNode, drive: Drive) returns (r: Load)
    requires NamesOk(root)
    modifies drive
    ensures |Serialize(root)| < 0x1_0000_0000 && |drive.sectors| > Spfs.BlocksFor(|Serialize(root)|) ==>
              r == if |Serialize(root)| <= MAX_IMAGE then Loaded(Strip(root)) else Defaults
  {
    SyncToDisk(root, drive);
    r := LoadFromDisk(drive);
    if |Serialize(root)| < 0x1_0000_0000 && |drive.sectors| > Spfs.BlocksFor(|Serialize(root)|) {
      LoadsWhatWasSynced(old(drive.sectors), drive.sectors, root);
    }
  }

  // The journal's sector is the image's first one: once the journal has been
  // flushed no stored tree can be loaded.
  lemma JournalOverwritesImage(sectors: seq<Sector>, wal: Sector, committed: u64, count: nat, rs: seq<Journal.Record>)
    requires |sectors| > 1 && Wal.Holds(wal, committed, count, rs)
    ensures LoadOf(sectors[1 := wal]) == Defaults || LoadOf(sectors[1 := wal]) == Unchanged
  {
    FirstByte(wal, committed, count, rs);
    hide LeAt;
    var after := sectors[1 := wal];
    if sectors[0][4..8] == TAG && 0 < LeAt(sectors[0], 0, 4) <= MAX_IMAGE {
      var size := LeAt(sectors[0], 0, 4);
      var data := Collected(after, Spfs.BlocksFor(size))[..size];
      assert data[0] == after[1][0] == 0x31;
      assert Deserialize(data, 0) == NoNode(1);
    }
  }

  lemma FirstByte(wal: Sector, committed: u64, count: nat, rs: seq<Journal.Record>)
    requires Wal.Holds(wal, committed, count, rs)
    ensures wal[0] == 0x31
  {
    assert Wal.MAGIC % 256 == 0x31;
    hide *;
    Wal.HeaderReadsBack(wal, committed, count, rs);
    LowByte(wal, 0, 4);
  }

  lemma LowByte(s: seq<byte>, at: nat, n: nat)
    requires 0 < n && at + n <= |s|
    ensures LeAt(s, at, n) % 256 == s[at]
  {
  }

  // And once a tree has been stored no journal can be recovered: its first sector
  // begins with the kind of the root and not with the journal's magic.
  lemma ImageOverwritesJournal(before: seq<Sector>, after: seq<Sector>, root: FsNode)
    requires Synced(before, after, Serialize(root)) && |after| > 1
    ensures LeAt(after[1], 0, 4) != Wal.MAGIC
  {
    var image := Serialize(root);
    FirstOfImage(root);
    Reached(image, 1);
    assert after[1] == Spfs.Chunk(image, 0);
    Spfs.ChunkByte(image, 0);
    LowByte(after[1], 0, 4);
    hide LeAt, Serialize, Synced, Spfs.Chunk;
  }

  lemma FirstOfImage(root: FsNode)
    ensures |Serialize(root)| > 0 && Serialize(root)[0] in {1, 2, 3}
  {
  }

  // The journal is what it was before a recovery that follows a sync.
  method SyncThenRecover(root: FsNode, drive: Drive, journal: Journal.SpfsJournal)
    returns (r: Option<Result<nat, Wal.WalError>>)
    modifies drive, journal`committedSequence, journal`records
    ensures r.None? <==> |drive.sectors| <= 1
    ensures r.Some? ==> r.value.Err?
    ensures journal.records == old(journal.records) && journal.committedSequence == old(journal.committedSequence)
  {
    hide Synced, LeAt, Serialize;
    SyncToDisk(root, drive);
    var sector := drive.ReadSector(1);
    if sector.None? { return None; }
    ImageOverwritesJournal(old(drive.sectors), drive.sectors, root);
    var w := Wal.RecoverFromDisk(journal, sector.value);
    return Some(w);
  }
}
