// The sector that the SPFS journal is kept in (kernel/src/fs.rs).
module Wal {
  import opened Wrappers
  import opened Bytes
  import opened Journal

  const MAGIC: nat := 0x57414C31
  const RECORD_SIZE: nat := 17
  const MAX_RECORDS: nat := 20
  const FIRST_RECORD: nat := 16

  function Code(op: OpType): byte {
    match op
    case AllocBlock => 1
    case FreeBlock => 2
    case WriteInode => 3
    case Commit => 4
  }

  // Anything unknown is taken for a commit.
  function Decoded(code: byte): OpType {
    if code == 1 then AllocBlock
    else if code == 2 then FreeBlock
    else if code == 3 then WriteInode
    else Commit
  }

  function RecordBytes(r: Record): (s: seq<byte>)
    ensures |s| == RECORD_SIZE
  {
    [Code(r.op)] + ToLe(r.inode, 4) + ToLe(r.block, 4) + ToLe(r.sequence, 8)
  }

  function RecordAt(s: seq<byte>, at: nat): Record
    requires at + RECORD_SIZE <= |s|
  {
    Limits();
    LeAtBounded(s, at + 1, 4);
    LeAtBounded(s, at + 5, 4);
    LeAtBounded(s, at + 9, 8);
    Record(Decoded(s[at]), LeAt(s, at + 1, 4), LeAt(s, at + 5, 4), LeAt(s, at + 9, 8))
  }

  // A field of a record lies where the layout says.
  lemma FieldAt(s: seq<byte>, at: nat, pre: seq<byte>, v: nat, n: nat, post: seq<byte>)
    requires at + |pre| + n + |post| <= |s| && v < Limit(n)
    requires s[at..at + |pre| + n + |post|] == pre + ToLe(v, n) + post
    ensures LeAt(s, at + |pre|, n) == v
  {
    var whole := pre + ToLe(v, n) + post;
    LeInside(pre, v, n, post);
    var len := |pre| + n + |post|;
    assert |whole| == len;
    SubSlice(s, at, at + len, |pre|, |pre| + n);
    LeAtShifted(s, at + |pre|, whole, |pre|, n);
  }

  lemma RecordRoundTrip(s: seq<byte>, at: nat, r: Record)
    requires at + RECORD_SIZE <= |s| && s[at..at + RECORD_SIZE] == RecordBytes(r)
    ensures RecordAt(s, at) == r && s[at] == Code(r.op)
  {
    Limits();
    var (op, inode, block, no) := ([Code(r.op)], ToLe(r.inode, 4), ToLe(r.block, 4), ToLe(r.sequence, 8));
    assert RecordBytes(r) == op + inode + (block + no) == op + inode + block + no + [];
    FieldAt(s, at, op, r.inode, 4, block + no);
    FieldAt(s, at, op + inode, r.block, 4, no);
    FieldAt(s, at, op + inode + block, r.sequence, 8, []);
    assert s[at] == s[at..at + RECORD_SIZE][0] == Code(r.op);
  }

  function EncodeRecords(rs: seq<Record>): (s: seq<byte>)
    ensures |s| == RECORD_SIZE * |rs|
  {
    if rs == [] then [] else EncodeRecords(rs[..|rs| - 1]) + RecordBytes(rs[|rs| - 1])
  }

  lemma {:induction false} EncodedRecord(rs: seq<Record>, i: nat)
    requires i < |rs|
    ensures EncodeRecords(rs)[RECORD_SIZE * i..RECORD_SIZE * i + RECORD_SIZE] == RecordBytes(rs[i])
  {
    var last := |rs| - 1;
    if i < last {
      EncodedRecord(rs[..last], i);
      assert EncodeRecords(rs)[RECORD_SIZE * i..RECORD_SIZE * i + RECORD_SIZE]
          == EncodeRecords(rs[..last])[RECORD_SIZE * i..RECORD_SIZE * i + RECORD_SIZE];
    }
  }

  function FirstRecords(rs: seq<Record>): (r: seq<Record>)
    ensures |r| <= MAX_RECORDS
  {
    if |rs| <= MAX_RECORDS then rs else rs[..MAX_RECORDS]
  }

  // The sector holds the magic, the committed sequence number, the number of
  // records as 32 bits, and the first records; the rest is zero.
  ghost predicate Holds(s: seq<byte>, committed: u64, count: nat, rs: seq<Record>) {
    && |s| == 512 && |rs| <= MAX_RECORDS
    && s[0..4] == ToLe(MAGIC, 4) && s[4..12] == ToLe(committed, 8)
    && s[12..16] == ToLe(count % 0x1_0000_0000, 4)
    && s[FIRST_RECORD..FIRST_RECORD + RECORD_SIZE * |rs|] == EncodeRecords(rs)
    && forall k :: FIRST_RECORD + RECORD_SIZE * |rs| <= k < 512 ==> s[k] == 0
  }

  // What seventeen bytes say: an operation code, inode, block, sequence number.
  ghost predicate ShowsRecord(s: seq<byte>, at: nat, r: Record) {
    && at + 17 <= |s|
    && (s[at] == 1 <==> r.op.AllocBlock?) && (s[at] == 2 <==> r.op.FreeBlock?) && (s[at] == 3 <==> r.op.WriteInode?)
    && Digits(s, at + 1, r.inode, 4) && Digits(s, at + 5, r.block, 4) && Digits(s, at + 9, r.sequence, 8)
  }

  // Where everything stands in the sector: at most twenty records, from byte 16 on.
  ghost predicate Layout(s: seq<byte>, committed: u64, records: seq<Record>) {
    && |s| == 512
    && s[0] == 0x31 && s[1] == 0x4C && s[2] == 0x41 && s[3] == 0x57
    && Digits(s, 4, committed, 8) && Digits(s, 12, |records| % 0x1_0000_0000, 4)
    && (forall i :: 0 <= i < |records| && i < 20 ==>
         ShowsRecord(s, 16 + 17 * i, records[i]) && (records[i].op.Commit? ==> s[16 + 17 * i] == 4))
    && forall k :: 16 + 17 * |records| <= k < 512 || 356 <= k < 512 ==> s[k] == 0
  }

  lemma RecordShows(s: seq<byte>, at: nat)
    requires at + RECORD_SIZE <= |s|
    ensures ShowsRecord(s, at, RecordAt(s, at))
  {
    IntegerDigits(s, at + 1, 4);
    IntegerDigits(s, at + 5, 4);
    IntegerDigits(s, at + 9, 8);
    hide LeAt, Digits;
  }

  lemma HoldsLayout(s: seq<byte>, committed: u64, records: seq<Record>)
    requires Holds(s, committed, |records|, FirstRecords(records))
    ensures Layout(s, committed, records)
  {
    var rs := FirstRecords(records);
    HeaderReadsBack(s, committed, |records|, rs);
    IntegerDigits(s, 0, 4);
    IntegerDigits(s, 4, 8);
    IntegerDigits(s, 12, 4);
    MagicBytes(s);
    forall i | 0 <= i < |records| && i < 20
      ensures ShowsRecord(s, 16 + 17 * i, records[i]) && (records[i].op.Commit? ==> s[16 + 17 * i] == 4)
    {
      RecordReadsBack(s, committed, |records|, rs, i);
      RecordShows(s, 16 + 17 * i);
    }
    hide LeAt, Digits, ShowsRecord, RecordAt, EncodeRecords, ToLe;
  }

  lemma MagicBytes(s: seq<byte>)
    requires |s| >= 4 && Digits(s, 0, MAGIC, 4)
    ensures s[0] == 0x31 && s[1] == 0x4C && s[2] == 0x41 && s[3] == 0x57
  {
    Limits();
    assert Limit(3) == 0x100_0000;
    assert s[0 + 0] == MAGIC / Limit(0) % 256;
    assert s[0 + 1] == MAGIC / Limit(1) % 256;
    assert s[0 + 2] == MAGIC / Limit(2) % 256;
    assert s[0 + 3] == MAGIC / Limit(3) % 256;
  }

  // Writes bytes over a part of the sector.
  function Put(s: seq<byte>, at: nat, bytes: seq<byte>): (r: seq<byte>)
    requires at + |bytes| <= |s|
    ensures |r| == |s| && r[at..at + |bytes|] == bytes
    ensures forall k :: 0 <= k < at || at + |bytes| <= k < |s| ==> r[k] == s[k]
  {
    s[..at] + bytes + s[at + |bytes|..]
  }

  method FlushToDisk(journal: SpfsJournal) returns (sector: seq<byte>)
    ensures Holds(sector, journal.committedSequence, |journal.records|, FirstRecords(journal.records))
    ensures Layout(sector, journal.committedSequence, journal.records)
  {
    hide Layout, FirstRecords, ToLe, RecordBytes, EncodeRecords, Zeros;
    sector := Put(Zeros(512), 0, ToLe(MAGIC, 4));
    sector := Put(sector, 4, ToLe(journal.committedSequence, 8));
    sector := Put(sector, 12, ToLe(|journal.records| % 0x1_0000_0000, 4));
    var rs := FirstRecords(journal.records);
    var offset := FIRST_RECORD;
    NoRecords(sector, rs);
    for i := 0 to |rs|
      invariant offset == FIRST_RECORD + RECORD_SIZE * i
      invariant Holds(sector, journal.committedSequence, |journal.records|, rs[..i])
    {
      if offset + RECORD_SIZE <= 512 {
        OneMoreRecord(sector, journal.committedSequence, |journal.records|, rs, i);
        sector := Put(sector, offset, RecordBytes(rs[i]));
        offset := offset + RECORD_SIZE;
      }
    }
    assert rs[..|rs|] == rs;
    HoldsLayout(sector, journal.committedSequence, journal.records);
  }

  lemma NoRecords(s: seq<byte>, rs: seq<Record>)
    requires |s| == 512
    ensures s[FIRST_RECORD..FIRST_RECORD] == EncodeRecords(rs[..0])
  {
  }

  lemma OneMoreRecord(s: seq<byte>, committed: u64, count: nat, rs: seq<Record>, i: nat)
    requires i < |rs| <= MAX_RECORDS && Holds(s, committed, count, rs[..i])
    ensures FIRST_RECORD + RECORD_SIZE * i + RECORD_SIZE <= 512
    ensures Holds(Put(s, FIRST_RECORD + RECORD_SIZE * i, RecordBytes(rs[i])), committed, count, rs[..i + 1])
  {
    var at := FIRST_RECORD + RECORD_SIZE * i;
    var t := Put(s, at, RecordBytes(rs[i]));
    assert rs[..i + 1][..i] == rs[..i];
    assert t[0..4] == s[0..4] && t[4..12] == s[4..12] && t[12..16] == s[12..16];
    assert t[FIRST_RECORD..at] == s[FIRST_RECORD..at];
    assert t[FIRST_RECORD..at + RECORD_SIZE] == t[FIRST_RECORD..at] + t[at..at + RECORD_SIZE];
  }

  datatype WalError = InvalidSignature

  // Loads the journal; a sector without the magic leaves it as it was.
  method RecoverFromDisk(journal: SpfsJournal, sector: seq<byte>) returns (r: Result<nat, WalError>)
    requires |sector| == 512
    modifies journal`committedSequence, journal`records
    ensures r.Err? <==> LeAt(sector, 0, 4) != MAGIC
    ensures r.Err? ==>
      journal.records == old(journal.records) && journal.committedSequence == old(journal.committedSequence)
    ensures r.Ok? ==>
              && r.value == |journal.records|
              && r.value == (if LeAt(sector, 12, 4) < MAX_RECORDS then LeAt(sector, 12, 4) else MAX_RECORDS)
              && journal.committedSequence == LeAt(sector, 4, 8)
              && (forall i :: 0 <= i < |journal.records| ==>
                   journal.records[i] == RecordAt(sector, FIRST_RECORD + RECORD_SIZE * i))
    ensures r.Ok? ==>
              && Digits(sector, 4, journal.committedSequence, 8) && |journal.records| <= 20
              && forall i :: 0 <= i < |journal.records| ==> ShowsRecord(sector, 16 + 17 * i, journal.records[i])
  {
    hide LeAt, RecordAt, Digits, ShowsRecord;
    if LeAt(sector, 0, 4) != MAGIC {
      return Err(InvalidSignature);
    }
    Limits();
    LeAtBounded(sector, 4, 8);
    journal.committedSequence := LeAt(sector, 4, 8);
    var count := LeAt(sector, 12, 4);
    journal.records := [];
    var offset := FIRST_RECORD;
    for i := 0 to if count < MAX_RECORDS then count else MAX_RECORDS
      invariant offset == FIRST_RECORD + RECORD_SIZE * i && |journal.records| == i
      invariant journal.committedSequence == LeAt(sector, 4, 8)
      invariant forall j :: 0 <= j < i ==> journal.records[j] == RecordAt(sector, FIRST_RECORD + RECORD_SIZE * j)
    {
      if offset + RECORD_SIZE <= 512 {
        journal.records := journal.records + [RecordAt(sector, offset)];
        offset := offset + RECORD_SIZE;
      }
    }
    IntegerDigits(sector, 4, 8);
    forall i | 0 <= i < |journal.records| ensures ShowsRecord(sector, 16 + 17 * i, journal.records[i]) {
      RecordShows(sector, 16 + 17 * i);
    }
    return Ok(|journal.records|);
  }

  // How many records survive: the count is kept in 32 bits and read up to twenty.
  function Survivors(count: nat): (n: nat)
    ensures n <= count && n <= MAX_RECORDS
  {
    var kept := count % 0x1_0000_0000;
    if kept < MAX_RECORDS then kept else MAX_RECORDS
  }

  // What was flushed is what is loaded: the committed sequence number and the
  // first records, twenty at most.
  method FlushThenRecover(journal: SpfsJournal, other: SpfsJournal) returns (r: Result<nat, WalError>)
    requires other != journal
    modifies other`committedSequence, other`records
    ensures r == Ok(Survivors(|journal.records|))
    ensures other.committedSequence == journal.committedSequence
    ensures other.records == journal.records[..Survivors(|journal.records|)]
  {
    hide Holds, RecordAt, LeAt, FirstRecords, Survivors;
    var sector := FlushToDisk(journal);
    ghost var records := journal.records;
    AllReadsBack(sector, journal.committedSequence, records);
    r := RecoverFromDisk(other, sector);
    assert other.records == records[..Survivors(|records|)];
  }

  lemma AllReadsBack(s: seq<byte>, committed: u64, records: seq<Record>)
    requires Holds(s, committed, |records|, FirstRecords(records))
    ensures |s| == 512 && LeAt(s, 0, 4) == MAGIC && LeAt(s, 4, 8) == committed
    ensures (if LeAt(s, 12, 4) < MAX_RECORDS then LeAt(s, 12, 4) else MAX_RECORDS) == Survivors(|records|)
    ensures forall i :: 0 <= i < Survivors(|records|) ==> RecordAt(s, FIRST_RECORD + RECORD_SIZE * i) == records[i]
  {
    HeaderReadsBack(s, committed, |records|, FirstRecords(records));
    forall i | 0 <= i < Survivors(|records|)
      ensures RecordAt(s, FIRST_RECORD + RECORD_SIZE * i) == records[i]
    {
      RecordReadsBack(s, committed, |records|, FirstRecords(records), i);
    }
  }

  lemma HeaderReadsBack(s: seq<byte>, committed: u64, count: nat, rs: seq<Record>)
    requires Holds(s, committed, count, rs)
    ensures LeAt(s, 0, 4) == MAGIC && LeAt(s, 4, 8) == committed && LeAt(s, 12, 4) == count % 0x1_0000_0000
  {
    hide ToLe, LeAt, EncodeRecords;
    Limits();
    FieldReadsBack(s, 0, MAGIC, 4);
    FieldReadsBack(s, 4, committed, 8);
    FieldReadsBack(s, 12, count % 0x1_0000_0000, 4);
  }

  lemma RecordReadsBack(s: seq<byte>, committed: u64, count: nat, rs: seq<Record>, i: nat)
    requires Holds(s, committed, count, rs) && i < |rs|
    ensures FIRST_RECORD + RECORD_SIZE * i + RECORD_SIZE <= 512
    ensures RecordAt(s, FIRST_RECORD + RECORD_SIZE * i) == rs[i]
    ensures s[FIRST_RECORD + RECORD_SIZE * i] == Code(rs[i].op)
  {
    var at := FIRST_RECORD + RECORD_SIZE * i;
    EncodedRecord(rs, i);
    var body := s[FIRST_RECORD..FIRST_RECORD + RECORD_SIZE * |rs|];
    SubSlice(s, FIRST_RECORD, FIRST_RECORD + RECORD_SIZE * |rs|, RECORD_SIZE * i, RECORD_SIZE * i + RECORD_SIZE);
    RecordRoundTrip(s, at, rs[i]);
  }
}
