// The file format that the kernel's ELF parser accepts, from the writer's side: an
// independent description of the files and of the programs in them
// (kernel/src/elf.rs).
module ElfFormat {
  import opened Bytes
  import opened Wrappers
  import opened Elf

  // -------------------------------------------------------------- what is written

  // A program header, with all its fields.
  datatype Row = Row(kind: nat, flags: nat, offset: nat, vaddr: nat, paddr: nat, filesz: nat, memsz: nat, align: nat)

  predicate RowFits(r: Row) {
    && r.kind < 0x1_0000_0000 && r.flags < 0x1_0000_0000
    && r.offset < U64_LIMIT && r.vaddr < U64_LIMIT && r.paddr < U64_LIMIT
    && r.filesz < U64_LIMIT && r.memsz < U64_LIMIT && r.align < U64_LIMIT
  }

  function RowBytes(r: Row): (s: seq<byte>)
    ensures |s| == 56
  {
    ToLe(r.kind, 4) + ToLe(r.flags, 4) + ToLe(r.offset, 8) + ToLe(r.vaddr, 8) + ToLe(r.paddr, 8)
      + ToLe(r.filesz, 8) + ToLe(r.memsz, 8) + ToLe(r.align, 8)
  }

  // The fixed header of an executable for this machine: the fields that vary.
  datatype Head = Head(
    ident: seq<byte>,
    version: nat,
    entry: nat,
    phoff: nat,
    shoff: nat,
    flags: nat,
    ehsize: nat,
    phentsize: nat,
    phnum: nat,
    sections: seq<byte>)

  predicate HeadFits(h: Head) {
    && |h.ident| == 10 && |h.sections| == 6
    && h.version < 0x1_0000_0000 && h.flags < 0x1_0000_0000
    && h.entry < U64_LIMIT && h.phoff < U64_LIMIT && h.shoff < U64_LIMIT
    && h.ehsize < 0x1_0000 && h.phentsize < 0x1_0000 && h.phnum < 0x1_0000
  }

  // Magic, 64-bit class, little-endian, and ten bytes that nobody reads.
  function Ident(h: Head): seq<byte> {
    [0x7F, 0x45, 0x4C, 0x46, 2, 1] + h.ident
  }

  // An executable (2) for x86-64 (62).
  function Kinds(h: Head): (s: seq<byte>)
    ensures |s| == 8
  {
    ToLe(2, 2) + ToLe(62, 2) + ToLe(h.version, 4)
  }

  function Places(h: Head): (s: seq<byte>)
    ensures |s| == 24
  {
    ToLe(h.entry, 8) + ToLe(h.phoff, 8) + ToLe(h.shoff, 8)
  }

  function Sizes(h: Head): (s: seq<byte>)
    ensures |s| == 10
  {
    ToLe(h.flags, 4) + ToLe(h.ehsize, 2) + ToLe(h.phentsize, 2) + ToLe(h.phnum, 2)
  }

  function HeadBytes(h: Head): (s: seq<byte>)
    requires HeadFits(h)
    ensures |s| == 64
  {
    Ident(h) + Kinds(h) + Places(h) + Sizes(h) + h.sections
  }

  // Where the i-th row stands.
  function RowPlace(h: Head, i: nat): nat {
    h.phoff + i * h.phentsize
  }

  ghost predicate RowWritten(b: seq<byte>, h: Head, r: Row, i: nat) {
    RowPlace(h, i) + 56 <= |b| && b[RowPlace(h, i)..RowPlace(h, i) + 56] == RowBytes(r)
  }

  // The file begins with this header and holds these rows where the header says.
  ghost predicate Written(b: seq<byte>, h: Head, rows: seq<Row>) {
    && HeadFits(h) && 64 <= |b| < U64_LIMIT && b[..64] == HeadBytes(h)
    && h.phnum == |rows| && 56 <= h.phentsize && RowPlace(h, |rows|) <= |b|
    && forall i :: 0 <= i < |rows| ==> RowFits(rows[i]) && RowWritten(b, h, rows[i], i)
  }

  // ------------------------------------------------------------- what is read back

  lemma HeadParts(h: Head)
    requires HeadFits(h)
    ensures var s := HeadBytes(h);
            && s[..16] == Ident(h) && s[16..24] == Kinds(h) && s[24..48] == Places(h) && s[48..58] == Sizes(h)
  {
    hide Kinds, Places, Sizes;
  }

  lemma PlacesParts(h: Head)
    ensures Places(h)[0..8] == ToLe(h.entry, 8) && Places(h)[8..16] == ToLe(h.phoff, 8)
  {
    hide ToLe;
  }

  lemma SizesParts(h: Head)
    ensures Sizes(h)[6..8] == ToLe(h.phentsize, 2) && Sizes(h)[8..10] == ToLe(h.phnum, 2)
  {
    hide ToLe;
  }

  lemma KindsParts(h: Head)
    ensures Kinds(h)[0..2] == ToLe(2, 2) && Kinds(h)[2..4] == ToLe(62, 2)
  {
    hide ToLe;
  }

  // A field in a part of the header.
  lemma FieldInPart(b: seq<byte>, from: nat, part: seq<byte>, at: nat, v: nat, n: nat)
    requires from + |part| <= |b| && b[from..from + |part|] == part
    requires at + n <= |part| && v < Limit(n) && part[at..at + n] == ToLe(v, n)
    ensures LeAt(b, from + at, n) == v
  {
    SubSlice(b, from, from + |part|, at, at + n);
    FieldReadsBack(b, from + at, v, n);
  }

  lemma HeadSlices(b: seq<byte>, h: Head)
    requires HeadFits(h) && |b| >= 64 && b[..64] == HeadBytes(h)
    ensures b[0..16] == Ident(h) && b[16..24] == Kinds(h) && b[24..48] == Places(h) && b[48..58] == Sizes(h)
  {
    HeadParts(h);
    hide HeadBytes, Ident, Kinds, Places, Sizes;
    SubSlice(b, 0, 64, 0, 16);
    SubSlice(b, 0, 64, 16, 24);
    SubSlice(b, 0, 64, 24, 48);
    SubSlice(b, 0, 64, 48, 58);
    assert b[0..64] == b[..64];
  }

  lemma IdentReadsBack(b: seq<byte>, h: Head)
    requires HeadFits(h) && |b| >= 64 && b[0..16] == Ident(h)
    ensures HasMagic(b) && b[4] == 2 && b[5] == 1
  {
    assert forall k :: 0 <= k < 16 ==> b[k] == b[0..16][k];
  }

  lemma KindsReadBack(b: seq<byte>, h: Head)
    requires |b| >= 64 && b[16..24] == Kinds(h)
    ensures LeAt(b, 16, 2) == 2 && LeAt(b, 18, 2) == 62
  {
    KindsParts(h);
    Limits();
    hide Kinds, ToLe, LeAt;
    FieldInPart(b, 16, Kinds(h), 0, 2, 2);
    FieldInPart(b, 16, Kinds(h), 2, 62, 2);
  }

  lemma PlacesReadBack(b: seq<byte>, h: Head)
    requires HeadFits(h) && |b| >= 64 && b[24..48] == Places(h)
    ensures LeAt(b, 24, 8) == h.entry && LeAt(b, 32, 8) == h.phoff
  {
    PlacesParts(h);
    Limits();
    hide Places, ToLe, LeAt;
    FieldInPart(b, 24, Places(h), 0, h.entry, 8);
    FieldInPart(b, 24, Places(h), 8, h.phoff, 8);
  }

  lemma SizesReadBack(b: seq<byte>, h: Head)
    requires HeadFits(h) && |b| >= 64 && b[48..58] == Sizes(h)
    ensures LeAt(b, 54, 2) == h.phentsize && LeAt(b, 56, 2) == h.phnum
  {
    SizesParts(h);
    Limits();
    hide Sizes, ToLe, LeAt;
    FieldInPart(b, 48, Sizes(h), 6, h.phentsize, 2);
    FieldInPart(b, 48, Sizes(h), 8, h.phnum, 2);
  }

  // The parser reads the header that was written.
  lemma HeadReadsBack(b: seq<byte>, h: Head)
    requires HeadFits(h) && |b| >= 64 && b[..64] == HeadBytes(h)
    ensures IsExecutable64(b)
    ensures Entry(b) == h.entry && PhOff(b) == h.phoff && PhEntSize(b) == h.phentsize && PhNum(b) == h.phnum
  {
    HeadSlices(b, h);
    IdentReadsBack(b, h);
    KindsReadBack(b, h);
    PlacesReadBack(b, h);
    SizesReadBack(b, h);
    hide HeadBytes, Ident, Kinds, Places, Sizes, LeAt, HasMagic;
  }

  lemma RowParts(r: Row)
    ensures var s := RowBytes(r);
            && s[0..4] == ToLe(r.kind, 4) && s[4..8] == ToLe(r.flags, 4) && s[8..16] == ToLe(r.offset, 8)
            && s[16..24] == ToLe(r.vaddr, 8) && s[32..40] == ToLe(r.filesz, 8) && s[40..48] == ToLe(r.memsz, 8)
  {
    hide ToLe;
  }

  // The header that the parser takes from the bytes of a row.
  lemma RowReadsBack(b: seq<byte>, at: nat, r: Row)
    requires RowFits(r) && at + 56 <= |b| && b[at..at + 56] == RowBytes(r)
    ensures PhdrIn(b, at) == Phdr(r.kind, r.flags, r.offset, r.vaddr, r.filesz, r.memsz)
  {
    RowParts(r);
    Limits();
    hide RowBytes, ToLe, LeAt;
    var s := RowBytes(r);
    FieldInPart(b, at, s, 0, r.kind, 4);
    FieldInPart(b, at, s, 4, r.flags, 4);
    FieldInPart(b, at, s, 8, r.offset, 8);
    FieldInPart(b, at, s, 16, r.vaddr, 8);
    FieldInPart(b, at, s, 32, r.filesz, 8);
    FieldInPart(b, at, s, 40, r.memsz, 8);
  }

  // The rows that put something into memory, in file order.
  function Kept(rows: seq<Row>): (ks: seq<Row>)
    ensures forall k :: 0 <= k < |ks| ==> ks[k] in rows
  {
    if rows == [] then []
    else
      var last := rows[|rows| - 1];
      Kept(rows[..|rows| - 1]) + (if last.kind == 1 && last.memsz > 0 then [last] else [])
  }

  function AsPhdr(r: Row): Phdr {
    Phdr(r.kind, r.flags, r.offset, r.vaddr, r.filesz, r.memsz)
  }

  function AsPhdrs(rows: seq<Row>): (hs: seq<Phdr>)
    ensures |hs| == |rows|
    ensures forall k :: 0 <= k < |rows| ==> hs[k] == AsPhdr(rows[k])
  {
    seq(|rows|, k requires 0 <= k < |rows| => AsPhdr(rows[k]))
  }

  lemma TableReadsBack(b: seq<byte>, h: Head, rows: seq<Row>)
    requires Written(b, h, rows)
    ensures |b| >= EHDR_SIZE && IsExecutable64(b) && HeadersFit(b) && PhNum(b) == |rows| && Entry(b) == h.entry
    ensures forall i :: 0 <= i < |rows| ==> PhdrAt(b, i) == AsPhdr(rows[i])
  {
    HeadReadsBack(b, h);
    hide HeadBytes, RowBytes, IsExecutable64, PhNum, PhOff, PhEntSize, Entry, HeadFits, RowFits;
    forall i | 0 <= i < |rows| ensures PhdrAt(b, i) == AsPhdr(rows[i]) {
      assert RowWritten(b, h, rows[i], i);
      RowReadsBack(b, RowPlace(h, i), rows[i]);
    }
  }

  lemma {:induction false} LoadsAreKept(b: seq<byte>, rows: seq<Row>, n: nat)
    requires |b| >= EHDR_SIZE && HeadersFit(b) && n <= |rows| == PhNum(b)
    requires forall i :: 0 <= i < |rows| ==> PhdrAt(b, i) == AsPhdr(rows[i])
    ensures Loads(b, n) == AsPhdrs(Kept(rows[..n]))
  {
    if n > 0 {
      LoadsAreKept(b, rows, n - 1);
      assert rows[..n][..n - 1] == rows[..n - 1] && rows[..n][n - 1] == rows[n - 1];
      hide PhdrAt, HeadersFit, PhNum;
    }
  }

  // --------------------------------------------------------------------- pages

  function PageNo(a: nat): nat { a / 4096 }

  // The pages that the bytes of a row lie on.
  ghost function PagesOf(r: Row): set<nat> {
    set a: nat | r.vaddr <= a < r.vaddr + r.memsz :: PageNo(a)
  }

  ghost function Interval(lo: nat, hi: nat): set<nat>
    requires lo <= hi
    decreases hi
  {
    if lo == hi then {} else Interval(lo, hi - 1) + {hi - 1}
  }

  lemma {:induction false} IntervalIs(lo: nat, hi: nat)
    requires lo <= hi
    ensures |Interval(lo, hi)| == hi - lo && forall p :: p in Interval(lo, hi) <==> lo <= p < hi
    decreases hi
  {
    if lo < hi { IntervalIs(lo, hi - 1); }
  }

  // The pages run from that of the first byte to that of the last.
  lemma PagesAreInterval(r: Row)
    requires r.memsz > 0
    ensures var first, last := PageNo(r.vaddr), PageNo(r.vaddr + r.memsz - 1);
            first <= last && PagesOf(r) == Interval(first, last + 1) && |PagesOf(r)| == last - first + 1
  {
    var first, last := PageNo(r.vaddr), PageNo(r.vaddr + r.memsz - 1);
    IntervalIs(first, last + 1);
    forall p | p in Interval(first, last + 1) ensures p in PagesOf(r) {
      var a := if p == first then r.vaddr else p * 4096;
      assert PageNo(a) == p && r.vaddr <= a < r.vaddr + r.memsz;
    }
    forall p | p in PagesOf(r) ensures p in Interval(first, last + 1) {
      var a: nat :| r.vaddr <= a < r.vaddr + r.memsz && PageNo(a) == p;
    }
  }

  lemma PageArithmetic(r: Row)
    requires r.memsz > 0
    ensures var first, last := PageNo(r.vaddr), PageNo(r.vaddr + r.memsz - 1);
            && PageFloor(r.vaddr) == first * 4096 && PageCeil(r.vaddr + r.memsz) == (last + 1) * 4096
            && Mapped(AsPhdr(r)) == (last - first + 1) * 4096
  {
  }

  // Two rows are apart exactly if they have no page in common.
  lemma ApartIsDisjoint(r: Row, s: Row)
    requires r.memsz > 0 && s.memsz > 0
    ensures PagesApart(AsPhdr(r), AsPhdr(s)) <==> PagesOf(r) !! PagesOf(s)
  {
    hide *;
    ApartByNumber(r, s);
    PagesAreInterval(r);
    PagesAreInterval(s);
    IntervalsApart(PageNo(r.vaddr), PageNo(r.vaddr + r.memsz - 1) + 1,
                   PageNo(s.vaddr), PageNo(s.vaddr + s.memsz - 1) + 1);
  }

  lemma ApartByNumber(r: Row, s: Row)
    requires r.memsz > 0 && s.memsz > 0
    ensures PagesApart(AsPhdr(r), AsPhdr(s))
       <==> PageNo(r.vaddr + r.memsz - 1) < PageNo(s.vaddr) || PageNo(s.vaddr + s.memsz - 1) < PageNo(r.vaddr)
  {
    PageArithmetic(r);
    PageArithmetic(s);
    hide PageNo, PageFloor, PageCeil;
  }

  lemma IntervalsApart(a: nat, b: nat, c: nat, d: nat)
    requires a < b && c < d
    ensures Interval(a, b) !! Interval(c, d) <==> b <= c || d <= a
  {
    IntervalIs(a, b);
    IntervalIs(c, d);
    hide Interval;
    var p := if a < c then c else a;
    assert p in Interval(a, b) && p in Interval(c, d) <==> p < b && p < d;
  }

  lemma MappedIsPages(r: Row)
    requires r.memsz > 0
    ensures Mapped(AsPhdr(r)) == |PagesOf(r)| * 4096
  {
    PageArithmetic(r);
    PagesAreInterval(r);
    hide PagesOf, Mapped, PageFloor, PageCeil, PageNo;
  }

  ghost function PageCount(rows: seq<Row>): nat {
    if rows == [] then 0 else PageCount(rows[..|rows| - 1]) + |PagesOf(rows[|rows| - 1])|
  }

  lemma {:induction false} FootprintIsPages(rows: seq<Row>)
    requires forall k :: 0 <= k < |rows| ==> rows[k].memsz > 0
    ensures Footprint(AsPhdrs(rows)) == PageCount(rows) * 4096
  {
    hide Mapped, PagesOf, PageNo;
    if rows != [] {
      var n := |rows| - 1;
      FootprintIsPages(rows[..n]);
      assert AsPhdrs(rows)[..n] == AsPhdrs(rows[..n]);
      MappedIsPages(rows[n]);
    }
  }

  // -------------------------------------------------------------- good programs

  // What the loadable rows of a file of this size must be like.
  predicate RowOk(r: Row, size: nat) {
    && r.filesz <= r.memsz && r.offset + r.filesz <= size
    && 0x4000_0000 <= r.vaddr && r.vaddr + r.memsz <= 0x7000_0000
  }

  // A program that can be loaded: few and well-placed rows, at most 4096 pages, no
  // page twice, and an entry point in code.
  ghost predicate GoodProgram(size: nat, entry: nat, rows: seq<Row>) {
    && |rows| <= 128
    && (forall i :: 0 <= i < |rows| && rows[i].kind == 1 ==> RowOk(rows[i], size))
    && var ks := Kept(rows);
       && ks != [] && PageCount(ks) <= 4096
       && (forall i, j :: 0 <= i < j < |ks| ==> PagesOf(ks[i]) !! PagesOf(ks[j]))
       && EntryKept(ks, entry)
  }

  lemma {:induction false} KeptOccupy(rows: seq<Row>)
    ensures forall k :: 0 <= k < |Kept(rows)| ==> Kept(rows)[k].kind == 1 && Kept(rows)[k].memsz > 0
  {
    if rows != [] { KeptOccupy(rows[..|rows| - 1]); }
  }

  lemma ApartAreDisjoint(ks: seq<Row>)
    requires forall k :: 0 <= k < |ks| ==> ks[k].memsz > 0
    ensures AllApart(AsPhdrs(ks)) <==> forall i, j :: 0 <= i < j < |ks| ==> PagesOf(ks[i]) !! PagesOf(ks[j])
  {
    hide PagesApart, PagesOf;
    forall i, j | 0 <= i < j < |ks|
      ensures PagesApart(AsPhdrs(ks)[i], AsPhdrs(ks)[j]) <==> PagesOf(ks[i]) !! PagesOf(ks[j])
    {
      ApartIsDisjoint(ks[i], ks[j]);
    }
  }

  // A written file is acceptable exactly if its program is good.
  lemma AcceptableIsGood(b: seq<byte>, h: Head, rows: seq<Row>)
    requires Written(b, h, rows)
    ensures Acceptable(b) <==> GoodProgram(|b|, h.entry, rows)
  {
    hide *;
    TableReadsBack(b, h, rows);
    KeptReadBack(b, rows);
    KeptOccupy(rows);
    FootprintIsPages(Kept(rows));
    ApartAreDisjoint(Kept(rows));
    EntryIsCarried(Kept(rows), h.entry);
    RangesAreOk(b, rows);
    GoodByParts(b, h.entry, rows);
  }

  lemma KeptReadBack(b: seq<byte>, rows: seq<Row>)
    requires |b| >= EHDR_SIZE && HeadersFit(b) && PhNum(b) == |rows|
    requires forall i :: 0 <= i < |rows| ==> PhdrAt(b, i) == AsPhdr(rows[i])
    ensures Loads(b, PhNum(b)) == AsPhdrs(Kept(rows))
  {
    LoadsAreKept(b, rows, |rows|);
    assert rows[..|rows|] == rows;
  }

  ghost predicate EntryKept(ks: seq<Row>, entry: nat) {
    exists k :: 0 <= k < |ks| && ks[k].flags % 2 == 1 && ks[k].vaddr <= entry < ks[k].vaddr + ks[k].memsz
  }

  lemma EntryIsCarried(ks: seq<Row>, entry: nat)
    ensures EntryKept(ks, entry) <==> exists i :: 0 <= i < |ks| && Carries(AsPhdrs(ks)[i], entry)
  {
    if EntryKept(ks, entry) {
      var k :| 0 <= k < |ks| && ks[k].flags % 2 == 1 && ks[k].vaddr <= entry < ks[k].vaddr + ks[k].memsz;
      assert Carries(AsPhdrs(ks)[k], entry);
    }
  }

  lemma RangesAreOk(b: seq<byte>, rows: seq<Row>)
    requires |b| >= EHDR_SIZE && HeadersFit(b) && PhNum(b) == |rows|
    requires forall i :: 0 <= i < |rows| ==> PhdrAt(b, i) == AsPhdr(rows[i])
    ensures (forall i :: 0 <= i < PhNum(b) && PhdrAt(b, i).kind == PT_LOAD ==> InRange(b, PhdrAt(b, i)))
       <==> (forall i :: 0 <= i < |rows| && rows[i].kind == 1 ==> RowOk(rows[i], |b|))
  {
    hide PhdrAt, HeadersFit, PhNum;
    assert forall i :: 0 <= i < |rows| ==> (InRange(b, PhdrAt(b, i)) <==> RowOk(rows[i], |b|));
    hide InRange, RowOk;
  }

  lemma GoodByParts(b: seq<byte>, entry: nat, rows: seq<Row>)
    requires IsExecutable64(b) && HeadersFit(b) && PhNum(b) == |rows| && Entry(b) == entry
    requires (forall i :: 0 <= i < PhNum(b) && PhdrAt(b, i).kind == PT_LOAD ==> InRange(b, PhdrAt(b, i)))
        <==> (forall i :: 0 <= i < |rows| && rows[i].kind == 1 ==> RowOk(rows[i], |b|))
    requires Loads(b, PhNum(b)) == AsPhdrs(Kept(rows))
    requires Footprint(AsPhdrs(Kept(rows))) == PageCount(Kept(rows)) * 4096
    requires var ks := Kept(rows);
             AllApart(AsPhdrs(ks)) <==> forall i, j :: 0 <= i < j < |ks| ==> PagesOf(ks[i]) !! PagesOf(ks[j])
    requires var ks := Kept(rows);
             EntryKept(ks, entry) <==> exists i :: 0 <= i < |ks| && Carries(AsPhdrs(ks)[i], entry)
    ensures Acceptable(b) <==> GoodProgram(|b|, entry, rows)
  {
    hide IsExecutable64, HeadersFit, PhNum, Entry, PhdrAt, InRange, RowOk, Loads, Kept, Footprint, PageCount, AllApart,
      PagesOf, EntryKept, Carries, AsPhdrs;
  }

  // The segment that a row of a file stands for.
  function SegmentFor(b: seq<byte>, r: Row): LoadedSegment
    requires RowOk(r, |b|)
  {
    LoadedSegment(r.vaddr, r.filesz, r.memsz, r.flags, b[r.offset..r.offset + r.filesz] + Zeros(r.memsz - r.filesz))
  }

  // The image of a written file: its kept rows, each with its bytes of the file.
  ghost predicate ImageOfRows(b: seq<byte>, entry: nat, rows: seq<Row>, elf: ElfFile) {
    && elf.entryPoint == entry && |elf.segments| == |Kept(rows)|
    && forall k :: 0 <= k < |elf.segments| ==>
         RowOk(Kept(rows)[k], |b|) && elf.segments[k] == SegmentFor(b, Kept(rows)[k])
  }

  lemma ImageReadsBack(b: seq<byte>, h: Head, rows: seq<Row>, elf: ElfFile)
    requires Written(b, h, rows) && ImageOf(b, elf)
    ensures ImageOfRows(b, h.entry, rows, elf)
  {
    hide *;
    TableReadsBack(b, h, rows);
    KeptReadBack(b, rows);
    ImageParts(b, elf, AsPhdrs(Kept(rows)));
    forall k | 0 <= k < |Kept(rows)|
      ensures RowOk(Kept(rows)[k], |b|) && elf.segments[k] == SegmentFor(b, Kept(rows)[k])
    {
      RowSegment(b, Kept(rows)[k]);
    }
    ImageIs(b, h.entry, rows, elf);
  }

  lemma ImageParts(b: seq<byte>, elf: ElfFile, hs: seq<Phdr>)
    requires |b| >= EHDR_SIZE && HeadersFit(b) && ImageOf(b, elf) && hs == Loads(b, PhNum(b))
    ensures elf.entryPoint == Entry(b) && |elf.segments| == |hs|
    ensures forall k :: 0 <= k < |hs| ==> InRange(b, hs[k]) && elf.segments[k] == SegmentOf(b, hs[k])
  {
    hide Acceptable, Loads, PhNum, HeadersFit, InRange, SegmentOf, Entry;
  }

  lemma RowSegment(b: seq<byte>, r: Row)
    ensures InRange(b, AsPhdr(r)) <==> RowOk(r, |b|)
    ensures RowOk(r, |b|) ==> SegmentOf(b, AsPhdr(r)) == SegmentFor(b, r)
  {
  }

  lemma ImageIs(b: seq<byte>, entry: nat, rows: seq<Row>, elf: ElfFile)
    requires elf.entryPoint == entry && |elf.segments| == |Kept(rows)|
    requires forall k :: 0 <= k < |Kept(rows)| ==>
      RowOk(Kept(rows)[k], |b|) && elf.segments[k] == SegmentFor(b, Kept(rows)[k])
    ensures ImageOfRows(b, entry, rows, elf)
  {
    hide Kept, RowOk, SegmentFor;
  }

  // The parser takes a written file exactly if its program is good, and gives back
  // the entry point and the segments that were written.
  method ParseWritten(b: seq<byte>, ghost h: Head, ghost rows: seq<Row>) returns (r: Result<ElfFile, ElfError>)
    requires Written(b, h, rows)
    ensures r.Ok? <==> GoodProgram(|b|, h.entry, rows)
    ensures r.Ok? ==> ImageOfRows(b, h.entry, rows, r.value)
  {
    AcceptableIsGood(b, h, rows);
    hide GoodProgram, ImageOfRows, Acceptable, ImageOf, Rejected;
    r := ParseElf(b);
    if r.Ok? { ImageReadsBack(b, h, rows, r.value); }
  }

  // ---------------------------------------------------------- writing a program

  // A segment to be put into a file.
  datatype Segment = Segment(flags: nat, vaddr: nat, payload: seq<byte>, memsz: nat)

  function Payloads(segs: seq<Segment>): seq<byte> {
    if segs == [] then [] else Payloads(segs[..|segs| - 1]) + segs[|segs| - 1].payload
  }

  // The payload of a segment comes behind all headers and the payloads before it.
  function RowFor(segs: seq<Segment>, i: nat): Row
    requires i < |segs|
  {
    Row(1, segs[i].flags, 64 + 56 * |segs| + |Payloads(segs[..i])|, segs[i].vaddr, 0, |segs[i].payload|,
        segs[i].memsz, 4096)
  }

  function RowsFor(segs: seq<Segment>): (rows: seq<Row>)
    ensures |rows| == |segs| && forall i :: 0 <= i < |segs| ==> rows[i] == RowFor(segs, i)
  {
    seq(|segs|, i requires 0 <= i < |segs| => RowFor(segs, i))
  }

  function HeadFor(entry: nat, n: nat): Head {
    Head(Zeros(10), 1, entry, 64, 0, 0, 64, 56, n, Zeros(6))
  }

  function TableBytes(rows: seq<Row>): (s: seq<byte>)
    ensures |s| == 56 * |rows|
  {
    if rows == [] then [] else TableBytes(rows[..|rows| - 1]) + RowBytes(rows[|rows| - 1])
  }

  // Header, rows and payloads, one behind the other.
  function WriteProgram(entry: nat, segs: seq<Segment>): (b: seq<byte>)
    requires |segs| < 0x1_0000 && entry < U64_LIMIT
    ensures |b| == 64 + 56 * |segs| + |Payloads(segs)|
  {
    HeadBytes(HeadFor(entry, |segs|)) + TableBytes(RowsFor(segs)) + Payloads(segs)
  }

  lemma {:induction false} RowInTable(rows: seq<Row>, i: nat)
    requires i < |rows|
    ensures TableBytes(rows)[56 * i..56 * i + 56] == RowBytes(rows[i])
  {
    if i < |rows| - 1 {
      RowInTable(rows[..|rows| - 1], i);
      var t, u := TableBytes(rows), TableBytes(rows[..|rows| - 1]);
      assert t[..|u|] == u;
      SubSlice(t, 0, |u|, 56 * i, 56 * i + 56);
      assert t[0..|u|] == t[..|u|];
    }
  }

  lemma {:induction false} PayloadInPlace(segs: seq<Segment>, i: nat)
    requires i < |segs|
    ensures var at := |Payloads(segs[..i])|;
            at + |segs[i].payload| <= |Payloads(segs)|
            && Payloads(segs)[at..at + |segs[i].payload|] == segs[i].payload
  {
    var n := |segs| - 1;
    var p, q := Payloads(segs), Payloads(segs[..n]);
    if i < n {
      PayloadInPlace(segs[..n], i);
      assert segs[..n][..i] == segs[..i];
      var at := |Payloads(segs[..i])|;
      assert p[0..|q|] == q;
      SubSlice(p, 0, |q|, at, at + |segs[i].payload|);
    }
  }

  // A slice that lies in one of three parts.
  lemma SliceOfMiddle(a: seq<byte>, m: seq<byte>, c: seq<byte>, from: nat, to: nat)
    requires from <= to <= |m|
    ensures (a + m + c)[|a| + from..|a| + to] == m[from..to]
  {
  }

  lemma SliceOfEnd(a: seq<byte>, c: seq<byte>, from: nat, to: nat)
    requires from <= to <= |c|
    ensures (a + c)[|a| + from..|a| + to] == c[from..to]
  {
  }

  predicate SegmentFits(s: Segment) {
    s.flags < 0x1_0000_0000 && s.vaddr < U64_LIMIT && s.memsz < U64_LIMIT
  }

  lemma {:induction false} ProgramIsWritten(entry: nat, segs: seq<Segment>)
    requires |segs| < 0x1_0000 && entry < U64_LIMIT && forall i :: 0 <= i < |segs| ==> SegmentFits(segs[i])
    requires |WriteProgram(entry, segs)| < U64_LIMIT
    ensures Written(WriteProgram(entry, segs), HeadFor(entry, |segs|), RowsFor(segs))
  {
    var b, h, rows := WriteProgram(entry, segs), HeadFor(entry, |segs|), RowsFor(segs);
    assert b[..64] == HeadBytes(h) by { hide HeadBytes, TableBytes, Payloads, RowBytes; }
    hide HeadBytes, TableBytes, Payloads, RowBytes, WriteProgram, RowWritten;
    forall i | 0 <= i < |rows| ensures RowFits(rows[i]) && RowWritten(b, h, rows[i], i) {
      RowOfProgram(entry, segs, i);
    }
  }

  lemma RowOfProgram(entry: nat, segs: seq<Segment>, i: nat)
    requires |segs| < 0x1_0000 && entry < U64_LIMIT && i < |segs| && SegmentFits(segs[i])
    requires |WriteProgram(entry, segs)| < U64_LIMIT
    ensures RowFits(RowsFor(segs)[i])
    ensures RowWritten(WriteProgram(entry, segs), HeadFor(entry, |segs|), RowsFor(segs)[i], i)
  {
    hide *;
    var b, h, rows := WriteProgram(entry, segs), HeadFor(entry, |segs|), RowsFor(segs);
    ProgramIs(entry, segs);
    PayloadInPlace(segs, i);
    RowInTable(rows, i);
    SliceOfMiddle(HeadBytes(h), TableBytes(rows), Payloads(segs), 56 * i, 56 * i + 56);
    PlaceOfRow(entry, segs, i);
    ItsRow(b, h, rows[i], i);
  }

  lemma ProgramIs(entry: nat, segs: seq<Segment>)
    requires |segs| < 0x1_0000 && entry < U64_LIMIT
    ensures HeadFits(HeadFor(entry, |segs|)) && HeadFor(entry, |segs|).entry == entry
    ensures WriteProgram(entry, segs)
         == HeadBytes(HeadFor(entry, |segs|)) + TableBytes(RowsFor(segs)) + Payloads(segs)
  {
    hide HeadBytes, TableBytes, Payloads, RowsFor;
  }

  lemma PlaceOfRow(entry: nat, segs: seq<Segment>, i: nat)
    requires |segs| < 0x1_0000 && i < |segs| && SegmentFits(segs[i])
    requires |Payloads(segs[..i])| + |segs[i].payload| <= |Payloads(segs)|
    requires 64 + 56 * |segs| + |Payloads(segs)| < U64_LIMIT
    ensures RowPlace(HeadFor(entry, |segs|), i) == 64 + 56 * i && RowFits(RowsFor(segs)[i])
  {
    hide Payloads;
  }

  lemma ItsRow(b: seq<byte>, h: Head, r: Row, i: nat)
    requires RowPlace(h, i) + 56 <= |b| && b[RowPlace(h, i)..RowPlace(h, i) + 56] == RowBytes(r)
    ensures RowWritten(b, h, r, i)
  {
    hide RowBytes, RowPlace;
  }

  // The payload is found where the row says.
  lemma PayloadOfProgram(entry: nat, segs: seq<Segment>, i: nat)
    requires |segs| < 0x1_0000 && entry < U64_LIMIT && i < |segs|
    ensures RowOfSegment(WriteProgram(entry, segs), RowsFor(segs)[i], segs[i])
  {
    hide *;
    var at := |Payloads(segs[..i])|;
    ProgramIs(entry, segs);
    var front := HeadBytes(HeadFor(entry, |segs|)) + TableBytes(RowsFor(segs));
    PayloadInPlace(segs, i);
    SliceOfEnd(front, Payloads(segs), at, at + |segs[i].payload|);
    RowHolds(front + Payloads(segs), segs, i);
  }

  lemma RowHolds(b: seq<byte>, segs: seq<Segment>, i: nat)
    requires i < |segs|
    requires var at := 64 + 56 * |segs| + |Payloads(segs[..i])|;
             at + |segs[i].payload| <= |b| && b[at..at + |segs[i].payload|] == segs[i].payload
    ensures RowOfSegment(b, RowsFor(segs)[i], segs[i])
  {
    hide Payloads;
  }

  // What a segment becomes in memory: its payload and zeros behind it.
  function Image(s: Segment): LoadedSegment
    requires |s.payload| <= s.memsz
  {
    LoadedSegment(s.vaddr, |s.payload|, s.memsz, s.flags, s.payload + Zeros(s.memsz - |s.payload|))
  }

  // The segments that occupy memory.
  function Loaded(segs: seq<Segment>): seq<Segment> {
    if segs == [] then []
    else Loaded(segs[..|segs| - 1]) + (if segs[|segs| - 1].memsz > 0 then [segs[|segs| - 1]] else [])
  }

  // Every kept row of a written program has the payload of its segment.
  ghost predicate RowOfSegment(b: seq<byte>, r: Row, s: Segment) {
    && r.flags == s.flags && r.vaddr == s.vaddr && r.filesz == |s.payload| && r.memsz == s.memsz
    && r.offset + r.filesz <= |b| && b[r.offset..r.offset + r.filesz] == s.payload
  }

  lemma {:induction false} KeptAreLoaded(b: seq<byte>, rows: seq<Row>, segs: seq<Segment>)
    requires |rows| == |segs|
    requires forall i :: 0 <= i < |rows| ==> rows[i].kind == 1 && RowOfSegment(b, rows[i], segs[i])
    ensures |Kept(rows)| == |Loaded(segs)|
    ensures forall k :: 0 <= k < |Kept(rows)| ==> RowOfSegment(b, Kept(rows)[k], Loaded(segs)[k])
  {
    if rows != [] {
      assert forall i :: 0 <= i < |rows| - 1 ==> RowOfSegment(b, rows[i], segs[i]);
      KeptAreLoaded(b, rows[..|rows| - 1], segs[..|segs| - 1]);
      assert RowOfSegment(b, rows[|rows| - 1], segs[|segs| - 1]);
    }
  }

  lemma ProgramKept(entry: nat, segs: seq<Segment>)
    requires |segs| < 0x1_0000 && entry < U64_LIMIT
    ensures var (b, ks, ls) := (WriteProgram(entry, segs), Kept(RowsFor(segs)), Loaded(segs));
            |ks| == |ls| && forall k :: 0 <= k < |ks| ==> RowOfSegment(b, ks[k], ls[k])
  {
    var b, rows := WriteProgram(entry, segs), RowsFor(segs);
    hide WriteProgram, Payloads, RowOfSegment, Kept, Loaded;
    forall i | 0 <= i < |rows| ensures rows[i].kind == 1 && RowOfSegment(b, rows[i], segs[i]) {
      PayloadOfProgram(entry, segs, i);
    }
    KeptAreLoaded(b, rows, segs);
  }

  // A program written to a file is accepted exactly if it is good, and then parsing
  // the file gives the program back: its entry point and, for each segment that
  // occupies memory, its flags, its place and its payload.
  method WriteThenParse(entry: nat, segs: seq<Segment>) returns (r: Result<ElfFile, ElfError>)
    requires |segs| < 0x1_0000 && entry < U64_LIMIT && forall i :: 0 <= i < |segs| ==> SegmentFits(segs[i])
    requires |WriteProgram(entry, segs)| < U64_LIMIT
    ensures r.Ok? <==> GoodProgram(|WriteProgram(entry, segs)|, entry, RowsFor(segs))
    ensures r.Ok? ==>
      && r.value.entryPoint == entry && |r.value.segments| == |Loaded(segs)|
      && forall k :: 0 <= k < |Loaded(segs)| ==>
           |Loaded(segs)[k].payload| <= Loaded(segs)[k].memsz && r.value.segments[k] == Image(Loaded(segs)[k])
  {
    hide WriteProgram, RowsFor, GoodProgram, ImageOfRows, Written, Loaded, Image, SegmentFits, Zeros;
    var b := WriteProgram(entry, segs);
    ProgramIsWritten(entry, segs);
    r := ParseWritten(b, HeadFor(entry, |segs|), RowsFor(segs));
    if r.Ok? { ProgramImage(entry, segs, r.value); }
  }

  lemma ProgramImage(entry: nat, segs: seq<Segment>, elf: ElfFile)
    requires |segs| < 0x1_0000 && entry < U64_LIMIT
    requires ImageOfRows(WriteProgram(entry, segs), entry, RowsFor(segs), elf)
    ensures elf.entryPoint == entry && |elf.segments| == |Loaded(segs)|
    ensures forall k :: 0 <= k < |Loaded(segs)| ==>
      |Loaded(segs)[k].payload| <= Loaded(segs)[k].memsz && elf.segments[k] == Image(Loaded(segs)[k])
  {
    var b, rows := WriteProgram(entry, segs), RowsFor(segs);
    ProgramKept(entry, segs);
    hide WriteProgram, RowsFor, Kept, Loaded;
    forall k | 0 <= k < |Loaded(segs)|
      ensures |Loaded(segs)[k].payload| <= Loaded(segs)[k].memsz && elf.segments[k] == Image(Loaded(segs)[k])
    {
      assert RowOfSegment(b, Kept(rows)[k], Loaded(segs)[k]);
      SameSegment(b, Kept(rows)[k], Loaded(segs)[k]);
    }
  }

  lemma SameSegment(b: seq<byte>, r: Row, s: Segment)
    requires RowOfSegment(b, r, s) && RowOk(r, |b|)
    ensures |s.payload| <= s.memsz && SegmentFor(b, r) == Image(s)
  {
  }
}
