// Acceptance of ELF images (kernel/src/elf.rs).
module Elf {
  import opened Bytes
  import opened Wrappers

  const EHDR_SIZE: nat := 64
  const PHDR_SIZE: nat := 56
  const PT_LOAD: nat := 1
  const USER_ADDR_MIN: nat := 0x4000_0000
  const USER_ADDR_MAX: nat := 0x7000_0000
  const MAX_IMAGE_BYTES: nat := 16 * 1024 * 1024
  const MAX_PROGRAM_HEADERS: nat := 128
  const U64_LIMIT: nat := 0x1_0000_0000_0000_0000

  datatype ElfError =
    | FileTooSmall | InvalidMagic | Not64Bit | NotLittleEndian | NotExecutable | InvalidMachine
    | HeadersOutOfBounds | SegmentOutOfBounds | InvalidSegmentBounds | KernelAddressViolation
    | OverlappingSegments | InvalidEntryPoint | NoLoadableSegments | ImageTooLarge

  datatype LoadedSegment = LoadedSegment(vaddr: nat, filesz: nat, memsz: nat, flags: nat, data: seq<byte>)

  datatype ElfFile = ElfFile(entryPoint: nat, segments: seq<LoadedSegment>)

  // The fields of a program header that the parser reads.
  datatype Phdr = Phdr(kind: nat, flags: nat, offset: nat, vaddr: nat, filesz: nat, memsz: nat)

  predicate Executable(flags: nat) { flags % 2 == 1 }
  predicate Writable(flags: nat) { flags / 2 % 2 == 1 }

  function PageFloor(a: nat): nat { a - a % 4096 }
  function PageCeil(a: nat): nat { PageFloor(a + 4095) }

  // ------------------------------------------------------------ the file format

  function PhOff(b: seq<byte>): nat requires |b| >= EHDR_SIZE { LeAt(b, 32, 8) }
  function PhEntSize(b: seq<byte>): nat requires |b| >= EHDR_SIZE { LeAt(b, 54, 2) }
  function PhNum(b: seq<byte>): nat requires |b| >= EHDR_SIZE { LeAt(b, 56, 2) }
  function Entry(b: seq<byte>): nat requires |b| >= EHDR_SIZE { LeAt(b, 24, 8) }

  // A table of rows that lies within a file.
  predicate RowsFit(off: nat, size: nat, rows: nat, limit: nat) {
    size >= PHDR_SIZE && off + rows * size <= limit
  }

  lemma {:induction false} RowInside(i: nat, rows: nat, size: nat)
    requires i < rows
    ensures i * size + size <= rows * size
    decreases rows
  {
    if i + 1 < rows {
      RowInside(i, rows - 1, size);
      assert rows * size == (rows - 1) * size + size;
    }
  }

  function RowAt(off: nat, size: nat, rows: nat, limit: nat, i: nat): (at: nat)
    requires RowsFit(off, size, rows, limit) && i < rows
    ensures at + PHDR_SIZE <= limit
  {
    RowInside(i, rows, size);
    off + i * size
  }

  predicate HeadersFit(b: seq<byte>)
    requires |b| >= EHDR_SIZE
  {
    RowsFit(PhOff(b), PhEntSize(b), PhNum(b), |b|)
  }

  // Where the i-th header begins.
  function HeaderOffset(b: seq<byte>, i: nat): (at: nat)
    requires |b| >= EHDR_SIZE && HeadersFit(b) && i < PhNum(b)
    ensures at + PHDR_SIZE <= |b|
  {
    RowAt(PhOff(b), PhEntSize(b), PhNum(b), |b|, i)
  }

  function PhdrIn(b: seq<byte>, at: nat): Phdr
    requires at + PHDR_SIZE <= |b|
  {
    Phdr(LeAt(b, at, 4), LeAt(b, at + 4, 4), LeAt(b, at + 8, 8), LeAt(b, at + 16, 8), LeAt(b, at + 32, 8),
         LeAt(b, at + 40, 8))
  }

  function PhdrAt(b: seq<byte>, i: nat): Phdr
    requires |b| >= EHDR_SIZE && HeadersFit(b) && i < PhNum(b)
  {
    PhdrIn(b, HeaderOffset(b, i))
  }

  // ------------------------------------------------------- what is acceptable

  predicate HasMagic(b: seq<byte>) {
    |b| >= EHDR_SIZE && b[0] == 0x7F && b[1] == 0x45 && b[2] == 0x4C && b[3] == 0x46
  }

  predicate IsExecutable64(b: seq<byte>) {
    && HasMagic(b) && b[4] == 2 && b[5] == 1 && LeAt(b, 16, 2) == 2 && LeAt(b, 18, 2) == 62
  }

  // A loadable header names bytes of the file and a user address range.
  predicate InRange(b: seq<byte>, h: Phdr) {
    && h.filesz <= h.memsz && h.offset + h.filesz <= |b|
    && USER_ADDR_MIN <= h.vaddr && h.vaddr + h.memsz <= USER_ADDR_MAX
  }

  predicate Occupies(h: Phdr) { h.kind == PT_LOAD && h.memsz > 0 }

  // The headers among the first `n` that occupy memory, in file order.
  function Loads(b: seq<byte>, n: nat): seq<Phdr>
    requires |b| >= EHDR_SIZE && HeadersFit(b) && n <= PhNum(b)
  {
    if n == 0 then []
    else if Occupies(PhdrAt(b, n - 1)) then Loads(b, n - 1) + [PhdrAt(b, n - 1)]
    else Loads(b, n - 1)
  }

  // Bytes of whole pages that a header occupies.
  function Mapped(h: Phdr): nat { PageCeil(h.memsz + h.vaddr % 4096) }

  function Footprint(hs: seq<Phdr>): (n: nat)
    ensures hs == [] ==> n == 0
  {
    if hs == [] then 0 else Footprint(hs[..|hs| - 1]) + Mapped(hs[|hs| - 1])
  }

  // Two headers share no page.
  predicate PagesApart(g: Phdr, h: Phdr) {
    PageCeil(g.vaddr + g.memsz) <= PageFloor(h.vaddr) || PageCeil(h.vaddr + h.memsz) <= PageFloor(g.vaddr)
  }

  predicate AllApart(hs: seq<Phdr>) {
    forall i, j :: 0 <= i < j < |hs| ==> PagesApart(hs[i], hs[j])
  }

  predicate Carries(h: Phdr, entry: nat) {
    Executable(h.flags) && h.vaddr <= entry < h.vaddr + h.memsz
  }

  predicate Acceptable(b: seq<byte>) {
    && IsExecutable64(b) && PhNum(b) <= MAX_PROGRAM_HEADERS && HeadersFit(b)
    && (forall i :: 0 <= i < PhNum(b) && PhdrAt(b, i).kind == PT_LOAD ==> InRange(b, PhdrAt(b, i)))
    && var hs := Loads(b, PhNum(b));
       && Footprint(hs) <= MAX_IMAGE_BYTES && hs != [] && AllApart(hs)
       && exists i :: 0 <= i < |hs| && Carries(hs[i], Entry(b))
  }

  // ----------------------------------------------------- why a file is rejected

  // The fixed header and the place of the header table are fine.
  predicate HeaderOk(b: seq<byte>) {
    IsExecutable64(b) && PhNum(b) <= MAX_PROGRAM_HEADERS && HeadersFit(b)
  }

  // The first fault of the fixed header, in the order of the checks.
  predicate HeaderFault(b: seq<byte>, e: ElfError) {
    match e
    case FileTooSmall => |b| < EHDR_SIZE
    case InvalidMagic => |b| >= EHDR_SIZE && !HasMagic(b)
    case Not64Bit => HasMagic(b) && b[4] != 2
    case NotLittleEndian => HasMagic(b) && b[4] == 2 && b[5] != 1
    case NotExecutable => HasMagic(b) && b[4] == 2 && b[5] == 1 && LeAt(b, 16, 2) != 2
    case InvalidMachine => HasMagic(b) && b[4] == 2 && b[5] == 1 && LeAt(b, 16, 2) == 2 && LeAt(b, 18, 2) != 62
    case ImageTooLarge => IsExecutable64(b) && PhNum(b) > MAX_PROGRAM_HEADERS
    case HeadersOutOfBounds => IsExecutable64(b) && PhNum(b) <= MAX_PROGRAM_HEADERS && !HeadersFit(b)
    case _ => false
  }

  // The first fault of one loadable header by itself.
  predicate RangeFault(b: seq<byte>, h: Phdr, e: ElfError) {
    match e
    case InvalidSegmentBounds => h.memsz < h.filesz
    case SegmentOutOfBounds => h.filesz <= h.memsz && h.offset + h.filesz > |b|
    case KernelAddressViolation =>
      && h.filesz <= h.memsz && h.offset + h.filesz <= |b|
      && (h.vaddr < USER_ADDR_MIN || h.vaddr + h.memsz > USER_ADDR_MAX)
    case _ => false
  }

  // The first `n` headers are in range and within the budget.
  predicate LoadsOk(b: seq<byte>, n: nat)
    requires |b| >= EHDR_SIZE && HeadersFit(b) && n <= PhNum(b)
  {
    && (forall i :: 0 <= i < n && PhdrAt(b, i).kind == PT_LOAD ==> InRange(b, PhdrAt(b, i)))
    && Footprint(Loads(b, n)) <= MAX_IMAGE_BYTES
  }

  // The headers before the i-th are fine and that one is not.
  predicate StopsAt(b: seq<byte>, i: nat, e: ElfError)
    requires |b| >= EHDR_SIZE && HeadersFit(b) && i < PhNum(b)
  {
    && LoadsOk(b, i) && PhdrAt(b, i).kind == PT_LOAD
    && if e.ImageTooLarge? then InRange(b, PhdrAt(b, i)) && Footprint(Loads(b, i + 1)) > MAX_IMAGE_BYTES
       else RangeFault(b, PhdrAt(b, i), e)
  }

  predicate LoadFault(b: seq<byte>, e: ElfError)
    requires |b| >= EHDR_SIZE && HeadersFit(b)
  {
    exists i :: 0 <= i < PhNum(b) && StopsAt(b, i, e)
  }

  // The fault of the collected headers taken together.
  predicate WholeFault(hs: seq<Phdr>, entry: nat, e: ElfError) {
    match e
    case NoLoadableSegments => hs == []
    case OverlappingSegments => hs != [] && !AllApart(hs)
    case InvalidEntryPoint => hs != [] && AllApart(hs) && forall i :: 0 <= i < |hs| ==> !Carries(hs[i], entry)
    case _ => false
  }

  // What the parser finds first.
  predicate Rejected(b: seq<byte>, e: ElfError) {
    || HeaderFault(b, e)
    || (HeaderOk(b) && LoadFault(b, e))
    || (HeaderOk(b) && LoadsOk(b, PhNum(b)) && WholeFault(Loads(b, PhNum(b)), Entry(b), e))
  }

  // The memory image of a header: its file bytes, then zeros.
  function SegmentOf(b: seq<byte>, h: Phdr): LoadedSegment
    requires InRange(b, h)
  {
    LoadedSegment(h.vaddr, h.filesz, h.memsz, h.flags, b[h.offset..h.offset + h.filesz] + Zeros(h.memsz - h.filesz))
  }

  // `elf` is the parsed form of the acceptable file `b`.
  predicate ImageOf(b: seq<byte>, elf: ElfFile) {
    && Acceptable(b) && elf.entryPoint == Entry(b)
    && |elf.segments| == |Loads(b, PhNum(b))|
    && forall k :: 0 <= k < |elf.segments| ==>
         && InRange(b, Loads(b, PhNum(b))[k])
         && elf.segments[k] == SegmentOf(b, Loads(b, PhNum(b))[k])
  }

  // ----------------------------------------------------------------- lemmas

  lemma {:induction false} LoadsInRange(b: seq<byte>, n: nat)
    requires |b| >= EHDR_SIZE && HeadersFit(b) && n <= PhNum(b)
    requires forall i :: 0 <= i < n && PhdrAt(b, i).kind == PT_LOAD ==> InRange(b, PhdrAt(b, i))
    ensures forall k :: 0 <= k < |Loads(b, n)| ==> InRange(b, Loads(b, n)[k]) && Occupies(Loads(b, n)[k])
  {
    if n > 0 { LoadsInRange(b, n - 1); }
  }

  lemma FootprintSnoc(hs: seq<Phdr>, h: Phdr)
    ensures Footprint(hs + [h]) == Footprint(hs) + Mapped(h)
  {
    assert (hs + [h])[..|hs|] == hs;
  }

  // More headers never occupy less.
  lemma {:induction false} FootprintGrows(b: seq<byte>, m: nat, n: nat)
    requires |b| >= EHDR_SIZE && HeadersFit(b) && m <= n <= PhNum(b)
    ensures Footprint(Loads(b, m)) <= Footprint(Loads(b, n))
    decreases n - m
  {
    hide LeAt, Footprint, PhdrAt, PageCeil;
    if m < n {
      FootprintSnoc(Loads(b, m), PhdrAt(b, m));
      FootprintGrows(b, m + 1, n);
    }
  }

  // Two faults of header checks are one.
  lemma OneHeaderFault(b: seq<byte>, e: ElfError, f: ElfError)
    requires HeaderFault(b, e)
    ensures !HeaderOk(b) && (HeaderFault(b, f) ==> e == f)
  {
    hide LeAt, HeadersFit;
  }

  lemma StopsOnce(b: seq<byte>, i: nat, e: ElfError, j: nat, f: ElfError)
    requires |b| >= EHDR_SIZE && HeadersFit(b) && i < PhNum(b) && StopsAt(b, i, e)
    requires i < j <= PhNum(b)
    ensures !LoadsOk(b, j) && (j < PhNum(b) ==> !StopsAt(b, j, f))
  {
    FootprintGrows(b, i + 1, j);
    hide LeAt, Footprint, PhdrAt, PageCeil, Loads, HeadersFit;
  }

  lemma SameStop(b: seq<byte>, i: nat, e: ElfError, f: ElfError)
    requires |b| >= EHDR_SIZE && HeadersFit(b) && i < PhNum(b) && StopsAt(b, i, e) && StopsAt(b, i, f)
    ensures e == f
  {
    hide LeAt, Footprint, PhdrAt, PageCeil, Loads, HeadersFit, LoadsOk;
  }

  lemma OneLoadFault(b: seq<byte>, e: ElfError, f: ElfError)
    requires HeaderOk(b) && LoadFault(b, e)
    ensures !LoadsOk(b, PhNum(b)) && (LoadFault(b, f) ==> e == f)
  {
    hide PhNum, HeadersFit, LoadsOk, StopsAt;
    var i :| 0 <= i < PhNum(b) && StopsAt(b, i, e);
    StopsOnce(b, i, e, PhNum(b), f);
    if LoadFault(b, f) {
      var j :| 0 <= j < PhNum(b) && StopsAt(b, j, f);
      if i < j {
        StopsOnce(b, i, e, j, f);
      } else if j < i {
        StopsOnce(b, j, f, i, e);
      } else {
        SameStop(b, i, e, f);
      }
    }
  }

  lemma WholeOnce(hs: seq<Phdr>, entry: nat, e: ElfError, f: ElfError)
    requires WholeFault(hs, entry, e) && WholeFault(hs, entry, f)
    ensures e == f
  {
    hide AllApart, Carries;
  }

  // An acceptable file passes every check.
  lemma AcceptableIsFine(b: seq<byte>)
    requires Acceptable(b)
    ensures HeaderOk(b) && LoadsOk(b, PhNum(b))
    ensures forall e :: !WholeFault(Loads(b, PhNum(b)), Entry(b), e)
  {
    hide LeAt, Footprint, AllApart, PhdrAt, HeadersFit, Carries, Loads, InRange;
  }

  // A file is rejected for one reason, and never when it is acceptable.
  lemma OneFault(b: seq<byte>, e: ElfError, f: ElfError)
    requires Rejected(b, e)
    ensures !Acceptable(b) && (Rejected(b, f) ==> e == f)
  {
    hide LoadFault, LoadsOk, HeaderFault, WholeFault, Acceptable, Loads, PhNum, Entry, HeadersFit, LeAt;
    if HeaderFault(b, e) { OneHeaderFault(b, e, f); }
    if HeaderFault(b, f) { OneHeaderFault(b, f, e); }
    if HeaderOk(b) {
      if LoadFault(b, e) { OneLoadFault(b, e, f); }
      if LoadFault(b, f) { OneLoadFault(b, f, e); }
    }
    if Acceptable(b) { AcceptableIsFine(b); }
    if Rejected(b, f) && HeaderOk(b) && !LoadFault(b, e) {
      WholeOnce(Loads(b, PhNum(b)), Entry(b), e, f);
    }
  }

  // ------------------------------------------------------------------ parser

  // Check the fixed header.
  method CheckHeader(b: seq<byte>) returns (r: Option<ElfError>)
    ensures r.None? <==> HeaderOk(b)
    ensures forall e :: r == Some(e) <==> HeaderFault(b, e)
  {
    hide LeAt;
    if |b| < EHDR_SIZE { return Some(FileTooSmall); }
    if b[0] != 0x7F || b[1] != 0x45 || b[2] != 0x4C || b[3] != 0x46 { return Some(InvalidMagic); }
    if b[4] != 2 { return Some(Not64Bit); }
    if b[5] != 1 { return Some(NotLittleEndian); }
    if LeAt(b, 16, 2) != 2 { return Some(NotExecutable); }
    if LeAt(b, 18, 2) != 62 { return Some(InvalidMachine); }
    if PhNum(b) > MAX_PROGRAM_HEADERS { return Some(ImageTooLarge); }
    if PhEntSize(b) < PHDR_SIZE { return Some(HeadersOutOfBounds); }
    if PhOff(b) + PhNum(b) * PhEntSize(b) > |b| { return Some(HeadersOutOfBounds); }
    return None;
  }

  // Collect the loadable headers and check each of them and their total size.
  method CollectLoads(b: seq<byte>) returns (r: Result<seq<Phdr>, ElfError>)
    requires HeaderOk(b) && |b| < U64_LIMIT
    ensures r.Ok? <==> LoadsOk(b, PhNum(b))
    ensures r.Ok? ==> r.value == Loads(b, PhNum(b))
    ensures forall e :: r == Err(e) <==> LoadFault(b, e)
  {
    r := FirstLoads(b);
    hide *;
    if r.Err? { OneLoadFault(b, r.error, r.error); }
    forall e | LoadFault(b, e)
      ensures r == Err(e)
    {
      OneLoadFault(b, e, if r.Err? then r.error else e);
    }
  }

  method FirstLoads(b: seq<byte>) returns (r: Result<seq<Phdr>, ElfError>)
    requires HeaderOk(b) && |b| < U64_LIMIT
    ensures r.Ok? ==> LoadsOk(b, PhNum(b)) && r.value == Loads(b, PhNum(b))
    ensures r.Err? ==> LoadFault(b, r.error)
  {
    hide LeAt, Footprint, PhdrAt, PageCeil, HeadersFit;
    var found: seq<Phdr> := [];
    var imageBytes := 0;
    var i := 0;
    while i < PhNum(b)
      invariant 0 <= i <= PhNum(b)
      invariant found == Loads(b, i) && imageBytes == Footprint(found) && LoadsOk(b, i)
    {
      var h := PhdrAt(b, i);
      if h.kind == PT_LOAD {
        if h.memsz < h.filesz { assert StopsAt(b, i, InvalidSegmentBounds); return Err(InvalidSegmentBounds); }
        if h.offset + h.filesz > |b| { assert StopsAt(b, i, SegmentOutOfBounds); return Err(SegmentOutOfBounds); }
        if h.vaddr + h.memsz >= U64_LIMIT || h.vaddr < USER_ADDR_MIN || h.vaddr + h.memsz > USER_ADDR_MAX {
          assert StopsAt(b, i, KernelAddressViolation);
          return Err(KernelAddressViolation);
        }
        if h.memsz != 0 {
          FootprintSnoc(found, h);
          imageBytes := imageBytes + Mapped(h);
          if imageBytes > MAX_IMAGE_BYTES {
            assert StopsAt(b, i, ImageTooLarge);
            return Err(ImageTooLarge);
          }
          found := found + [h];
        }
      }
      i := i + 1;
    }
    return Ok(found);
  }

  method CheckOverlaps(hs: seq<Phdr>) returns (apart: bool)
    ensures apart <==> AllApart(hs)
  {
    var i := 0;
    while i < |hs|
      invariant 0 <= i <= |hs|
      invariant forall k, j :: 0 <= k < i && k < j < |hs| ==> PagesApart(hs[k], hs[j])
    {
      var j := i + 1;
      while j < |hs|
        invariant i < j <= |hs|
        invariant forall k :: i < k < j ==> PagesApart(hs[i], hs[k])
      {
        if PageFloor(hs[i].vaddr) < PageCeil(hs[j].vaddr + hs[j].memsz)
           && PageFloor(hs[j].vaddr) < PageCeil(hs[i].vaddr + hs[i].memsz) {
          return false;
        }
        j := j + 1;
      }
      i := i + 1;
    }
    return true;
  }

  // Accept exactly the acceptable files, give every segment its image, and name
  // the first check that any other file fails.
  method ParseElf(b: seq<byte>) returns (r: Result<ElfFile, ElfError>)
    requires |b| < U64_LIMIT
    ensures r.Ok? <==> Acceptable(b)
    ensures r.Ok? ==> ImageOf(b, r.value)
    ensures forall e :: r == Err(e) <==> Rejected(b, e)
  {
    var c := CollectAll(b);
    if c.Ok? {
      var elf := BuildImage(b, c.value);
      r := Ok(elf);
    } else {
      r := Err(c.error);
    }
    hide *;
    forall e | Rejected(b, e)
      ensures !Acceptable(b) && r == Err(e)
    {
      OneFault(b, e, if r.Err? then r.error else e);
    }
  }

  // All checks, in order.
  method CollectAll(b: seq<byte>) returns (r: Result<seq<Phdr>, ElfError>)
    requires |b| < U64_LIMIT
    ensures r.Ok? ==> Acceptable(b) && r.value == Loads(b, PhNum(b))
    ensures r.Err? ==> Rejected(b, r.error)
  {
    hide LeAt, Footprint, AllApart, PhdrAt, HeadersFit, Carries, LoadFault, HeaderFault;
    var bad := CheckHeader(b);
    if bad.Some? { return Err(bad.value); }
    var c := CollectLoads(b);
    if c.Err? { return Err(c.error); }
    var hs := c.value;
    if hs == [] { return Err(NoLoadableSegments); }
    var apart := CheckOverlaps(hs);
    if !apart { return Err(OverlappingSegments); }
    if !exists i :: 0 <= i < |hs| && Carries(hs[i], Entry(b)) { return Err(InvalidEntryPoint); }
    return Ok(hs);
  }

  method BuildImage(b: seq<byte>, hs: seq<Phdr>) returns (elf: ElfFile)
    requires Acceptable(b) && hs == Loads(b, PhNum(b))
    ensures ImageOf(b, elf)
  {
    hide LeAt, Footprint, AllApart, PhdrAt, HeadersFit, Zeros, Carries;
    LoadsInRange(b, PhNum(b));
    var segments: seq<LoadedSegment> := [];
    var i := 0;
    while i < |hs|
      invariant 0 <= i <= |hs| && |segments| == i
      invariant forall k :: 0 <= k < i ==> InRange(b, hs[k]) && segments[k] == SegmentOf(b, hs[k])
    {
      var h := hs[i];
      segments := segments + [LoadedSegment(h.vaddr, h.filesz, h.memsz, h.flags,
        b[h.offset..h.offset + h.filesz] + Zeros(h.memsz - h.filesz))];
      i := i + 1;
    }
    return ElfFile(Entry(b), segments);
  }
}
