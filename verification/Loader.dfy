// Loading an accepted image into a fresh address space
// (kernel/src/app_registry.rs over kernel/src/memory.rs).
module Loader {
  import opened Bytes
  import opened Wrappers
  import opened AddressSpace
  import opened M = Memory
  import opened UserMemory
  import opened Lifecycle
  import Elf
  import EF = ElfFormat
  import FP = FramePool

  const USER_STACK_TOP: nat := 0x7FFF_0000

  datatype SpawnError = BadImage(elf: Elf.ElfError) | NoAddressSpace | NoMemory(mem: MemError)

  // ------------------------------------------------- pages of a loaded image

  // The pages that loading a segment maps.
  ghost function SegPages(seg: Elf.LoadedSegment): set<Page> {
    Range(RegionStart(seg.vaddr), 0, RegionPages(seg.vaddr, seg.memsz))
  }

  // The parser's footprint of a header is what the loader maps for it.
  lemma FootprintMatches(h: Elf.Phdr)
    requires h.memsz > 0
    ensures Elf.Mapped(h) == RegionPages(h.vaddr, h.memsz) * PAGE
    ensures RegionStart(h.vaddr) == Elf.PageFloor(h.vaddr)
    ensures RegionStart(h.vaddr) + RegionPages(h.vaddr, h.memsz) * PAGE == Elf.PageCeil(h.vaddr + h.memsz)
  {
  }

  lemma AddressInRegion(virt: nat, len: nat, v: nat)
    requires InBounds(virt, len) && virt <= v < virt + len
    ensures InUser(v) && PageOf(v) in Range(RegionStart(virt), 0, RegionPages(virt, len))
    ensures RegionStart(virt) <= v < At(RegionStart(virt), RegionPages(virt, len))
  {
    var k := (v - RegionStart(virt)) / PAGE;
    assert k < RegionPages(virt, len);
    SamePage(v, At(RegionStart(virt), k));
  }

  // Page-disjoint headers have disjoint page sets.
  lemma ApartPages(g: Elf.Phdr, h: Elf.Phdr)
    requires Elf.PagesApart(g, h) && g.memsz > 0 && h.memsz > 0
    requires InBounds(g.vaddr, g.memsz) && InBounds(h.vaddr, h.memsz)
    ensures Range(RegionStart(g.vaddr), 0, RegionPages(g.vaddr, g.memsz))
         !! Range(RegionStart(h.vaddr), 0, RegionPages(h.vaddr, h.memsz))
  {
    FootprintMatches(g);
    FootprintMatches(h);
    RegionIsUserRange(g.vaddr, g.memsz);
    RegionIsUserRange(h.vaddr, h.memsz);
    forall i, j | 0 <= i < RegionPages(g.vaddr, g.memsz) && 0 <= j < RegionPages(h.vaddr, h.memsz)
      ensures PageOf(At(RegionStart(g.vaddr), i)) != PageOf(At(RegionStart(h.vaddr), j))
    {
      if PageOf(At(RegionStart(g.vaddr), i)) == PageOf(At(RegionStart(h.vaddr), j)) {
        PageOfIsInjective(At(RegionStart(g.vaddr), i), At(RegionStart(h.vaddr), j));
      }
    }
  }

  // --------------------------------------------------- contents of a segment

  // Every byte of the segment is what the file said, in a page that the address
  // space owns and that grants what the segment asks for.
  ghost predicate SegLoaded(m: AddressSpace.Memory, sp: Space, seg: Elf.LoadedSegment) {
    forall v :: seg.vaddr <= v < seg.vaddr + seg.memsz ==>
      && InOwnPage(sp, v)
      && AccessFor(Grants(sp.leaf[PageOf(v)]), v, Elf.Writable(seg.flags))
      && ByteAt(m, sp, v) == Some(Padded(seg.data, v - seg.vaddr))
  }

  // What a process finds where a segment was loaded: it can read every byte, and
  // what it reads is the segment's; it can write exactly if the segment has flag 2;
  // and it can fetch exactly if not, or in the first two pages of user space.
  ghost predicate SegSeen(m: AddressSpace.Memory, root: nat, seg: Elf.LoadedSegment) {
    |seg.data| == seg.memsz && forall v :: seg.vaddr <= v < seg.vaddr + seg.memsz ==> ByteSeen(m, root, seg, v)
  }

  ghost predicate ByteSeen(m: AddressSpace.Memory, root: nat, seg: Elf.LoadedSegment, v: nat)
    requires seg.vaddr <= v < seg.vaddr + |seg.data|
  {
    UserByte(m, root, v) == Some(seg.data[v - seg.vaddr]) && Opens(m, root, v, seg.flags / 2 % 2 == 1)
  }

  lemma LoadedSeen(v: View, cr3: nat, seg: Elf.LoadedSegment)
    requires Good(v) && cr3 in v.spaces && SegLoaded(v.mem, v.spaces[cr3], seg) && |seg.data| == seg.memsz
    ensures SegSeen(v.mem, cr3, seg)
  {
    hide Good, Reach, PageOf, UserByte, ByteAt, AccessFor;
    forall x | seg.vaddr <= x < seg.vaddr + seg.memsz
      ensures ByteSeen(v.mem, cr3, seg, x)
    {
      Seen(v, cr3, x);
      ReadsByte(v, cr3, x, Elf.Writable(seg.flags));
    }
  }

  // The whole program, and one zeroed page of stack.
  ghost predicate ProgramSeen(m: AddressSpace.Memory, root: nat, segs: seq<Elf.LoadedSegment>) {
    && (forall k :: 0 <= k < |segs| ==> SegSeen(m, root, segs[k]))
    && StackSeen(m, root)
  }

  ghost predicate StackSeen(m: AddressSpace.Memory, root: nat) {
    forall v :: USER_STACK_TOP - PAGE <= v < USER_STACK_TOP ==>
      UserByte(m, root, v) == Some(0) && Opens(m, root, v, true)
  }

  // Mapping other pages keeps a loaded segment.
  lemma SegKeptByMapping(t: Sys, u: Sys, cr3: nat, seg: Elf.LoadedSegment, start: nat, n: nat, writable: bool)
    requires cr3 in t.view.spaces && SegLoaded(t.view.mem, t.view.spaces[cr3], seg)
    requires StepOn(t, u, cr3) && Filled(t, u, cr3, start, 0, n, writable)
    requires forall p :: p in t.view.spaces[cr3].leaf && t.view.spaces[cr3].leaf[p].owned ==>
      t.view.spaces[cr3].leaf[p].addr in t.taken
    ensures SegLoaded(u.view.mem, u.view.spaces[cr3], seg)
  {
    forall v | seg.vaddr <= v < seg.vaddr + seg.memsz
      ensures InOwnPage(u.view.spaces[cr3], v)
      ensures u.view.spaces[cr3].leaf[PageOf(v)] == t.view.spaces[cr3].leaf[PageOf(v)]
      ensures ByteAt(u.view.mem, u.view.spaces[cr3], v) == ByteAt(t.view.mem, t.view.spaces[cr3], v)
    {
      assert InOwnPage(t.view.spaces[cr3], v);
      assert PageOf(v) in t.view.spaces[cr3].leaf;
    }
  }

  // Writing elsewhere keeps a loaded segment.
  lemma SegKeptByWrite(m: AddressSpace.Memory, m': AddressSpace.Memory, sp: Space, seg: Elf.LoadedSegment,
      virt: nat, n: nat, bytes: seq<byte>)
    requires SegLoaded(m, sp, seg) && Wrote(m, m', sp, virt, n, bytes)
    requires seg.vaddr + seg.memsz <= virt || virt + n <= seg.vaddr
    ensures SegLoaded(m', sp, seg)
  {
    forall v | seg.vaddr <= v < seg.vaddr + seg.memsz
      ensures ByteAt(m', sp, v) == ByteAt(m, sp, v)
    {
      assert InOwnPage(sp, v);
    }
  }

  // The pages of a segment are owned, with its access.
  ghost predicate MappedFor(sp: Space, seg: Elf.LoadedSegment) {
    forall v :: seg.vaddr <= v < seg.vaddr + seg.memsz ==>
      InOwnPage(sp, v) && AccessFor(Grants(sp.leaf[PageOf(v)]), v, Elf.Writable(seg.flags))
  }

  lemma MappedCanWrite(sp: Space, seg: Elf.LoadedSegment)
    requires MappedFor(sp, seg)
    ensures forall v :: seg.vaddr <= v < seg.vaddr + seg.memsz ==> OwnOrUnmapped(sp, v)
  {
    forall v | seg.vaddr <= v < seg.vaddr + seg.memsz ensures OwnOrUnmapped(sp, v) {
      assert InOwnPage(sp, v);
    }
  }

  lemma FreshPageAccess(t: Sys, u: Sys, cr3: nat, page: nat, v: nat, writable: bool)
    requires cr3 in u.view.spaces && FreshPage(t, u, cr3, page, writable)
    requires InUser(v) && InUser(page) && page / PAGE == v / PAGE && PageOf(v) == PageOf(page)
    ensures InOwnPage(u.view.spaces[cr3], v) && AccessFor(Grants(u.view.spaces[cr3].leaf[PageOf(v)]), v, writable)
  {
    hide PageOf;
    PteAccess(u.view.spaces[cr3].leaf[PageOf(page)].addr, page, v, writable);
  }

  // The region just mapped for a segment consists of owned pages.
  lemma MappedIsOwn(t: Sys, u: Sys, cr3: nat, seg: Elf.LoadedSegment, writable: bool)
    requires InBounds(seg.vaddr, seg.memsz) && seg.memsz > 0
    requires Filled(t, u, cr3, RegionStart(seg.vaddr), 0, RegionPages(seg.vaddr, seg.memsz), writable)
    requires writable == Elf.Writable(seg.flags)
    ensures MappedFor(u.view.spaces[cr3], seg)
  {
    RegionIsUserRange(seg.vaddr, seg.memsz);
    hide Filled, InOwnPage, AccessFor, PageOf, InBounds, RegionStart, RegionPages;
    forall v | seg.vaddr <= v < seg.vaddr + seg.memsz
      ensures InOwnPage(u.view.spaces[cr3], v)
      ensures AccessFor(Grants(u.view.spaces[cr3].leaf[PageOf(v)]), v, writable)
    {
      AddressInRegion(seg.vaddr, seg.memsz, v);
      MappedByte(t, u, cr3, RegionStart(seg.vaddr), RegionPages(seg.vaddr, seg.memsz), v, writable);
    }
  }

  lemma MappedByte(t: Sys, u: Sys, cr3: nat, start: nat, n: nat, v: nat, writable: bool)
    requires Filled(t, u, cr3, start, 0, n, writable) && UserRange(start, n) && start <= v < At(start, n)
    ensures InOwnPage(u.view.spaces[cr3], v)
    ensures AccessFor(Grants(u.view.spaces[cr3].leaf[PageOf(v)]), v, writable)
  {
    hide Filled, InOwnPage, AccessFor, PageOf;
    var k := PageNumber(start, n, v);
    InUserRange(start, n, k);
    FilledFresh(t, u, cr3, start, 0, n, writable, k);
    FreshPageAccess(t, u, cr3, At(start, k), v, writable);
  }

  // ----------------------------------------------------------- frame budget

  ghost function PagesUpTo(segs: seq<Elf.LoadedSegment>, n: nat): nat
    requires n <= |segs|
  {
    if n == 0 then 0 else PagesUpTo(segs, n - 1) + RegionPages(segs[n - 1].vaddr, segs[n - 1].memsz)
  }

  lemma {:induction false} PagesMatchFootprint(b: seq<byte>, elf: Elf.ElfFile, n: nat)
    requires Elf.ImageOf(b, elf) && n <= |elf.segments|
    ensures PagesUpTo(elf.segments, n) * PAGE == Elf.Footprint(Elf.Loads(b, Elf.PhNum(b))[..n])
  {
    hide *;
    LoadsAsSegments(b, elf);
    var hs := Elf.Loads(b, Elf.PhNum(b));
    if n == 0 {
      NoPages(elf.segments, hs);
    } else {
      PagesMatchFootprint(b, elf, n - 1);
      SegmentFootprint(b, elf, n - 1);
      MoreFootprint(elf.segments, hs, n - 1);
    }
  }

  lemma LoadsAsSegments(b: seq<byte>, elf: Elf.ElfFile)
    requires Elf.ImageOf(b, elf)
    ensures |b| >= Elf.EHDR_SIZE && Elf.HeadersFit(b) && |Elf.Loads(b, Elf.PhNum(b))| == |elf.segments|
  {
  }

  lemma SegmentFootprint(b: seq<byte>, elf: Elf.ElfFile, i: nat)
    requires Elf.ImageOf(b, elf) && i < |elf.segments| == |Elf.Loads(b, Elf.PhNum(b))|
    ensures RegionPages(elf.segments[i].vaddr, elf.segments[i].memsz) * PAGE
         == Elf.Mapped(Elf.Loads(b, Elf.PhNum(b))[i])
  {
    SegmentFacts(b, elf, i);
    hide Elf.ImageOf, Elf.Loads;
    FootprintMatches(Elf.Loads(b, Elf.PhNum(b))[i]);
  }

  lemma NoPages(segs: seq<Elf.LoadedSegment>, hs: seq<Elf.Phdr>)
    ensures PagesUpTo(segs, 0) * PAGE == Elf.Footprint(hs[..0])
  {
  }

  lemma MoreFootprint(segs: seq<Elf.LoadedSegment>, hs: seq<Elf.Phdr>, n: nat)
    requires n < |segs| == |hs| && PagesUpTo(segs, n) * PAGE == Elf.Footprint(hs[..n])
    requires RegionPages(segs[n].vaddr, segs[n].memsz) * PAGE == Elf.Mapped(hs[n])
    ensures PagesUpTo(segs, n + 1) * PAGE == Elf.Footprint(hs[..n + 1])
  {
    assert hs[..n + 1] == hs[..n] + [hs[n]];
    Elf.FootprintSnoc(hs[..n], hs[n]);
    hide RegionPages, Elf.Mapped, Elf.Footprint;
  }

  // A whole accepted image needs at most 4096 pages.
  lemma ImageFits(b: seq<byte>, elf: Elf.ElfFile)
    requires Elf.ImageOf(b, elf)
    ensures PagesUpTo(elf.segments, |elf.segments|) <= 4096
  {
    var hs := Elf.Loads(b, Elf.PhNum(b));
    PagesMatchFootprint(b, elf, |elf.segments|);
    assert hs[..|hs|] == hs;
  }

  lemma SegmentFacts(b: seq<byte>, elf: Elf.ElfFile, i: nat)
    requires Elf.ImageOf(b, elf) && i < |elf.segments|
    ensures var h, seg := Elf.Loads(b, Elf.PhNum(b))[i], elf.segments[i];
            && 0 < h.memsz && seg.vaddr == h.vaddr && seg.memsz == h.memsz && |seg.data| == seg.memsz
            && Elf.USER_ADDR_MIN <= seg.vaddr && seg.vaddr + seg.memsz <= Elf.USER_ADDR_MAX
            && InBounds(seg.vaddr, seg.memsz)
  {
    Elf.LoadsInRange(b, Elf.PhNum(b));
  }

  lemma SegmentsApart(b: seq<byte>, elf: Elf.ElfFile, i: nat, j: nat)
    requires Elf.ImageOf(b, elf) && i < j < |elf.segments|
    ensures SegPages(elf.segments[i]) !! SegPages(elf.segments[j])
    ensures var g, h := elf.segments[i], elf.segments[j];
            g.vaddr + g.memsz <= h.vaddr || h.vaddr + h.memsz <= g.vaddr
  {
    SegmentFacts(b, elf, i);
    SegmentFacts(b, elf, j);
    ApartPages(Elf.Loads(b, Elf.PhNum(b))[i], Elf.Loads(b, Elf.PhNum(b))[j]);
  }

  // ------------------------------------------------------------ loading runs

  // The mapped pages are those of the first `n` segments.
  ghost predicate OnlyPagesOf(leaf: map<Page, Pte>, segs: seq<Elf.LoadedSegment>, n: nat)
    requires n <= |segs|
  {
    forall p :: p in leaf ==> exists k :: 0 <= k < n && p in SegPages(segs[k])
  }

  ghost predicate FirstLoaded(m: AddressSpace.Memory, sp: Space, segs: seq<Elf.LoadedSegment>, n: nat)
    requires n <= |segs|
  {
    forall k :: 0 <= k < n ==> SegLoaded(m, sp, segs[k])
  }

  // The first `n` segments are in place; `before` is the state before the
  // address space existed and `budget` the frames free right after that.
  ghost predicate Loading(mc: Machine, before: Sys, budget: nat, cr3: nat, segs: seq<Elf.LoadedSegment>, n: nat)
    reads mc, mc.pool
    requires n <= |segs|
  {
    && mc.Valid() && cr3 in mc.spaces && Good(before.view) && before.taken !! before.free
    && Since(before, mc.Now(), {cr3}, {})
    && OnlyPagesOf(mc.spaces[cr3].leaf, segs, n)
    && FirstLoaded(mc.mem, mc.spaces[cr3], segs, n)
    && |mc.Now().free| + 2 * PagesUpTo(segs, n) + 1 - TablesMissing(mc.spaces[cr3]) >= budget
  }

  // No page of an accepted image is mapped before its own segment is loaded.
  lemma NextRegionFree(b: seq<byte>, elf: Elf.ElfFile, sp: Space, i: nat)
    requires Elf.ImageOf(b, elf) && i < |elf.segments| && OnlyPagesOf(sp.leaf, elf.segments, i)
    ensures RegionFree(sp, elf.segments[i].vaddr, elf.segments[i].memsz)
  {
    var seg := elf.segments[i];
    forall k | 0 <= k < RegionPages(seg.vaddr, seg.memsz)
      ensures PageOf(At(RegionStart(seg.vaddr), k)) !in sp.leaf
    {
      var p := PageOf(At(RegionStart(seg.vaddr), k));
      assert p in SegPages(seg);
      if p in sp.leaf {
        var j :| 0 <= j < i && p in SegPages(elf.segments[j]);
        SegmentsApart(b, elf, j, i);
      }
    }
  }

  lemma MorePagesOf(t: Sys, u: Sys, cr3: nat, segs: seq<Elf.LoadedSegment>, i: nat, writable: bool)
    requires i < |segs| && cr3 in t.view.spaces && OnlyPagesOf(t.view.spaces[cr3].leaf, segs, i)
    requires Filled(t, u, cr3, RegionStart(segs[i].vaddr), 0, RegionPages(segs[i].vaddr, segs[i].memsz), writable)
    ensures OnlyPagesOf(u.view.spaces[cr3].leaf, segs, i + 1)
  {
    forall p | p in u.view.spaces[cr3].leaf
      ensures exists k :: 0 <= k < i + 1 && p in SegPages(segs[k])
    {
      if p in t.view.spaces[cr3].leaf {
        var k :| 0 <= k < i && p in SegPages(segs[k]);
      } else {
        assert p in SegPages(segs[i]);
      }
    }
  }

  lemma FirstKeptByMapping(t: Sys, u: Sys, cr3: nat, segs: seq<Elf.LoadedSegment>, i: nat, start: nat, n: nat,
      writable: bool)
    requires i <= |segs| && cr3 in t.view.spaces && FirstLoaded(t.view.mem, t.view.spaces[cr3], segs, i)
    requires StepOn(t, u, cr3) && Filled(t, u, cr3, start, 0, n, writable)
    requires forall p :: p in t.view.spaces[cr3].leaf && t.view.spaces[cr3].leaf[p].owned ==>
      t.view.spaces[cr3].leaf[p].addr in t.taken
    ensures FirstLoaded(u.view.mem, u.view.spaces[cr3], segs, i)
  {
    forall k | 0 <= k < i ensures SegLoaded(u.view.mem, u.view.spaces[cr3], segs[k]) {
      SegKeptByMapping(t, u, cr3, segs[k], start, n, writable);
    }
  }

  lemma FirstKeptByWrite(b: seq<byte>, elf: Elf.ElfFile, i: nat, m: AddressSpace.Memory, m': AddressSpace.Memory,
      sp: Space)
    requires Elf.ImageOf(b, elf) && i < |elf.segments| && FirstLoaded(m, sp, elf.segments, i)
    requires Wrote(m, m', sp, elf.segments[i].vaddr, elf.segments[i].memsz, elf.segments[i].data)
    requires MappedFor(sp, elf.segments[i])
    ensures FirstLoaded(m', sp, elf.segments, i + 1)
  {
    hide *;
    EarliersKeptByWrite(b, elf, i, m, m', sp);
    JustWritten(m, m', sp, elf.segments[i]);
    OneMoreLoaded(m', sp, elf.segments, i);
  }

  lemma OneMoreLoaded(m: AddressSpace.Memory, sp: Space, segs: seq<Elf.LoadedSegment>, n: nat)
    requires n < |segs| && FirstLoaded(m, sp, segs, n) && SegLoaded(m, sp, segs[n])
    ensures FirstLoaded(m, sp, segs, n + 1)
  {
    hide SegLoaded;
  }

  lemma EarliersKeptByWrite(b: seq<byte>, elf: Elf.ElfFile, i: nat,
                            m: AddressSpace.Memory, m': AddressSpace.Memory, sp: Space)
    requires Elf.ImageOf(b, elf) && i < |elf.segments| && FirstLoaded(m, sp, elf.segments, i)
    requires Wrote(m, m', sp, elf.segments[i].vaddr, elf.segments[i].memsz, elf.segments[i].data)
    ensures FirstLoaded(m', sp, elf.segments, i)
  {
    hide Elf.ImageOf, SegLoaded, Wrote, InOwnPage;
    forall k | 0 <= k < i ensures SegLoaded(m', sp, elf.segments[k]) {
      EarlierKeptByWrite(b, elf, k, i, m, m', sp);
    }
  }

  lemma EarlierKeptByWrite(b: seq<byte>, elf: Elf.ElfFile, k: nat, i: nat,
                           m: AddressSpace.Memory, m': AddressSpace.Memory, sp: Space)
    requires Elf.ImageOf(b, elf) && k < i < |elf.segments| && FirstLoaded(m, sp, elf.segments, i)
    requires Wrote(m, m', sp, elf.segments[i].vaddr, elf.segments[i].memsz, elf.segments[i].data)
    ensures SegLoaded(m', sp, elf.segments[k])
  {
    var seg := elf.segments[i];
    hide Elf.ImageOf, SegLoaded, Wrote, InOwnPage;
    SegmentsApart(b, elf, k, i);
    SegKeptByWrite(m, m', sp, elf.segments[k], seg.vaddr, seg.memsz, seg.data);
  }

  lemma JustWritten(m: AddressSpace.Memory, m': AddressSpace.Memory, sp: Space, seg: Elf.LoadedSegment)
    requires Wrote(m, m', sp, seg.vaddr, seg.memsz, seg.data)
    requires MappedFor(sp, seg)
    ensures SegLoaded(m', sp, seg)
  {
    hide PageOf, InUser, ByteAt;
  }

  lemma OwnedAllTaken(mc: Machine, cr3: nat)
    requires mc.Valid() && cr3 in mc.spaces
    ensures forall p :: p in mc.spaces[cr3].leaf && mc.spaces[cr3].leaf[p].owned ==>
      mc.spaces[cr3].leaf[p].addr in mc.pool.taken
    ensures mc.spaces[cr3].own.Keys <= mc.owners.Keys
  {
    hide Good, Holds, FP.FramePool.Valid;
    GoodTree(mc.V(), cr3);
    forall p | p in mc.spaces[cr3].leaf && mc.spaces[cr3].leaf[p].owned
      ensures mc.spaces[cr3].leaf[p].addr in mc.pool.taken
    {
      LeafEntry(mc.mem, mc.spaces[cr3], p);
    }
  }

  // Writing the process's own frames is invisible to what was there before.
  lemma SinceWrite(before: Sys, t: Sys, u: Sys, cr3: nat)
    requires Since(before, t, {cr3}, {}) && Good(before.view) && Good(t.view)
    requires t.view.owners.Keys <= t.taken && cr3 in t.view.spaces
    requires u.view.spaces == t.view.spaces && u.view.owners.Keys == t.view.owners.Keys
    requires u.taken == t.taken && u.free == t.free && KeptOutside(t.view.mem, u.view.mem, t.view.spaces[cr3])
    ensures Since(before, u, {cr3}, {})
  {
    hide Holds;
    TakenSince(before, t, {cr3}, {});
    OwnFramesAreNew(before, t, cr3);
  }

  lemma OwnFramesAreNew(before: Sys, t: Sys, cr3: nat)
    requires Since(before, t, {cr3}, {}) && Good(before.view) && Good(t.view) && cr3 in t.view.spaces
    requires t.view.owners.Keys <= t.taken
    ensures t.view.spaces[cr3].own.Keys !! before.taken
    ensures t.view.spaces[cr3].own.Keys <= before.taken + before.free
  {
    hide Holds;
    GoodTree(t.view, cr3);
    forall f | f in before.taken ensures f !in t.view.spaces[cr3].own {
      if f in before.view.owners {
        var c := before.view.owners[f];
        assert c in t.view.spaces && t.view.spaces[c] == (t.view.spaces - {cr3})[c];
        assert f in t.view.spaces[c].own;
      } else {
        assert f in ExternalIn(t);
      }
    }
  }

  // Map one segment and write its image.
  method LoadSegment(mc: Machine, cr3: nat, elf: Elf.ElfFile, i: nat, ghost b: seq<byte>, ghost before: Sys,
      ghost budget: nat)
    returns (r: Option<MemError>)
    requires Elf.ImageOf(b, elf) && i < |elf.segments|
    requires Loading(mc, before, budget, cr3, elf.segments, i)
    modifies mc, mc.pool
    ensures r.None? ==> Loading(mc, before, budget, cr3, elf.segments, i + 1)
    ensures r.Some? ==> mc.Valid() && cr3 in mc.spaces && Since(before, mc.Now(), {cr3}, {})
    ensures r.Some? ==> budget < 2 * PagesUpTo(elf.segments, i + 1) + 1
  {
    hide Good, Since, StepOn, Filled, RolledBack, ContentKept, Grows, FP.FramePool.Valid, FP.FramePool.Free,
      OnlyPagesOf, FirstLoaded, RegionFree, Wrote, InOwnPage, Tight, Elf.ImageOf, InBounds, RegionPages, MappedFor,
      OwnOrUnmapped, KeptOutside, MemoryOk, RegionStart;
    var seg := elf.segments[i];
    var writable := Elf.Writable(seg.flags);
    SegmentFacts(b, elf, i);
    NextRegionFree(b, elf, mc.spaces[cr3], i);
    OwnedAllTaken(mc, cr3);
    mc.Ownership();
    ghost var t := mc.Now();
    TakenSince(before, t, {cr3}, {});
    var len := if seg.memsz < 1 then 1 else seg.memsz;
    var m := mc.MapUserRegion(cr3, seg.vaddr, len, writable);
    ghost var u := mc.Now();
    if m.Err? {
      SinceRolledBack(before, t, u, cr3);
      return Some(m.error);
    }
    SinceStep(before, t, u, cr3, {cr3}, {});
    MorePagesOf(t, u, cr3, elf.segments, i, writable);
    FirstKeptByMapping(t, u, cr3, elf.segments, i, RegionStart(seg.vaddr), RegionPages(seg.vaddr, seg.memsz), writable);
    MappedIsOwn(t, u, cr3, seg, writable);
    mc.Ownership();
    MappedCanWrite(mc.spaces[cr3], seg);
    WriteUserRegion(mc, cr3, seg.vaddr, seg.data, len);
    SinceWrite(before, u, mc.Now(), cr3);
    FirstKeptByWrite(b, elf, i, u.view.mem, mc.mem, mc.spaces[cr3]);
    return None;
  }

  lemma SinceRolledBack(before: Sys, t: Sys, u: Sys, cr3: nat)
    requires Since(before, t, {cr3}, {}) && RolledBack(t, u, cr3) && before.taken <= t.taken
    ensures cr3 in u.view.spaces && Since(before, u, {cr3}, {})
  {
    ContentTrans(before, t, u);
    OthersSame(t.view.spaces, u.view.spaces, {cr3}, cr3);
    hide ContentKept;
  }

  // A file as an array of segments is loaded in full, or the frames ran out.
  method LoadSegments(mc: Machine, cr3: nat, elf: Elf.ElfFile, ghost b: seq<byte>, ghost before: Sys, ghost budget: nat)
    returns (r: Option<MemError>)
    requires Elf.ImageOf(b, elf) && Loading(mc, before, budget, cr3, elf.segments, 0)
    modifies mc, mc.pool
    ensures r.None? ==> Loading(mc, before, budget, cr3, elf.segments, |elf.segments|)
    ensures r.Some? ==> mc.Valid() && cr3 in mc.spaces && Since(before, mc.Now(), {cr3}, {})
    ensures r.Some? ==> budget < 2 * 4096 + 1
  {
    hide *;
    var i := 0;
    while i < |elf.segments|
      invariant 0 <= i <= |elf.segments| && Loading(mc, before, budget, cr3, elf.segments, i)
    {
      r := LoadSegment(mc, cr3, elf, i, b, before, budget);
      if r.Some? {
        PagesMonotone(elf.segments, i + 1, |elf.segments|);
        ImageFits(b, elf);
        return;
      }
      i := i + 1;
    }
    return None;
  }

  lemma {:induction false} PagesMonotone(segs: seq<Elf.LoadedSegment>, m: nat, n: nat)
    requires m <= n <= |segs|
    ensures PagesUpTo(segs, m) <= PagesUpTo(segs, n)
  {
    if m < n { PagesMonotone(segs, m, n - 1); }
  }

  // ------------------------------------------------------------------ spawn

  // Parse a file, build its address space, load every segment and a stack page.
  // Success leaves every byte of every segment where the file says, and open to ring
  // 3 as the segment asks. A failure gives everything back, and an acceptable file
  // fails only for want of frames.
  method Spawn(mc: Machine, b: seq<byte>, active: nat) returns (r: Result<nat, SpawnError>, ghost elf: Elf.ElfFile)
    requires mc.Valid() && active !in mc.pool.Free() && |b| < Elf.U64_LIMIT
    modifies mc, mc.pool
    ensures mc.Valid()
    ensures r.Ok? ==>
      && Elf.ImageOf(b, elf)
      && r.value !in old(mc.spaces) && mc.spaces.Keys == old(mc.spaces).Keys + {r.value}
      && mc.spaces - {r.value} == old(mc.spaces)
      && ProgramSeen(mc.mem, r.value, elf.segments)
      && ContentKept(old(mc.Now()), mc.Now())
    ensures r.Err? ==>
      && mc.spaces == old(mc.spaces) && mc.Now().taken == old(mc.Now()).taken && mc.Now().free == old(mc.Now()).free
      && ContentKept(old(mc.Now()), mc.Now())
    ensures r.Err? && Elf.Acceptable(b) ==> |old(mc.Now().free)| < 2 * 4096 + 5
    ensures r.Ok? ==> Elf.Acceptable(b)
  {
    hide Good, Since, Elf.Acceptable, Elf.Entry, Elf.Loads, ContentKept, FP.FramePool.Valid, FP.FramePool.Free,
      Created, Returned, FirstLoaded, OnlyPagesOf, InOwnPage, Loading, ProgramSeen, StackSeen;
    elf := Elf.ElfFile(0, []);
    ghost var before := mc.Now();
    SameContent(before);
    mc.Ownership();
    var p := Elf.ParseElf(b);
    if p.Err? { return Err(BadImage(p.error)), elf; }
    elf := p.value;
    var c := mc.CloneActive();
    if c.None? {
      ReturnedFacts(before, mc.Now());
      return Err(NoAddressSpace), elf;
    }
    var cr3 := c.value;
    StartsLoading(mc, before, cr3, elf.segments);
    var l := LoadSegments(mc, cr3, p.value, b, before, |before.free| - 2);
    if l.Some? {
      Abandon(mc, cr3, active, before);
      return Err(NoMemory(l.value)), elf;
    }
    var st := MapStack(mc, cr3, elf, b, before, |before.free| - 2);
    if st.Some? {
      Abandon(mc, cr3, active, before);
      return Err(NoMemory(st.value)), elf;
    }
    SinceFacts(before, mc.Now(), cr3);
    ProgramLoaded(mc.V(), cr3, b, elf);
    return Ok(cr3), elf;
  }

  lemma ProgramLoaded(v: View, cr3: nat, b: seq<byte>, elf: Elf.ElfFile)
    requires Good(v) && cr3 in v.spaces && Elf.ImageOf(b, elf)
    requires FirstLoaded(v.mem, v.spaces[cr3], elf.segments, |elf.segments|) && StackSeen(v.mem, cr3)
    ensures ProgramSeen(v.mem, cr3, elf.segments)
  {
    hide Good, Elf.ImageOf, SegLoaded, SegSeen, StackSeen;
    forall k | 0 <= k < |elf.segments| ensures SegSeen(v.mem, cr3, elf.segments[k]) {
      SegmentFacts(b, elf, k);
      LoadedSeen(v, cr3, elf.segments[k]);
    }
  }

  // The entry point lies in an executable segment, so it is loaded and can be read;
  // the processor can fetch the first instruction exactly if that segment is not
  // writable, or if the entry lies in the first two pages of user space.
  lemma EntrySeen(m: AddressSpace.Memory, root: nat, b: seq<byte>, elf: Elf.ElfFile)
    requires Elf.ImageOf(b, elf) && ProgramSeen(m, root, elf.segments)
    ensures exists k :: 0 <= k < |elf.segments| && HasEntry(elf.segments[k], elf.entryPoint)
    ensures forall k :: 0 <= k < |elf.segments| && HasEntry(elf.segments[k], elf.entryPoint) ==>
      && Reach(m, root, elf.entryPoint).Some?
      && (Reach(m, root, elf.entryPoint).value.executable <==>
           elf.segments[k].flags / 2 % 2 == 0 || elf.entryPoint < USER_ADDR_BASE + 0x2000)
  {
    EntryCarried(b, elf);
    hide Elf.ImageOf, Reach, UserByte, StackSeen, SegSeen;
    forall k | 0 <= k < |elf.segments| && HasEntry(elf.segments[k], elf.entryPoint)
      ensures Opens(m, root, elf.entryPoint, elf.segments[k].flags / 2 % 2 == 1)
    {
      SegOpens(m, root, elf.segments[k], elf.entryPoint);
    }
  }

  lemma SegOpens(m: AddressSpace.Memory, root: nat, seg: Elf.LoadedSegment, v: nat)
    requires SegSeen(m, root, seg) && seg.vaddr <= v < seg.vaddr + seg.memsz
    ensures Opens(m, root, v, seg.flags / 2 % 2 == 1)
  {
    hide Opens, UserByte;
    assert ByteSeen(m, root, seg, v);
  }

  predicate HasEntry(seg: Elf.LoadedSegment, entry: nat) {
    seg.flags % 2 == 1 && seg.vaddr <= entry < seg.vaddr + seg.memsz
  }

  lemma EntryCarried(b: seq<byte>, elf: Elf.ElfFile)
    requires Elf.ImageOf(b, elf)
    ensures exists k :: 0 <= k < |elf.segments| && HasEntry(elf.segments[k], elf.entryPoint)
  {
    hide Elf.Loads, Elf.PhNum, Elf.Entry, Elf.AllApart, Elf.Footprint, Elf.HeadersFit;
    var hs := Elf.Loads(b, Elf.PhNum(b));
    var i :| 0 <= i < |hs| && Elf.Carries(hs[i], Elf.Entry(b));
    assert HasEntry(elf.segments[i], elf.entryPoint);
  }

  lemma SinceFacts(before: Sys, t: Sys, cr3: nat)
    requires Since(before, t, {cr3}, {})
    ensures cr3 in t.view.spaces && cr3 !in before.view.spaces
    ensures t.view.spaces.Keys == before.view.spaces.Keys + {cr3} && t.view.spaces - {cr3} == before.view.spaces
    ensures ContentKept(before, t)
  {
    assert t.view.spaces.Keys == (t.view.spaces - {cr3}).Keys + {cr3};
  }

  lemma StartsLoading(mc: Machine, before: Sys, cr3: nat, segs: seq<Elf.LoadedSegment>)
    requires mc.Valid() && Created(before, mc.Now(), cr3) && Good(before.view)
    requires before.taken !! before.free && before.view.owners.Keys <= before.taken
    ensures |before.free| >= 2 && cr3 in before.free
    ensures Loading(mc, before, |before.free| - 2, cr3, segs, 0)
  {
    hide Good, Since, Created, FP.FramePool.Valid, FP.FramePool.Free, ContentKept;
    SinceNothing(before);
    SinceCreated(before, before, mc.Now(), {}, {}, cr3);
    assert {} + {cr3} == {cr3};
    CreatedEmpty(before, mc.Now(), cr3);
  }

  lemma CreatedEmpty(s: Sys, t: Sys, cr3: nat)
    requires Created(s, t, cr3)
    ensures cr3 in t.view.spaces && t.view.spaces[cr3].leaf == map[] && t.view.spaces[cr3].l2.None?
    ensures |t.free| == |s.free| - 2
  {
    var low := t.view.spaces[cr3].low;
    assert s.free == t.free + {cr3, low};
    assert |{cr3, low}| == 2;
  }

  // The drop of the builder: whatever was loaded goes away.
  method Abandon(mc: Machine, cr3: nat, active: nat, ghost before: Sys)
    requires mc.Valid() && cr3 in mc.spaces && Since(before, mc.Now(), {cr3}, {}) && cr3 != active
    requires Good(before.view) && before.taken !! before.free && before.view.owners.Keys <= before.taken
    modifies mc, mc.pool
    ensures mc.Valid()
    ensures mc.spaces == before.view.spaces && mc.Now().taken == before.taken && mc.Now().free == before.free
    ensures ContentKept(before, mc.Now())
  {
    hide Good, Since, ContentKept, FP.FramePool.Valid, FP.FramePool.Free, Destroyed;
    mc.Ownership();
    TakenSince(before, mc.Now(), {cr3}, {});
    NotReserved(mc, cr3);
    ghost var t := mc.Now();
    var d := mc.Destroy(cr3, active);
    mc.Ownership();
    SinceGone(before, t, mc.Now(), {cr3}, {}, cr3);
    assert {cr3} - {cr3} == {};
    SameFrames(before, mc.Now());
  }

  // One writable page below the stack top, which no image can have mapped.
  method MapStack(mc: Machine, cr3: nat, ghost elf: Elf.ElfFile, ghost b: seq<byte>, ghost before: Sys,
      ghost budget: nat)
    returns (r: Option<MemError>)
    requires Elf.ImageOf(b, elf) && Loading(mc, before, budget, cr3, elf.segments, |elf.segments|)
    modifies mc, mc.pool
    ensures mc.Valid() && cr3 in mc.spaces && Since(before, mc.Now(), {cr3}, {})
    ensures r.None? ==>
      && FirstLoaded(mc.mem, mc.spaces[cr3], elf.segments, |elf.segments|)
      && StackSeen(mc.mem, cr3)
    ensures r.Some? ==> budget < 2 * 4096 + 3
  {
    hide Good, Since, StepOn, Filled, RolledBack, ContentKept, Grows, FP.FramePool.Valid, FP.FramePool.Free,
      OnlyPagesOf, FirstLoaded, RegionFree, InOwnPage, Tight, Elf.ImageOf, RegionStart, RegionPages, PageOf, InBounds,
      StackSeen;
    OwnedAllTaken(mc, cr3);
    mc.Ownership();
    ghost var t := mc.Now();
    TakenSince(before, t, {cr3}, {});
    ImageFits(b, elf);
    StackPageFree(b, elf, mc.spaces[cr3]);
    StackRegion();
    var m := mc.MapUserRegion(cr3, USER_STACK_TOP - PAGE, PAGE, true);
    ghost var u := mc.Now();
    if m.Err? {
      SinceRolledBack(before, t, u, cr3);
      return Some(m.error);
    }
    SinceStep(before, t, u, cr3, {cr3}, {});
    FirstKeptByMapping(t, u, cr3, elf.segments, |elf.segments|, RegionStart(USER_STACK_TOP - PAGE), 1, true);
    FilledStack(t, u, cr3);
    return None;
  }

  lemma FilledStack(t: Sys, u: Sys, cr3: nat)
    requires Good(u.view) && Filled(t, u, cr3, RegionStart(USER_STACK_TOP - PAGE), 0, 1, true)
    ensures StackSeen(u.view.mem, cr3)
  {
    hide Good, PageOf, UserByte, Opens, FreshPage;
    var at := USER_STACK_TOP - PAGE;
    StackRegion();
    FilledFresh(t, u, cr3, at, 0, 1, true, 0);
    FilledOpens(t, u, cr3, at, 1, true);
    forall v | at <= v < at + PAGE ensures UserByte(u.view.mem, cr3, v) == Some(0) && Opens(u.view.mem, cr3, v, true) {
      SamePage(v, at);
      assert ByteAt(u.view.mem, u.view.spaces[cr3], v) == Some(0) by { FreshByte(t, u, cr3, at, v, true); }
      ReadsByte(u.view, cr3, v, true);
    }
  }

  lemma FreshByte(t: Sys, u: Sys, cr3: nat, page: nat, v: nat, writable: bool)
    requires cr3 in u.view.spaces && FreshPage(t, u, cr3, page, writable) && PageOf(v) == PageOf(page)
    ensures ByteAt(u.view.mem, u.view.spaces[cr3], v) == Some(0)
  {
    hide PageOf;
  }

  lemma StackPageFree(b: seq<byte>, elf: Elf.ElfFile, sp: Space)
    requires Elf.ImageOf(b, elf) && OnlyPagesOf(sp.leaf, elf.segments, |elf.segments|)
    ensures RegionFree(sp, USER_STACK_TOP - PAGE, PAGE)
  {
    var at := USER_STACK_TOP - PAGE;
    hide PageOf, Elf.ImageOf, RegionStart, RegionPages;
    StackRegion();
    if PageOf(at) in sp.leaf {
      var k :| 0 <= k < |elf.segments| && PageOf(at) in SegPages(elf.segments[k]);
      BelowStack(b, elf, k, at);
    }
  }

  lemma StackRegion()
    ensures var at := USER_STACK_TOP - PAGE;
            InBounds(at, PAGE) && RegionStart(at) == at && RegionPages(at, PAGE) == 1 && At(at, 0) == at
  {
  }

  lemma BelowStack(b: seq<byte>, elf: Elf.ElfFile, k: nat, at: nat)
    requires Elf.ImageOf(b, elf) && k < |elf.segments| && InUser(at) && Elf.USER_ADDR_MAX <= at
    ensures PageOf(at) !in SegPages(elf.segments[k])
  {
    hide PageOf, Elf.ImageOf;
    var seg := elf.segments[k];
    SegmentFacts(b, elf, k);
    RegionIsUserRange(seg.vaddr, seg.memsz);
    if PageOf(at) in SegPages(seg) {
      var n :| 0 <= n < RegionPages(seg.vaddr, seg.memsz) && PageOf(at) == PageOf(At(RegionStart(seg.vaddr), n));
      PageOfIsInjective(at, At(RegionStart(seg.vaddr), n));
    }
  }

  // From the writer to the process: a program that was written to a file and spawned
  // is in memory, each payload at its own address with zeros behind it, open to ring
  // 3 as its flags ask. A good program fails only for want of frames.
  method SpawnProgram(mc: Machine, entry: nat, segs: seq<EF.Segment>, active: nat) returns (r: Result<nat, SpawnError>)
    requires mc.Valid() && active !in mc.pool.Free()
    requires |segs| < 0x1_0000 && entry < Elf.U64_LIMIT
    requires forall i :: 0 <= i < |segs| ==> EF.SegmentFits(segs[i])
    requires |EF.WriteProgram(entry, segs)| < Elf.U64_LIMIT
    modifies mc, mc.pool
    ensures mc.Valid()
    ensures r.Ok? ==>
      && EF.GoodProgram(|EF.WriteProgram(entry, segs)|, entry, EF.RowsFor(segs))
      && StackSeen(mc.mem, r.value)
      && forall k :: 0 <= k < |EF.Loaded(segs)| ==> InPlace(mc.mem, r.value, EF.Loaded(segs)[k])
    ensures r.Err? && EF.GoodProgram(|EF.WriteProgram(entry, segs)|, entry, EF.RowsFor(segs)) ==>
      |old(mc.Now()).free| < 2 * 4096 + 5
  {
    hide *;
    var b := EF.WriteProgram(entry, segs);
    ghost var h, rows := EF.HeadFor(entry, |segs|), EF.RowsFor(segs);
    EF.ProgramIs(entry, segs);
    EF.ProgramIsWritten(entry, segs);
    EF.AcceptableIsGood(b, h, rows);
    ghost var elf;
    r, elf := Spawn(mc, b, active);
    if r.Ok? {
      EF.ImageReadsBack(b, h, rows, elf);
      EF.ProgramImage(entry, segs, elf);
      SegmentsInPlace(mc.mem, r.value, elf.segments, EF.Loaded(segs));
    }
  }

  // What ring 3 finds of a segment that was written.
  ghost predicate InPlace(m: AddressSpace.Memory, root: nat, seg: EF.Segment) {
    |seg.payload| <= seg.memsz && forall k :: 0 <= k < seg.memsz ==> ByteInPlace(m, root, seg, k)
  }

  ghost predicate ByteInPlace(m: AddressSpace.Memory, root: nat, seg: EF.Segment, k: nat) {
    && UserByte(m, root, seg.vaddr + k) == Some(if k < |seg.payload| then seg.payload[k] else 0)
    && Opens(m, root, seg.vaddr + k, seg.flags / 2 % 2 == 1)
  }

  lemma SegmentsInPlace(m: AddressSpace.Memory, root: nat, loaded: seq<Elf.LoadedSegment>, segs: seq<EF.Segment>)
    requires ProgramSeen(m, root, loaded) && |loaded| == |segs|
    requires forall k :: 0 <= k < |segs| ==> |segs[k].payload| <= segs[k].memsz && loaded[k] == EF.Image(segs[k])
    ensures StackSeen(m, root) && forall k :: 0 <= k < |segs| ==> InPlace(m, root, segs[k])
  {
    hide SegSeen, StackSeen, InPlace, EF.Image;
    forall k | 0 <= k < |segs| ensures InPlace(m, root, segs[k]) {
      SeenInPlace(m, root, segs[k]);
    }
  }

  lemma SeenInPlace(m: AddressSpace.Memory, root: nat, seg: EF.Segment)
    requires |seg.payload| <= seg.memsz && SegSeen(m, root, EF.Image(seg))
    ensures InPlace(m, root, seg)
  {
    hide UserByte, Opens;
    forall k | 0 <= k < seg.memsz ensures ByteInPlace(m, root, seg, k) {
      assert ByteSeen(m, root, EF.Image(seg), seg.vaddr + k);
    }
  }
}
