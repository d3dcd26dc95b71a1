// Runs of many processes at once: address spaces are created, regions and
// surfaces come and go in each of them, some requests failing half way, and
// processes exit in any order (kernel/src/surface.rs and
// kernel/src/task/process.rs over kernel/src/memory.rs).
module Lifecycle {
  import opened Wrappers
  import opened AddressSpace
  import opened M = Memory
  import FP = FramePool

  // A surface record: whose it is, where it is mapped, and the extent behind it.
  datatype Surface = Surface(owner: nat, virt: nat, phys: nat, pages: nat)

  // The requests, from any process at any time.
  datatype Op =
    | Create
    | MapRegion(cr3: nat, virt: nat, len: nat, writable: bool)
    | CreateSurface(cr3: nat, surfaceVirt: nat, pages: nat)
    | DestroySurface(surface: Surface)
    | Exit(cr3: nat)

  // ------------------------------------------------------------- invariants

  ghost function Backing(sf: Surface): set<nat> { FP.Extent(sf.phys, sf.pages) }

  ghost function PagesOf(sf: Surface): set<Page> { Range(sf.virt, 0, sf.pages) }

  // No two live surfaces share a frame.
  ghost predicate OwnFrames(surfaces: set<Surface>, frameOf: map<nat, Surface>) {
    && (forall sf, f :: sf in surfaces && f in Backing(sf) ==> f in frameOf && frameOf[f] == sf)
    && (forall f :: f in frameOf ==> frameOf[f] in surfaces && f in Backing(frameOf[f]))
  }

  ghost predicate Shown(leaf: map<Page, Pte>, sf: Surface) {
    forall k {:trigger At(sf.virt, k)} :: 0 <= k < sf.pages ==>
      PageOf(At(sf.virt, k)) in leaf && leaf[PageOf(At(sf.virt, k))] == SurfacePte(sf.phys + k * PAGE)
  }

  // Every surface of one process is mapped on its own extent, in pages that it
  // shares with no other surface.
  ghost predicate OwnPages(leaf: map<Page, Pte>, surfaces: set<Surface>, pageOf: map<Page, Surface>) {
    && (forall sf :: sf in surfaces ==> SurfaceArgs(sf.virt, sf.phys, sf.pages))
    && (forall sf, p :: sf in surfaces && p in PagesOf(sf) ==> p in pageOf && pageOf[p] == sf)
    && (forall p :: p in pageOf ==> p in leaf && pageOf[p] in surfaces && p in PagesOf(pageOf[p]))
    && (forall sf :: sf in surfaces ==> Shown(leaf, sf))
  }

  // A page that the process does not own shows a surface.
  ghost predicate Accounted(leaf: map<Page, Pte>, pageOf: map<Page, Surface>) {
    forall p :: p in leaf && !leaf[p].owned ==> p in pageOf
  }

  // One process: its surfaces are mapped and none of its tables is empty.
  ghost predicate ProcessOk(sp: Space, surfaces: set<Surface>, pageOf: map<Page, Surface>) {
    Tight(sp) && OwnPages(sp.leaf, surfaces, pageOf) && Accounted(sp.leaf, pageOf)
  }

  ghost function Of(surfaces: set<Surface>, cr3: nat): set<Surface> {
    set sf | sf in surfaces && sf.owner == cr3
  }

  // All live processes and their surfaces.
  ghost predicate Registered(spaces: map<nat, Space>, procs: set<nat>, surfaces: set<Surface>,
                             pageOf: map<nat, map<Page, Surface>>) {
    && pageOf.Keys == procs && procs <= spaces.Keys
    && (forall sf :: sf in surfaces ==> sf.owner in procs)
    && (forall c :: c in procs ==> ProcessOk(spaces[c], Of(surfaces, c), pageOf[c]))
  }

  // Compared with the state `s` before any of the processes existed, the new
  // address spaces are theirs and the new external frames back their surfaces.
  ghost predicate Since(s: Sys, t: Sys, procs: set<nat>, backing: set<nat>) {
    && s.view.spaces.Keys !! procs && procs <= t.view.spaces.Keys
    && t.view.spaces - procs == s.view.spaces
    && ExternalIn(s) !! backing && ExternalIn(t) == ExternalIn(s) + backing
    && t.taken + t.free == s.taken + s.free
    && ContentKept(s, t)
  }

  // Whatever was taken before is still taken.
  lemma TakenSince(s: Sys, t: Sys, procs: set<nat>, backing: set<nat>)
    requires Since(s, t, procs, backing) && Good(s.view) && Good(t.view)
    requires t.view.owners.Keys <= t.taken
    ensures s.taken <= t.taken
  {
    hide Holds;
    forall f | f in s.taken ensures f in t.taken {
      if f in s.view.owners {
        var c := s.view.owners[f];
        assert c in t.view.spaces && t.view.spaces[c] == (t.view.spaces - procs)[c];
        assert f in t.view.spaces[c].own;
      } else {
        assert f in ExternalIn(t);
      }
    }
  }

  lemma ContentTrans(s: Sys, t: Sys, u: Sys)
    requires ContentKept(s, t) && ContentKept(t, u) && s.taken <= t.taken
    requires t.taken + t.free == s.taken + s.free
    ensures ContentKept(s, u)
  {
  }

  // Only process `c` has changed.
  lemma OthersSame(a: map<nat, Space>, b: map<nat, Space>, procs: set<nat>, c: nat)
    requires c in procs && c in b && b == a[c := b[c]]
    ensures b - procs == a - procs && (procs <= a.Keys ==> procs <= b.Keys)
  {
  }

  lemma SinceStep(s: Sys, t: Sys, u: Sys, cr3: nat, procs: set<nat>, backing: set<nat>)
    requires Since(s, t, procs, backing) && cr3 in procs && StepOn(t, u, cr3) && ExternalIn(u) == ExternalIn(t)
    requires s.taken <= t.taken
    ensures Since(s, u, procs, backing)
  {
    ContentTrans(s, t, u);
    OthersSame(t.view.spaces, u.view.spaces, procs, cr3);
    hide ContentKept, ExternalIn;
  }

  // A failure in a tree without empty tables restores the exact frame sets.
  lemma RolledBackExactly(t: Sys, u: Sys, cr3: nat)
    requires RolledBack(t, u, cr3) && Good(t.view) && Good(u.view)
    requires t.taken !! t.free && u.taken !! u.free
    requires t.view.owners.Keys <= t.taken && u.view.owners.Keys <= u.taken
    requires Tight(t.view.spaces[cr3])
    ensures u.view.spaces == t.view.spaces && u.view.owners == t.view.owners
    ensures u.taken == t.taken && u.free == t.free
  {
    hide Holds, Consistent, Tight, Pruned;
    GoodTree(t.view, cr3);
    HoldsConsistent(t.view.mem, t.view.spaces[cr3]);
    TightIsPruned(t.view.spaces[cr3]);
    OwnersDetermined(t.view, u.view);
    assert u.taken == ExternalIn(u) + u.view.owners.Keys;
    assert t.taken == ExternalIn(t) + t.view.owners.Keys;
  }

  lemma SinceSame(s: Sys, t: Sys, u: Sys, procs: set<nat>, backing: set<nat>)
    requires Since(s, t, procs, backing) && s.taken <= t.taken
    requires u.view.spaces == t.view.spaces && ExternalIn(u) == ExternalIn(t)
    requires t.taken + t.free == u.taken + u.free && ContentKept(t, u)
    ensures Since(s, u, procs, backing)
  {
    ContentTrans(s, t, u);
    hide ContentKept, ExternalIn;
  }

  // ------------------------------------------------------------- run state

  ghost predicate Running(mc: Machine, s: Sys, procs: set<nat>, surfaces: set<Surface>,
                          frameOf: map<nat, Surface>, pageOf: map<nat, map<Page, Surface>>)
    reads mc, mc.pool
  {
    && mc.Valid() && Good(s.view) && s.taken !! s.free && s.view.owners.Keys <= s.taken
    && Since(s, mc.Now(), procs, frameOf.Keys)
    && OwnFrames(surfaces, frameOf)
    && Registered(mc.spaces, procs, surfaces, pageOf)
  }

  lemma StillTaken(mc: Machine, s: Sys, procs: set<nat>, surfaces: set<Surface>,
                   frameOf: map<nat, Surface>, pageOf: map<nat, map<Page, Surface>>)
    requires Running(mc, s, procs, surfaces, frameOf, pageOf)
    ensures s.taken <= mc.Now().taken && mc.Now().free <= s.free
    ensures mc.owners.Keys <= mc.Now().taken && mc.Now().taken !! mc.Now().free
    ensures procs <= mc.spaces.Keys
  {
    hide Good, OwnFrames, Registered, MemoryOk, ContentKept, FP.FramePool.Valid, FP.FramePool.Free;
    mc.Ownership();
    TakenSince(s, mc.Now(), procs, frameOf.Keys);
  }

  lemma OneProcess(spaces: map<nat, Space>, procs: set<nat>, surfaces: set<Surface>,
                   pageOf: map<nat, map<Page, Surface>>, c: nat)
    requires Registered(spaces, procs, surfaces, pageOf) && c in procs
    ensures c in spaces && c in pageOf && ProcessOk(spaces[c], Of(surfaces, c), pageOf[c])
    ensures Tight(spaces[c]) && OwnPages(spaces[c].leaf, Of(surfaces, c), pageOf[c])
    ensures Accounted(spaces[c].leaf, pageOf[c])
  {
    hide Tight, OwnPages, Of, Accounted;
  }

  lemma SameSurfaces(surfaces: set<Surface>, surfaces': set<Surface>, c: nat, d: nat)
    requires c != d && forall sf: Surface :: sf.owner != c ==> (sf in surfaces <==> sf in surfaces')
    ensures Of(surfaces', d) == Of(surfaces, d)
  {
  }

  // A request of one process leaves the others as they were.
  lemma OneChanged(a: map<nat, Space>, b: map<nat, Space>, procs: set<nat>, surfaces: set<Surface>,
                   surfaces': set<Surface>, pageOf: map<nat, map<Page, Surface>>, c: nat, pages: map<Page, Surface>)
    requires Registered(a, procs, surfaces, pageOf) && c in procs && c in b && b == a[c := b[c]]
    requires forall sf: Surface :: sf.owner != c ==> (sf in surfaces <==> sf in surfaces')
    requires ProcessOk(b[c], Of(surfaces', c), pages)
    ensures Registered(b, procs, surfaces', pageOf[c := pages])
  {
    hide ProcessOk;
    var pages' := pageOf[c := pages];
    forall d | d in procs ensures ProcessOk(b[d], Of(surfaces', d), pages'[d]) {
      if d != c { SameSurfaces(surfaces, surfaces', c, d); }
    }
    hide Of;
  }

  // More pages do not disturb the surfaces.
  lemma OwnPagesGrow(a: map<Page, Pte>, b: map<Page, Pte>, surfaces: set<Surface>, pageOf: map<Page, Surface>)
    requires OwnPages(a, surfaces, pageOf)
    requires a.Keys <= b.Keys && forall p :: p in a ==> b[p] == a[p]
    ensures OwnPages(b, surfaces, pageOf)
  {
    hide PagesOf, PageOf, SurfaceArgs;
    forall sf | sf in surfaces ensures Shown(b, sf) {
      assert Shown(a, sf);
    }
    hide Shown;
  }

  lemma FilledAccounted(s: Sys, t: Sys, cr3: nat, start: nat, n: nat, writable: bool, pageOf: map<Page, Surface>)
    requires Filled(s, t, cr3, start, 0, n, writable) && Accounted(s.view.spaces[cr3].leaf, pageOf)
    ensures Accounted(t.view.spaces[cr3].leaf, pageOf)
  {
    hide PageOf;
  }

  lemma FilledGrows(s: Sys, t: Sys, cr3: nat, start: nat, n: nat, writable: bool)
    requires Filled(s, t, cr3, start, 0, n, writable)
    ensures cr3 in s.view.spaces && cr3 in t.view.spaces
    ensures s.view.spaces[cr3].leaf.Keys <= t.view.spaces[cr3].leaf.Keys
    ensures forall p :: p in s.view.spaces[cr3].leaf ==> t.view.spaces[cr3].leaf[p] == s.view.spaces[cr3].leaf[p]
  {
    hide Range, FreshPage;
  }

  lemma StepOnSpaces(t: Sys, u: Sys, cr3: nat)
    requires StepOn(t, u, cr3)
    ensures cr3 in u.view.spaces && u.view.spaces == t.view.spaces[cr3 := u.view.spaces[cr3]]
  {
  }

  // ------------------------------------------------------------- operations

  method MapRegionOp(mc: Machine, cr3: nat, virt: nat, len: nat, writable: bool,
                     ghost s: Sys, ghost procs: set<nat>, ghost surfaces: set<Surface>,
                     ghost frameOf: map<nat, Surface>, ghost pageOf: map<nat, map<Page, Surface>>)
    requires Running(mc, s, procs, surfaces, frameOf, pageOf) && cr3 in procs
    modifies mc, mc.pool
    ensures Running(mc, s, procs, surfaces, frameOf, pageOf)
  {
    hide Good, Since, Registered, ProcessOk, Tight, StepOn, Filled, RolledBack, ContentKept, Grows, InBounds,
      RegionFree,
      MemoryOk, FP.FramePool.Valid, FP.FramePool.Free, OwnFrames, OwnPages, Of, Accounted, Opens;
    ghost var t := mc.Now();
    StillTaken(mc, s, procs, surfaces, frameOf, pageOf);
    OneProcess(mc.spaces, procs, surfaces, pageOf, cr3);
    var r := mc.MapUserRegion(cr3, virt, len, writable);
    ghost var u := mc.Now();
    mc.Ownership();
    if r.Ok? {
      SinceStep(s, t, u, cr3, procs, frameOf.Keys);
      StepOnSpaces(t, u, cr3);
      FilledGrows(t, u, cr3, RegionStart(virt), RegionPages(virt, len), writable);
      OwnPagesGrow(t.view.spaces[cr3].leaf, u.view.spaces[cr3].leaf, Of(surfaces, cr3), pageOf[cr3]);
      FilledAccounted(t, u, cr3, RegionStart(virt), RegionPages(virt, len), writable, pageOf[cr3]);
      IsOk(mc.spaces[cr3], Of(surfaces, cr3), pageOf[cr3]);
      OneChanged(t.view.spaces, mc.spaces, procs, surfaces, surfaces, pageOf, cr3, pageOf[cr3]);
      assert pageOf[cr3 := pageOf[cr3]] == pageOf;
    } else if InBounds(virt, len) {
      RolledBackExactly(t, u, cr3);
      RolledBackContent(t, u, cr3);
      SinceSame(s, t, u, procs, frameOf.Keys);
    }
  }

  lemma IsOk(sp: Space, surfaces: set<Surface>, pageOf: map<Page, Surface>)
    requires Tight(sp) && OwnPages(sp.leaf, surfaces, pageOf) && Accounted(sp.leaf, pageOf)
    ensures ProcessOk(sp, surfaces, pageOf)
  {
    hide Tight, OwnPages, Accounted;
  }

  lemma RolledBackContent(t: Sys, u: Sys, cr3: nat)
    requires RolledBack(t, u, cr3)
    ensures ContentKept(t, u) && ExternalIn(u) == ExternalIn(t) && t.taken + t.free == u.taken + u.free
  {
  }

  // Give a backing extent back, frame by frame.
  method FreeBacking(mc: Machine, phys: nat, pages: nat)
    requires mc.Valid() && FP.Extent(phys, pages) <= mc.External()
    modifies mc.pool
    ensures mc.Valid() && FreedExtent(old(mc.Now()), mc.Now(), FP.Extent(phys, pages))
  {
    hide Good, FP.FramePool.Valid, FP.FramePool.Free;
    ghost var s := mc.Now();
    var i := 0;
    while i < pages
      invariant 0 <= i <= pages && mc.Valid()
      invariant FreedExtent(s, mc.Now(), FP.Extent(phys, i))
    {
      ghost var t := mc.Now();
      var f := phys + i * FP.PAGE_BYTES;
      assert f in FP.Extent(phys, pages);
      FP.ExtentGrows(phys, i);
      mc.UserFreeFrame(f);
      i := i + 1;
    }
  }

  ghost predicate FreedExtent(s: Sys, t: Sys, frames: set<nat>) {
    && t.view == s.view && t.taken == s.taken - frames && t.free == s.free + frames
  }

  // Reserve the backing of a surface and map it; on failure the backing goes
  // back and everything is as before.
  method CreateSurfaceOp(mc: Machine, cr3: nat, virt: nat, pages: nat,
                         ghost s: Sys, ghost procs: set<nat>, surfaces: set<Surface>,
                         ghost frameOf: map<nat, Surface>, ghost pageOf: map<nat, map<Page, Surface>>)
    returns (more: set<Surface>, ghost frameOf': map<nat, Surface>, ghost pageOf': map<nat, map<Page, Surface>>)
    requires Running(mc, s, procs, surfaces, frameOf, pageOf) && cr3 in procs && pages < U64_LIMIT
    modifies mc, mc.pool
    ensures Running(mc, s, procs, more, frameOf', pageOf')
  {
    hide Good, Since, Registered, ProcessOk, Tight, StepOn, Overlaid, RolledBack, ContentKept, Grows, SurfaceArgs,
      Reserved, FreedExtent, MemoryOk, FP.FramePool.Valid, FP.FramePool.Free, OwnFrames, OwnPages, Of, PageOf,
      FP.NoRunLeft, TablesMissing, Accounted, Shows;
    more, frameOf', pageOf' := surfaces, frameOf, pageOf;
    ghost var t := mc.Now();
    StillTaken(mc, s, procs, surfaces, frameOf, pageOf);
    OneProcess(mc.spaces, procs, surfaces, pageOf, cr3);
    var a := mc.UserAllocContiguous(pages);
    if a.None? { return; }
    var phys := a.value;
    ghost var u := mc.Now();
    mc.Ownership();
    ReservedFacts(t, u, phys, pages);
    var r := mc.MapSurfaceFrames(cr3, virt, phys, pages);
    ghost var w := mc.Now();
    mc.Ownership();
    if r.None? {
      var sf := Surface(cr3, virt, phys, pages);
      more := surfaces + {sf};
      frameOf' := frameOf + map f | f in Backing(sf) :: sf;
      ghost var shown := pageOf[cr3] + map p | p in PagesOf(sf) :: sf;
      pageOf' := pageOf[cr3 := shown];
      SinceReserved(s, t, u, w, cr3, procs, frameOf, sf);
      MoreFrames(surfaces, frameOf, sf);
      StepOnSpaces(u, w, cr3);
      SurfaceShown(t.view.spaces[cr3], w.view.spaces[cr3], surfaces, pageOf[cr3], sf);
      OneChanged(t.view.spaces, w.view.spaces, procs, surfaces, more, pageOf, cr3, shown);
    } else {
      if SurfaceArgs(virt, phys, pages) {
        RolledBackExactly(u, w, cr3);
        RolledBackContent(u, w, cr3);
      } else {
        SameContent(u);
      }
      FreeBacking(mc, phys, pages);
      GivenBack(s, t, u, w, mc.Now(), procs, frameOf.Keys, phys, pages);
    }
  }

  lemma SameContent(u: Sys)
    ensures ContentKept(u, u)
  {
  }

  lemma ReservedFacts(t: Sys, u: Sys, phys: nat, pages: nat)
    requires Reserved(t, u, phys, pages) && t.taken !! t.free
    ensures u.view.spaces == t.view.spaces && u.view.owners == t.view.owners
    ensures FP.Extent(phys, pages) <= ExternalIn(u) && FP.Extent(phys, pages) !! ExternalIn(t)
    ensures ExternalIn(u) == ExternalIn(t) + FP.Extent(phys, pages)
    ensures ContentKept(t, u)
  {
  }

  lemma SinceReserved(s: Sys, t: Sys, u: Sys, w: Sys, cr3: nat, procs: set<nat>, frameOf: map<nat, Surface>,
      sf: Surface)
    requires Since(s, t, procs, frameOf.Keys) && s.taken <= t.taken && t.taken !! t.free && cr3 in procs
    requires Reserved(t, u, sf.phys, sf.pages) && StepOn(u, w, cr3) && ExternalIn(w) == ExternalIn(u)
    ensures Since(s, w, procs, (frameOf + map f | f in Backing(sf) :: sf).Keys)
    ensures frameOf.Keys !! Backing(sf)
  {
    hide Reserved, ContentKept, ExternalIn;
    ReservedFacts(t, u, sf.phys, sf.pages);
    ReservedFrames(t, u, sf.phys, sf.pages);
    BackingIs(sf);
    ContentTrans(s, t, u);
    ContentTrans(s, u, w);
    OthersSame(t.view.spaces, w.view.spaces, procs, cr3);
    hide Backing;
    assert (frameOf + map f | f in Backing(sf) :: sf).Keys == frameOf.Keys + Backing(sf);
  }

  lemma ReservedFrames(t: Sys, u: Sys, phys: nat, pages: nat)
    requires Reserved(t, u, phys, pages)
    ensures t.taken <= u.taken && u.taken + u.free == t.taken + t.free
  {
    hide FP.Extent;
  }

  lemma MoreFrames(surfaces: set<Surface>, frameOf: map<nat, Surface>, sf: Surface)
    requires OwnFrames(surfaces, frameOf) && frameOf.Keys !! Backing(sf)
    ensures OwnFrames(surfaces + {sf}, frameOf + map f | f in Backing(sf) :: sf)
  {
    hide Backing;
  }

  lemma MorePages(a: map<Page, Pte>, b: map<Page, Pte>, surfaces: set<Surface>, pageOf: map<Page, Surface>, sf: Surface)
    requires OwnPages(b, surfaces, pageOf) && SurfaceArgs(sf.virt, sf.phys, sf.pages)
    requires pageOf.Keys <= a.Keys && Overlaid(a, b, sf.virt, sf.phys, 0, sf.pages)
    ensures OwnPages(b, surfaces + {sf}, pageOf + map p | p in PagesOf(sf) :: sf)
  {
    OverlaidShown(a, b, sf);
    OverlaidKeys(a, b, sf);
    hide Shown, Overlaid, SurfaceArgs;
    MorePageNames(surfaces, pageOf, sf);
    hide PagesOf;
  }

  lemma MorePageNames(surfaces: set<Surface>, pageOf: map<Page, Surface>, sf: Surface)
    requires forall other, p :: other in surfaces && p in PagesOf(other) ==> p in pageOf && pageOf[p] == other
    requires forall p :: p in pageOf ==> pageOf[p] in surfaces && p in PagesOf(pageOf[p])
    requires pageOf.Keys !! PagesOf(sf)
    ensures var pages := pageOf + map p | p in PagesOf(sf) :: sf;
            && (forall other, p :: other in surfaces + {sf} && p in PagesOf(other) ==> p in pages && pages[p] == other)
            && (forall p :: p in pages ==> pages[p] in surfaces + {sf} && p in PagesOf(pages[p]))
  {
    hide PagesOf;
  }

  lemma SurfaceShown(sp: Space, next: Space, surfaces: set<Surface>, pageOf: map<Page, Surface>, sf: Surface)
    requires OwnPages(sp.leaf, Of(surfaces, sf.owner), pageOf) && Accounted(sp.leaf, pageOf) && Tight(next)
    requires SurfaceArgs(sf.virt, sf.phys, sf.pages)
    requires Overlaid(sp.leaf, next.leaf, sf.virt, sf.phys, 0, sf.pages)
    ensures ProcessOk(next, Of(surfaces + {sf}, sf.owner), pageOf + map p | p in PagesOf(sf) :: sf)
  {
    assert Of(surfaces + {sf}, sf.owner) == Of(surfaces, sf.owner) + {sf};
    assert pageOf.Keys <= sp.leaf.Keys by { hide PagesOf, Shown, Of; }
    OverlaidGrows(sp.leaf, next.leaf, sf);
    OverlaidAccounted(sp.leaf, next.leaf, pageOf, sf);
    hide Accounted;
    hide Of, OwnPages, Tight, SurfaceArgs, Overlaid;
    OwnPagesGrow(sp.leaf, next.leaf, Of(surfaces, sf.owner), pageOf);
    MorePages(sp.leaf, next.leaf, Of(surfaces, sf.owner), pageOf, sf);
  }

  lemma OverlaidAccounted(a: map<Page, Pte>, b: map<Page, Pte>, pageOf: map<Page, Surface>, sf: Surface)
    requires Overlaid(a, b, sf.virt, sf.phys, 0, sf.pages) && Accounted(a, pageOf)
    ensures Accounted(b, pageOf + map p | p in PagesOf(sf) :: sf)
  {
    hide Range;
  }

  lemma OverlaidGrows(a: map<Page, Pte>, b: map<Page, Pte>, sf: Surface)
    requires Overlaid(a, b, sf.virt, sf.phys, 0, sf.pages)
    ensures a.Keys <= b.Keys && forall p :: p in a ==> b[p] == a[p]
  {
    hide Range;
  }

  lemma OverlaidKeys(a: map<Page, Pte>, b: map<Page, Pte>, sf: Surface)
    requires Overlaid(a, b, sf.virt, sf.phys, 0, sf.pages)
    ensures a.Keys !! PagesOf(sf) && PagesOf(sf) <= b.Keys
  {
  }

  lemma OverlaidShown(a: map<Page, Pte>, b: map<Page, Pte>, sf: Surface)
    requires Overlaid(a, b, sf.virt, sf.phys, 0, sf.pages)
    ensures Shown(b, sf)
  {
    forall k {:trigger At(sf.virt, k)} | 0 <= k < sf.pages
      ensures PageOf(At(sf.virt, k)) in b && b[PageOf(At(sf.virt, k))] == SurfacePte(sf.phys + k * PAGE)
    {
      OverlaidPage(a, b, sf.virt, sf.phys, 0, sf.pages, k);
    }
  }

  lemma GivenBack(s: Sys, t: Sys, u: Sys, w: Sys, x: Sys, procs: set<nat>, backing: set<nat>, phys: nat, pages: nat)
    requires Since(s, t, procs, backing) && s.taken <= t.taken && t.taken !! t.free
    requires Reserved(t, u, phys, pages)
    requires w.view.spaces == u.view.spaces && w.view.owners == u.view.owners
    requires w.taken == u.taken && w.free == u.free && ContentKept(u, w)
    requires FreedExtent(w, x, FP.Extent(phys, pages))
    ensures Since(s, x, procs, backing) && x.view.spaces == t.view.spaces
  {
    ReservedFacts(t, u, phys, pages);
    ContentTrans(t, u, w);
    ContentTrans(s, t, x);
    hide ContentKept;
  }

  // Remove a surface from its owner, then give its backing back. For a surface in
  // the registry the check of the page table cannot fail.
  method DestroySurfaceOp(mc: Machine, sf: Surface,
                          ghost s: Sys, ghost procs: set<nat>, surfaces: set<Surface>,
                          ghost frameOf: map<nat, Surface>, ghost pageOf: map<nat, map<Page, Surface>>)
    returns (fewer: set<Surface>, ghost frameOf': map<nat, Surface>, ghost pageOf': map<nat, map<Page, Surface>>)
    requires Running(mc, s, procs, surfaces, frameOf, pageOf)
    modifies mc, mc.pool
    ensures Running(mc, s, procs, fewer, frameOf', pageOf')
    ensures fewer == surfaces - {sf}
  {
    hide Good, Since, Registered, ProcessOk, Tight, Trimmed, ContentKept, FreedExtent, Pruned, WithoutPages, Range,
      PageOf, MemoryOk, FP.FramePool.Valid, FP.FramePool.Free, OwnFrames, OwnPages, Of, Backing, PagesOf, Maps,
      Accounted;
    if sf !in surfaces { return surfaces, frameOf, pageOf; }
    OwnerLives(mc.spaces, procs, surfaces, pageOf, sf);
    var cr3 := sf.owner;
    ghost var t, sp := mc.Now(), mc.spaces[cr3];
    StillTaken(mc, s, procs, surfaces, frameOf, pageOf);
    SurfaceFacts(s, t, procs, surfaces, frameOf, pageOf, sf);
    BackingIs(sf);
    var r := mc.UnmapSurfaceFrames(cr3, sf.virt, sf.phys, sf.pages);
    assert r.None?;
    ghost var u, cut := mc.Now(), Pruned(WithoutPages(sp, Range(sf.virt, 0, sf.pages)));
    NothingShed(t, u, cr3, cut, PagesOf(sf));
    TrimmedExternal(t, u, cr3, cut);
    FreeBacking(mc, sf.phys, sf.pages);
    fewer := surfaces - {sf};
    frameOf' := frameOf - Backing(sf);
    pageOf' := pageOf[cr3 := pageOf[cr3] - PagesOf(sf)];
    SinceDestroyed(s, t, u, mc.Now(), procs, frameOf, sf, cut);
    FewerFrames(surfaces, frameOf, sf);
    PrunedSurface(t, sp, sf);
    SurfaceGone(sp, cut, surfaces, pageOf[cr3], sf);
    OneChanged(t.view.spaces, mc.spaces, procs, surfaces, fewer, pageOf, cr3, pageOf[cr3] - PagesOf(sf));
  }

  lemma BackingIs(sf: Surface)
    ensures Backing(sf) == FP.Extent(sf.phys, sf.pages) && PagesOf(sf) == Range(sf.virt, 0, sf.pages)
  {
  }

  lemma OwnerLives(spaces: map<nat, Space>, procs: set<nat>, surfaces: set<Surface>,
                   pageOf: map<nat, map<Page, Surface>>, sf: Surface)
    requires Registered(spaces, procs, surfaces, pageOf) && sf in surfaces
    ensures sf.owner in procs && sf.owner in spaces && sf.owner in pageOf && sf in Of(surfaces, sf.owner)
    ensures OwnPages(spaces[sf.owner].leaf, Of(surfaces, sf.owner), pageOf[sf.owner])
    ensures Accounted(spaces[sf.owner].leaf, pageOf[sf.owner])
  {
    OneProcess(spaces, procs, surfaces, pageOf, sf.owner);
    hide OwnPages, ProcessOk, Accounted;
  }

  lemma SurfaceFacts(s: Sys, t: Sys, procs: set<nat>, surfaces: set<Surface>, frameOf: map<nat, Surface>,
                     pageOf: map<nat, map<Page, Surface>>, sf: Surface)
    requires Since(s, t, procs, frameOf.Keys) && sf in surfaces && OwnFrames(surfaces, frameOf)
    requires Registered(t.view.spaces, procs, surfaces, pageOf)
    ensures sf.owner in t.view.spaces
    ensures UserRange(sf.virt, sf.pages) && Backing(sf) <= ExternalIn(t) && Backing(sf) <= frameOf.Keys
    ensures forall k :: 0 <= k < sf.pages ==>
      && Maps(t.view.spaces[sf.owner].leaf, At(sf.virt, k), sf.phys + k * PAGE)
      && sf.phys + k * PAGE !in t.view.owners
    ensures forall p :: p in PagesOf(sf) ==>
      p in t.view.spaces[sf.owner].leaf && !t.view.spaces[sf.owner].leaf[p].owned
  {
    OwnerLives(t.view.spaces, procs, surfaces, pageOf, sf);
    BackingHeld(surfaces, frameOf, sf);
    SurfaceShows(t.view.spaces[sf.owner].leaf, Of(surfaces, sf.owner), pageOf[sf.owner], sf);
    hide Registered, Of, ContentKept, Maps, PageOf, OwnPages, OwnFrames, Backing, UserRange;
    forall k | 0 <= k < sf.pages
      ensures sf.phys + k * PAGE !in t.view.owners
    {
      FrameBehind(sf, k);
    }
  }

  lemma BackingHeld(surfaces: set<Surface>, frameOf: map<nat, Surface>, sf: Surface)
    requires OwnFrames(surfaces, frameOf) && sf in surfaces
    ensures Backing(sf) <= frameOf.Keys
  {
    hide Backing;
  }

  lemma FrameBehind(sf: Surface, k: nat)
    requires k < sf.pages
    ensures sf.phys + k * PAGE in Backing(sf)
  {
    assert PAGE == FP.PAGE_BYTES;
  }

  lemma SurfaceShows(leaf: map<Page, Pte>, surfaces: set<Surface>, pageOf: map<Page, Surface>, sf: Surface)
    requires OwnPages(leaf, surfaces, pageOf) && sf in surfaces
    ensures UserRange(sf.virt, sf.pages)
    ensures forall k :: 0 <= k < sf.pages ==> Maps(leaf, At(sf.virt, k), sf.phys + k * PAGE)
    ensures forall p :: p in PagesOf(sf) ==> p in leaf && !leaf[p].owned
  {
    hide PageOf;
    assert Shown(leaf, sf);
  }

  lemma TrimmedExternal(t: Sys, u: Sys, cr3: nat, sp: Space)
    requires Trimmed(t, u, cr3, sp)
    ensures ExternalIn(u) == ExternalIn(t)
  {
  }

  lemma SinceDestroyed(s: Sys, t: Sys, u: Sys, w: Sys, procs: set<nat>, frameOf: map<nat, Surface>, sf: Surface,
      sp: Space)
    requires Since(s, t, procs, frameOf.Keys) && s.taken <= t.taken && sf.owner in procs
    requires Trimmed(t, u, sf.owner, sp) && FreedExtent(u, w, Backing(sf)) && Backing(sf) <= frameOf.Keys
    requires u.view.owners.Keys <= u.taken && Backing(sf) <= ExternalIn(u)
    ensures Since(s, w, procs, (frameOf - Backing(sf)).Keys)
    ensures sf.owner in w.view.spaces && w.view.spaces == t.view.spaces[sf.owner := sp]
  {
    ContentTrans(s, t, u);
    OthersSame(t.view.spaces, w.view.spaces, procs, sf.owner);
    assert (frameOf - Backing(sf)).Keys == frameOf.Keys - Backing(sf);
    hide ContentKept, Backing;
  }

  lemma PrunedSurface(t: Sys, sp: Space, sf: Surface)
    requires Good(t.view) && sf.owner in t.view.spaces && sp == t.view.spaces[sf.owner]
    requires forall p :: p in PagesOf(sf) && p in sp.leaf ==> !sp.leaf[p].owned
    ensures var cut := Pruned(WithoutPages(sp, PagesOf(sf)));
            Tight(cut) && cut.leaf == sp.leaf - PagesOf(sf)
  {
    hide Good, Holds, Consistent, Tight, Pruned, PagesOf;
    GoodTree(t.view, sf.owner);
    HoldsConsistent(t.view.mem, sp);
    WithoutConsistent(sp, PagesOf(sf));
    PrunedIsTight(WithoutPages(sp, PagesOf(sf)));
  }

  lemma WithoutConsistent(sp: Space, ps: set<Page>)
    requires Consistent(sp)
    requires forall p :: p in ps && p in sp.leaf ==> !sp.leaf[p].owned
    ensures Consistent(WithoutPages(sp, ps))
  {
    var sp' := WithoutPages(sp, ps);
    assert OwnedBy(sp, ps) == {} && sp'.own == sp.own;
    forall f | f in sp'.own ensures Plays(sp', f, sp'.own[f]) {
      assert Plays(sp, f, sp.own[f]);
    }
  }

  lemma SurfaceGone(sp: Space, cut: Space, surfaces: set<Surface>, pageOf: map<Page, Surface>, sf: Surface)
    requires OwnPages(sp.leaf, Of(surfaces, sf.owner), pageOf) && sf in surfaces && Accounted(sp.leaf, pageOf)
    requires Tight(cut) && cut.leaf == sp.leaf - PagesOf(sf)
    ensures ProcessOk(cut, Of(surfaces - {sf}, sf.owner), pageOf - PagesOf(sf))
  {
    assert Of(surfaces - {sf}, sf.owner) == Of(surfaces, sf.owner) - {sf} && sf in Of(surfaces, sf.owner);
    hide Of, OwnPages, Tight;
    FewerPages(sp.leaf, Of(surfaces, sf.owner), pageOf, sf);
  }

  lemma FewerFrames(surfaces: set<Surface>, frameOf: map<nat, Surface>, sf: Surface)
    requires OwnFrames(surfaces, frameOf) && sf in surfaces
    ensures OwnFrames(surfaces - {sf}, frameOf - Backing(sf))
  {
    hide Backing;
    var less := frameOf - Backing(sf);
    forall other, f | other in surfaces - {sf} && f in Backing(other)
      ensures f in less && less[f] == other
    {
      assert f in frameOf && frameOf[f] == other;
      assert f !in Backing(sf);
    }
  }

  lemma FewerPages(a: map<Page, Pte>, surfaces: set<Surface>, pageOf: map<Page, Surface>, sf: Surface)
    requires OwnPages(a, surfaces, pageOf) && sf in surfaces
    ensures OwnPages(a - PagesOf(sf), surfaces - {sf}, pageOf - PagesOf(sf))
  {
    hide PageOf, SurfaceArgs;
    forall other | other in surfaces - {sf} ensures Shown(a - PagesOf(sf), other) {
      assert Shown(a, other);
      OtherPages(surfaces, pageOf, sf, other);
    }
    hide Shown;
    forall other, p | other in surfaces - {sf} && p in PagesOf(other) ensures p !in PagesOf(sf) {
      assert p in pageOf && pageOf[p] == other;
    }
    hide PagesOf;
  }

  lemma OtherPages(surfaces: set<Surface>, pageOf: map<Page, Surface>, sf: Surface, other: Surface)
    requires forall x, p :: x in surfaces && p in PagesOf(x) ==> p in pageOf && pageOf[p] == x
    requires sf in surfaces && other in surfaces && other != sf
    ensures forall k {:trigger At(other.virt, k)} :: 0 <= k < other.pages ==>
      PageOf(At(other.virt, k)) !in PagesOf(sf)
  {
    hide PageOf;
    forall k {:trigger At(other.virt, k)} | 0 <= k < other.pages
      ensures PageOf(At(other.virt, k)) !in PagesOf(sf)
    {
      var p := PageOf(At(other.virt, k));
      assert p in PagesOf(other) && pageOf[p] == other;
    }
  }

  // A new process.
  method CreateOp(mc: Machine, active: nat, ghost s: Sys, procs: set<nat>, ghost surfaces: set<Surface>,
                  ghost frameOf: map<nat, Surface>, ghost pageOf: map<nat, map<Page, Surface>>)
    returns (more: set<nat>, ghost pageOf': map<nat, map<Page, Surface>>)
    requires Running(mc, s, procs, surfaces, frameOf, pageOf) && active !in procs && active !in s.free
    modifies mc, mc.pool
    ensures Running(mc, s, more, surfaces, frameOf, pageOf') && procs <= more && active !in more
    ensures more == procs ==> |old(mc.Now()).free| < 2
  {
    hide Good, Since, Registered, ContentKept, Created, Returned, InheritsKernel, MemoryOk, OwnFrames,
      FP.FramePool.Valid, FP.FramePool.Free;
    ghost var t := mc.Now();
    StillTaken(mc, s, procs, surfaces, frameOf, pageOf);
    var c := mc.CloneActive();
    ghost var u := mc.Now();
    if c.None? {
      ReturnedFacts(t, u);
      SinceSame(s, t, u, procs, frameOf.Keys);
      return procs, pageOf;
    }
    more, pageOf' := procs + {c.value}, pageOf[c.value := map[]];
    SinceCreated(s, t, u, procs, frameOf.Keys, c.value);
    RegisteredNew(t, u, procs, surfaces, pageOf, c.value);
  }

  lemma SinceCreated(s: Sys, t: Sys, u: Sys, procs: set<nat>, backing: set<nat>, root: nat)
    requires Since(s, t, procs, backing) && Created(t, u, root) && s.taken <= t.taken
    requires t.taken !! t.free && t.view.owners.Keys <= t.taken
    ensures Since(s, u, procs + {root}, backing) && root in t.free && root !in procs
  {
    ContentTrans(s, t, u);
    assert u.view.spaces - (procs + {root}) == t.view.spaces - procs;
    hide ContentKept;
  }

  lemma RegisteredNew(t: Sys, u: Sys, procs: set<nat>, surfaces: set<Surface>,
                      pageOf: map<nat, map<Page, Surface>>, root: nat)
    requires Registered(t.view.spaces, procs, surfaces, pageOf) && Created(t, u, root)
    ensures Registered(u.view.spaces, procs + {root}, surfaces, pageOf[root := map[]])
  {
    FreshOk(root, u.view.spaces[root].low);
    assert Of(surfaces, root) == {};
    hide ProcessOk, Of, ContentKept;
  }

  lemma FreshOk(root: nat, low: nat)
    ensures ProcessOk(FreshSpace(root, low), {}, map[])
  {
  }

  // A process exits: its surfaces go, then its address space.
  method ExitOp(mc: Machine, cr3: nat, active: nat, ghost s: Sys, procs: set<nat>, surfaces: set<Surface>,
                ghost frameOf: map<nat, Surface>, ghost pageOf: map<nat, map<Page, Surface>>)
    returns (fewer: set<Surface>, ghost frameOf': map<nat, Surface>, ghost pageOf': map<nat, map<Page, Surface>>)
    requires Running(mc, s, procs, surfaces, frameOf, pageOf) && cr3 in procs && cr3 != active
    modifies mc, mc.pool
    ensures Running(mc, s, procs - {cr3}, fewer, frameOf', pageOf')
  {
    hide Running;
    fewer, frameOf', pageOf' := surfaces, frameOf, pageOf;
    while exists sf :: sf in fewer && sf.owner == cr3
      invariant Running(mc, s, procs, fewer, frameOf', pageOf')
      decreases |fewer|
    {
      var sf :| sf in fewer && sf.owner == cr3;
      fewer, frameOf', pageOf' := DestroySurfaceOp(mc, sf, s, procs, fewer, frameOf', pageOf');
    }
    pageOf' := DestroySpaceOp(mc, cr3, active, s, procs, fewer, frameOf', pageOf');
  }

  method DestroySpaceOp(mc: Machine, cr3: nat, active: nat, ghost s: Sys, ghost procs: set<nat>,
                        ghost surfaces: set<Surface>, ghost frameOf: map<nat, Surface>,
                        ghost pageOf: map<nat, map<Page, Surface>>)
    returns (ghost pageOf': map<nat, map<Page, Surface>>)
    requires Running(mc, s, procs, surfaces, frameOf, pageOf) && cr3 in procs && cr3 != active
    requires forall sf :: sf in surfaces ==> sf.owner != cr3
    modifies mc, mc.pool
    ensures Running(mc, s, procs - {cr3}, surfaces, frameOf, pageOf')
  {
    hide Good, Since, Registered, ContentKept, Destroyed, MemoryOk, OwnFrames, FP.FramePool.Valid, FP.FramePool.Free;
    ghost var t := mc.Now();
    StillTaken(mc, s, procs, surfaces, frameOf, pageOf);
    NotReserved(mc, cr3);
    var d := mc.Destroy(cr3, active);
    pageOf' := pageOf - {cr3};
    SinceGone(s, t, mc.Now(), procs, frameOf.Keys, cr3);
    RegisteredGone(t, mc.Now(), procs, surfaces, pageOf, cr3);
  }

  lemma SinceGone(s: Sys, t: Sys, u: Sys, procs: set<nat>, backing: set<nat>, cr3: nat)
    requires Since(s, t, procs, backing) && Destroyed(t, u, cr3) && cr3 in procs && s.taken <= t.taken
    ensures Since(s, u, procs - {cr3}, backing)
  {
    ContentTrans(s, t, u);
    assert u.view.spaces - (procs - {cr3}) == t.view.spaces - procs;
    hide ContentKept;
  }

  lemma RegisteredGone(t: Sys, u: Sys, procs: set<nat>, surfaces: set<Surface>,
                       pageOf: map<nat, map<Page, Surface>>, cr3: nat)
    requires Registered(t.view.spaces, procs, surfaces, pageOf) && Destroyed(t, u, cr3)
    requires forall sf :: sf in surfaces ==> sf.owner != cr3
    ensures Registered(u.view.spaces, procs - {cr3}, surfaces, pageOf - {cr3})
  {
    hide ProcessOk, Of, ContentKept, ExternalIn;
  }

  // -------------------------------------------------------------- isolation

  // Who may reach a frame: the process that owns it, or the one whose surface it backs.
  ghost predicate HeldBy(t: Sys, frameOf: map<nat, Surface>, c: nat, f: nat) {
    if f in t.view.owners then t.view.owners[f] == c && c in t.view.spaces && f in t.view.spaces[c].own
                               && t.view.spaces[c].own[f].Leaf?
    else f in t.taken && f in frameOf && frameOf[f].owner == c
  }

  // Whatever user code of a process of the run reaches is a page of that process
  // or part of one of its surfaces. No page table and no free frame is among it.
  lemma ReachesOwn(mc: Machine, s: Sys, procs: set<nat>, surfaces: set<Surface>, frameOf: map<nat, Surface>,
                   pageOf: map<nat, map<Page, Surface>>, c: nat, virt: nat)
    requires Running(mc, s, procs, surfaces, frameOf, pageOf) && c in procs
    requires Reach(mc.mem, c, virt).Some?
    ensures HeldBy(mc.Now(), frameOf, c, Reach(mc.mem, c, virt).value.frame)
  {
    hide Good, PageOf, MemoryOk, FP.FramePool.Valid, FP.FramePool.Free, Reach, Registered, ContentKept, OwnFrames,
      Accounted, OwnPages, Of, HeldBy;
    var p := PageOf(virt);
    StillTaken(mc, s, procs, surfaces, frameOf, pageOf);
    OneProcess(mc.spaces, procs, surfaces, pageOf, c);
    Seen(mc.V(), c, virt);
    if mc.spaces[c].leaf[p].owned {
      OwnedHeld(mc.Now(), frameOf, c, p);
    } else {
      SurfaceHeld(mc.Now(), surfaces, frameOf, pageOf[c], c, p);
    }
  }

  lemma OwnedHeld(t: Sys, frameOf: map<nat, Surface>, c: nat, p: Page)
    requires Good(t.view) && c in t.view.spaces && p in t.view.spaces[c].leaf && t.view.spaces[c].leaf[p].owned
    ensures HeldBy(t, frameOf, c, t.view.spaces[c].leaf[p].addr)
  {
    hide Good, Represents;
    GoodTree(t.view, c);
    HoldsConsistent(t.view.mem, t.view.spaces[c]);
    assert Has(t.view.spaces[c], t.view.spaces[c].leaf[p].addr, Leaf(p));
  }

  lemma SurfaceHeld(t: Sys, surfaces: set<Surface>, frameOf: map<nat, Surface>, pages: map<Page, Surface>, c: nat,
                    p: Page)
    requires c in t.view.spaces && p in t.view.spaces[c].leaf && !t.view.spaces[c].leaf[p].owned
    requires OwnPages(t.view.spaces[c].leaf, Of(surfaces, c), pages) && Accounted(t.view.spaces[c].leaf, pages)
    requires OwnFrames(surfaces, frameOf) && frameOf.Keys <= ExternalIn(t)
    ensures HeldBy(t, frameOf, c, t.view.spaces[c].leaf[p].addr)
  {
    hide PageOf, ExternalIn, OwnFrames, Shown, PagesOf, Of, SurfaceArgs, HeldBy, Backing;
    var sf := pages[p];
    InSurface(t.view.spaces[c].leaf, sf, p);
    assert sf in surfaces && sf.owner == c by { hide OwnPages, Accounted; SurfaceOf(surfaces, c, sf); }
    BackedHeld(t, surfaces, frameOf, sf, t.view.spaces[c].leaf[p].addr);
  }

  lemma SurfaceOf(surfaces: set<Surface>, c: nat, sf: Surface)
    requires sf in Of(surfaces, c)
    ensures sf in surfaces && sf.owner == c
  {
  }

  lemma InSurface(leaf: map<Page, Pte>, sf: Surface, p: Page)
    requires Shown(leaf, sf) && p in PagesOf(sf) && p in leaf
    ensures leaf[p].addr in Backing(sf)
  {
    hide PageOf, Backing;
    var k :| 0 <= k < sf.pages && p == PageOf(At(sf.virt, k));
    FrameBehind(sf, k);
  }

  lemma BackedHeld(t: Sys, surfaces: set<Surface>, frameOf: map<nat, Surface>, sf: Surface, f: nat)
    requires OwnFrames(surfaces, frameOf) && frameOf.Keys <= ExternalIn(t) && sf in surfaces && f in Backing(sf)
    ensures HeldBy(t, frameOf, sf.owner, f)
  {
    hide Backing;
  }

  // Two processes never reach a common frame, and none reaches a page table.
  lemma Isolated(mc: Machine, s: Sys, procs: set<nat>, surfaces: set<Surface>, frameOf: map<nat, Surface>,
                 pageOf: map<nat, map<Page, Surface>>, c: nat, d: nat, v: nat, w: nat)
    requires Running(mc, s, procs, surfaces, frameOf, pageOf) && c in procs && d in procs && c != d
    requires Reach(mc.mem, c, v).Some? && Reach(mc.mem, d, w).Some?
    ensures Reach(mc.mem, c, v).value.frame != Reach(mc.mem, d, w).value.frame
    ensures forall x :: x in mc.spaces ==> !IsTable(mc.spaces[x], Reach(mc.mem, c, v).value.frame)
    ensures Reach(mc.mem, c, v).value.frame !in mc.pool.Free()
  {
    hide Good, PageOf, MemoryOk, FP.FramePool.Valid, FP.FramePool.Free, Reach, Registered, ContentKept, OwnFrames,
      ProcessOk, IsTable;
    ReachesOwn(mc, s, procs, surfaces, frameOf, pageOf, c, v);
    ReachesOwn(mc, s, procs, surfaces, frameOf, pageOf, d, w);
    StillTaken(mc, s, procs, surfaces, frameOf, pageOf);
    NotATable(mc.Now(), frameOf, c, Reach(mc.mem, c, v).value.frame);
  }

  ghost predicate IsTable(sp: Space, f: nat) {
    f == sp.root || f == sp.low || sp.l2 == Some(f) || exists i :: i in sp.l1 && sp.l1[i] == f
  }

  lemma NotATable(t: Sys, frameOf: map<nat, Surface>, c: nat, f: nat)
    requires Good(t.view) && HeldBy(t, frameOf, c, f)
    ensures forall x :: x in t.view.spaces ==> !IsTable(t.view.spaces[x], f)
  {
    hide Good, Represents;
    forall x | x in t.view.spaces ensures !IsTable(t.view.spaces[x], f) {
      GoodTree(t.view, x);
      HoldsConsistent(t.view.mem, t.view.spaces[x]);
      if IsTable(t.view.spaces[x], f) { TablesOwned(t.view.spaces[x], f); }
    }
  }

  lemma TablesOwned(sp: Space, f: nat)
    requires Consistent(sp) && IsTable(sp, f)
    ensures f in sp.own && !sp.own[f].Leaf?
  {
    if i :| i in sp.l1 && sp.l1[i] == f { assert Has(sp, f, L1(i)); }
  }

  // As long as a surface is registered its owner can read and write all of it.
  lemma SurfaceStaysOpen(mc: Machine, s: Sys, procs: set<nat>, surfaces: set<Surface>, frameOf: map<nat, Surface>,
                         pageOf: map<nat, map<Page, Surface>>, sf: Surface)
    requires Running(mc, s, procs, surfaces, frameOf, pageOf) && sf in surfaces
    ensures Shows(mc.mem, sf.owner, sf.virt, sf.phys, sf.pages)
  {
    hide Good, PageOf, MemoryOk, FP.FramePool.Valid, FP.FramePool.Free, Reach, Registered, ContentKept, OwnFrames,
      Accounted, Of, Since, PagesOf;
    OwnerLives(mc.spaces, procs, surfaces, pageOf, sf);
    assert Shown(mc.spaces[sf.owner].leaf, sf) && SurfaceArgs(sf.virt, sf.phys, sf.pages);
    hide OwnPages;
    forall x | sf.virt <= x < At(sf.virt, sf.pages) ensures ShowsAt(mc.mem, sf.owner, sf.virt, sf.phys, x) {
      var k := PageNumber(sf.virt, sf.pages, x);
      assert PageOf(At(sf.virt, k)) in mc.spaces[sf.owner].leaf;
      Seen(mc.V(), sf.owner, x);
    }
  }

  // ------------------------------------------------------------------ runs

  // However the requests of the processes interleave and wherever they fail, once
  // the last process has exited every frame is where it was: the same frames are
  // handed out, the same are free, the other address spaces are untouched and no
  // page in use has lost its bytes. A request of a process that is not alive is
  // refused.
  method RunProcesses(mc: Machine, ops: seq<Op>, active: nat)
    requires mc.Valid() && active !in mc.pool.Free()
    requires forall op :: op in ops && op.CreateSurface? ==> op.pages < U64_LIMIT
    modifies mc, mc.pool
    ensures mc.Valid()
    ensures mc.spaces == old(mc.spaces)
    ensures mc.pool.taken == old(mc.pool.taken) && mc.pool.Free() == old(mc.pool.Free())
    ensures ContentKept(old(mc.Now()), mc.Now())
  {
    hide Running, M.Machine.Valid, FP.FramePool.Free, ContentKept, Good, MemoryOk;
    ghost var s := mc.Now();
    NoneRunning(mc);
    var procs: set<nat>, surfaces: set<Surface> := {}, {};
    ghost var frameOf: map<nat, Surface>, pageOf: map<nat, map<Page, Surface>> := map[], map[];
    var i := 0;
    while i < |ops|
      invariant 0 <= i <= |ops|
      invariant Running(mc, s, procs, surfaces, frameOf, pageOf) && active !in procs
    {
      assert ops[i] in ops;
      procs, surfaces, frameOf, pageOf := Serve(mc, ops[i], active, s, procs, surfaces, frameOf, pageOf);
      i := i + 1;
    }
    while procs != {}
      invariant Running(mc, s, procs, surfaces, frameOf, pageOf) && active !in procs
      decreases |procs|
    {
      var cr3 :| cr3 in procs;
      surfaces, frameOf, pageOf := ExitOp(mc, cr3, active, s, procs, surfaces, frameOf, pageOf);
      procs := procs - {cr3};
    }
    EverythingBack(mc, s, surfaces, frameOf, pageOf);
  }

  // One request.
  method Serve(mc: Machine, op: Op, active: nat, ghost s: Sys, procs: set<nat>, surfaces: set<Surface>,
               ghost frameOf: map<nat, Surface>, ghost pageOf: map<nat, map<Page, Surface>>)
    returns (procs': set<nat>, surfaces': set<Surface>,
             ghost frameOf': map<nat, Surface>, ghost pageOf': map<nat, map<Page, Surface>>)
    requires Running(mc, s, procs, surfaces, frameOf, pageOf) && active !in procs && active !in s.free
    requires op.CreateSurface? ==> op.pages < U64_LIMIT
    modifies mc, mc.pool
    ensures Running(mc, s, procs', surfaces', frameOf', pageOf') && active !in procs'
  {
    hide *;
    procs', surfaces', frameOf', pageOf' := procs, surfaces, frameOf, pageOf;
    match op {
      case Create =>
        procs', pageOf' := CreateOp(mc, active, s, procs, surfaces, frameOf, pageOf);
      case MapRegion(cr3, virt, len, writable) =>
        if cr3 in procs { MapRegionOp(mc, cr3, virt, len, writable, s, procs, surfaces, frameOf, pageOf); }
      case CreateSurface(cr3, virt, pages) =>
        if cr3 in procs {
          surfaces', frameOf', pageOf' := CreateSurfaceOp(mc, cr3, virt, pages, s, procs, surfaces, frameOf, pageOf);
        }
      case DestroySurface(sf) =>
        surfaces', frameOf', pageOf' := DestroySurfaceOp(mc, sf, s, procs, surfaces, frameOf, pageOf);
      case Exit(cr3) =>
        if cr3 in procs {
          surfaces', frameOf', pageOf' := ExitOp(mc, cr3, active, s, procs, surfaces, frameOf, pageOf);
          procs' := procs - {cr3};
        }
    }
  }

  lemma NotReserved(mc: Machine, cr3: nat)
    requires mc.Valid() && cr3 in mc.spaces
    ensures cr3 != 0 && cr3 != mc.kernelRoot
  {
    hide Good, Holds;
    GoodTree(mc.V(), cr3);
    RootOwned(mc.mem, mc.spaces[cr3]);
  }

  lemma SinceNothing(s: Sys)
    ensures Since(s, s, {}, {})
  {
    assert s.view.spaces - {} == s.view.spaces;
  }

  lemma NoneRunning(mc: Machine)
    requires mc.Valid()
    ensures Running(mc, mc.Now(), {}, {}, map[], map[])
  {
    hide Good, MemoryOk, FP.FramePool.Valid, FP.FramePool.Free;
    mc.Ownership();
    var none: map<nat, Surface> := map[];
    assert none.Keys == {};
    SinceNothing(mc.Now());
    hide ContentKept, ProcessOk, Since;
  }

  lemma ReturnedFacts(s: Sys, t: Sys)
    requires Returned(s, t)
    ensures t.view.spaces == s.view.spaces && t.taken == s.taken && t.free == s.free && ContentKept(s, t)
    ensures ExternalIn(t) == ExternalIn(s)
  {
  }

  // No process is left.
  lemma EverythingBack(mc: Machine, s: Sys, surfaces: set<Surface>, frameOf: map<nat, Surface>,
                       pageOf: map<nat, map<Page, Surface>>)
    requires Running(mc, s, {}, surfaces, frameOf, pageOf)
    ensures mc.Valid() && mc.spaces == s.view.spaces && mc.Now().taken == s.taken && mc.Now().free == s.free
    ensures ContentKept(s, mc.Now())
  {
    hide Good, MemoryOk, FP.FramePool.Valid, FP.FramePool.Free, ContentKept, ProcessOk;
    assert surfaces == {} && frameOf.Keys == {};
    mc.Ownership();
    SameFrames(s, mc.Now());
  }

  lemma SameFrames(s: Sys, u: Sys)
    requires Since(s, u, {}, {}) && Good(s.view) && Good(u.view)
    requires s.view.owners.Keys <= s.taken && u.view.owners.Keys <= u.taken
    requires s.taken !! s.free && u.taken !! u.free
    ensures u.view.spaces == s.view.spaces && u.taken == s.taken && u.free == s.free && ContentKept(s, u)
  {
    hide Good, ContentKept;
    assert u.view.spaces - {} == u.view.spaces;
    OwnersDetermined(s.view, u.view);
    assert u.taken == ExternalIn(u) + u.view.owners.Keys;
    assert s.taken == ExternalIn(s) + s.view.owners.Keys;
  }
}
