// Per-process address spaces over the shared frame pool (kernel/src/memory.rs).
//
// `spaces` and `owners` are ghost: the tree every live address space has in
// memory, and the address space each owned frame belongs to.
module Memory {
  import opened Wrappers
  import opened AddressSpace
  import FP = FramePool

  const USER_ADDR_BASE: nat := 0x4000_0000
  const USER_ADDR_LIMIT: nat := 0x8000_0000
  const U64_LIMIT: nat := 0x1_0000_0000_0000_0000

  datatype MapResult = Mapped | AlreadyMapped | NoFrame

  datatype MemError =
    | OutsideUserSpace | NoFreeFrames | MappedOrNoTable | RegionOverflow | RegionOutOfBounds
    | InvalidSurface | SurfaceOverlaps | BackingMismatch | CannotDestroy

  // ------------------------------------------------------- address arithmetic

  function P4(virt: nat): nat { virt / 0x80_0000_0000 % 512 }
  function P3(virt: nat): nat { virt / 0x4000_0000 % 512 }
  function P2(virt: nat): nat { virt / 0x20_0000 % 512 }
  function P1(virt: nat): nat { virt / 0x1000 % 512 }

  function PageOf(virt: nat): Page { Page(P2(virt), P1(virt)) }

  predicate InUser(virt: nat) { USER_ADDR_BASE <= virt < USER_ADDR_LIMIT }

  // All of user space lies below entry 1 of the low table of entry 0 of the root.
  lemma UserIndices(virt: nat)
    requires InUser(virt)
    ensures P4(virt) == 0 && P3(virt) == 1
    ensures virt / PAGE == 0x4_0000 + 512 * P2(virt) + P1(virt)
  {
    assert virt / 0x20_0000 == virt / PAGE / 512;
    assert virt / 0x4000_0000 == virt / 0x20_0000 / 512;
  }

  lemma PageOfIsInjective(v: nat, w: nat)
    requires InUser(v) && InUser(w) && PageOf(v) == PageOf(w)
    ensures v / PAGE == w / PAGE
  {
    UserIndices(v);
    UserIndices(w);
  }

  // Virtual address of page number `k` from `start` on.
  function At(start: nat, k: nat): nat { start + k * PAGE }

  // The pages numbered lo..hi from `start` on.
  ghost function Range(start: nat, lo: nat, hi: nat): set<Page> {
    set k | lo <= k < hi :: PageOf(At(start, k))
  }

  lemma RangeMember(start: nat, lo: nat, hi: nat, k: nat)
    requires start % PAGE == 0 && USER_ADDR_BASE <= start && At(start, hi) <= USER_ADDR_LIMIT
    requires k < hi
    ensures InUser(At(start, k))
    ensures PageOf(At(start, k)) in Range(start, lo, hi) <==> lo <= k
  {
    if PageOf(At(start, k)) in Range(start, lo, hi) {
      var n :| lo <= n < hi && PageOf(At(start, n)) == PageOf(At(start, k));
      PageOfIsInjective(At(start, n), At(start, k));
    }
  }

  lemma RangeSplit(start: nat, lo: nat, hi: nat)
    requires start % PAGE == 0 && USER_ADDR_BASE <= start && At(start, hi) <= USER_ADDR_LIMIT
    requires lo < hi
    ensures Range(start, lo, hi) == {PageOf(At(start, lo))} + Range(start, lo + 1, hi)
    ensures Range(start, lo, hi) == {PageOf(At(start, hi - 1))} + Range(start, lo, hi - 1)
    ensures PageOf(At(start, lo)) !in Range(start, lo + 1, hi)
    ensures PageOf(At(start, hi - 1)) !in Range(start, lo, hi - 1)
  {
    RangeMember(start, lo + 1, hi, lo);
    forall k | lo <= k < hi - 1 ensures PageOf(At(start, k)) != PageOf(At(start, hi - 1)) {
      if PageOf(At(start, k)) == PageOf(At(start, hi - 1)) {
        PageOfIsInjective(At(start, k), At(start, hi - 1));
      }
    }
  }

  // ------------------------------------------------------------- the system

  // Memory, the tree of every live address space, and, for every frame owned by
  // one of them, which one.
  datatype View = View(mem: Memory, spaces: map<nat, Space>, owners: map<nat, nat>)

  ghost predicate OwnersAgree(spaces: map<nat, Space>, owners: map<nat, nat>) {
    forall c, f :: c in spaces && f in spaces[c].own ==> f in owners && owners[f] == c
  }

  // Conversely, every frame in `owners` is owned by the space it names.
  ghost predicate NoOrphans(spaces: map<nat, Space>, owners: map<nat, nat>) {
    forall f :: f in owners ==> owners[f] in spaces && f in spaces[owners[f]].own
  }

  ghost predicate AllHold(m: Memory, spaces: map<nat, Space>) {
    forall c :: c in spaces ==> Holds(m, c, spaces[c])
  }

  // Memory holds every tree, and no two trees share an owned frame.
  ghost predicate Good(v: View) {
    match v
    case View(m, spaces, owners) =>
      AllHold(m, spaces) && OwnersAgree(spaces, owners) && NoOrphans(spaces, owners)
  }

  lemma GoodTree(v: View, c: nat)
    requires Good(v) && c in v.spaces
    ensures Holds(v.mem, c, v.spaces[c]) && v.spaces[c].root == c
    ensures forall f :: f in v.spaces[c].own ==> f in v.owners && v.owners[f] == c
    ensures Reowned(v.owners, c, v.spaces[c].own.Keys) == v.owners
    ensures v.spaces[c := v.spaces[c]] == v.spaces
  {
    hide Holds;
    RootOf(v.mem, c, v.spaces[c]);
  }

  ghost predicate KeptOn(m: Memory, m': Memory, frames: set<nat>) {
    forall f :: f in frames && f in m ==> f in m' && m'[f] == m[f]
  }

  lemma KeptTrees(m: Memory, m': Memory, spaces: map<nat, Space>)
    requires AllHold(m, spaces)
    requires forall c :: c in spaces ==> KeptOn(m, m', spaces[c].own.Keys)
    ensures AllHold(m', spaces)
  {
    forall c | c in spaces ensures Holds(m', c, spaces[c]) {
      assert KeptOn(m, m', spaces[c].own.Keys);
      RepresentsDependsOnOwn(m, m', spaces[c]);
    }
  }

  lemma KeptFrames(m: Memory, m': Memory, spaces: map<nat, Space>, owners: map<nat, nat>, cr3: nat)
    requires OwnersAgree(spaces, owners)
    requires forall f :: f in owners && owners[f] != cr3 && f in m ==> f in m' && m'[f] == m[f]
    ensures forall c :: c in spaces && c != cr3 ==> KeptOn(m, m', spaces[c].own.Keys)
  {
  }

  // The owner map after one space has changed its own frames.
  ghost function Reowned(owners: map<nat, nat>, cr3: nat, own: set<nat>): map<nat, nat> {
    map f | f in owners.Keys + own && (f in own || owners[f] != cr3) ::
      if f in own then cr3 else owners[f]
  }

  lemma ReownedAgrees(spaces: map<nat, Space>, owners: map<nat, nat>, cr3: nat, sp: Space)
    requires OwnersAgree(spaces, owners)
    requires forall f :: f in sp.own && f in owners ==> owners[f] == cr3
    ensures OwnersAgree(spaces[cr3 := sp], Reowned(owners, cr3, sp.own.Keys))
  {
  }

  lemma NoOrphansKept(spaces: map<nat, Space>, owners: map<nat, nat>, cr3: nat, sp: Space)
    requires NoOrphans(spaces, owners)
    ensures NoOrphans(spaces[cr3 := sp], Reowned(owners, cr3, sp.own.Keys))
  {
  }

  // The owner map is determined by the trees.
  lemma OwnersDetermined(v: View, w: View)
    requires Good(v) && Good(w) && v.spaces == w.spaces
    ensures v.owners == w.owners
  {
    hide Holds;
    assert v.owners.Keys == w.owners.Keys;
  }

  // The state after memory became `m` and the tree of `cr3` became `sp`.
  ghost function Next(v: View, m: Memory, cr3: nat, sp: Space): View {
    View(m, v.spaces[cr3 := sp], Reowned(v.owners, cr3, sp.own.Keys))
  }

  // One step: memory changed at most on frames of `cr3` and on frames nobody
  // owned, and now holds the tree `sp`.
  lemma GoodStep(v: View, m: Memory, cr3: nat, sp: Space)
    requires Good(v)
    requires forall f :: f in v.owners && v.owners[f] != cr3 && f in v.mem ==> f in m && m[f] == v.mem[f]
    requires forall f :: f in sp.own && f in v.owners ==> v.owners[f] == cr3
    requires Holds(m, cr3, sp)
    ensures Good(Next(v, m, cr3, sp))
  {
    hide Holds;
    KeptFrames(v.mem, m, v.spaces, v.owners, cr3);
    KeptTrees(v.mem, m, v.spaces - {cr3});
    ReownedAgrees(v.spaces, v.owners, cr3, sp);
    NoOrphansKept(v.spaces, v.owners, cr3, sp);
    var next := v.spaces[cr3 := sp];
    forall c | c in next ensures Holds(m, c, next[c]) {
      if c != cr3 { assert c in v.spaces - {cr3} && next[c] == (v.spaces - {cr3})[c]; }
    }
  }

  // The three ways a step changes the frames a space owns.
  lemma GoodGrow(v: View, m: Memory, cr3: nat, sp: Space, f: nat)
    requires Good(v) && cr3 in v.spaces && f !in v.owners
    requires sp.own.Keys == v.spaces[cr3].own.Keys + {f}
    requires forall g :: g in v.owners && v.owners[g] != cr3 && g in v.mem ==> g in m && m[g] == v.mem[g]
    requires Holds(m, cr3, sp)
    ensures Good(Next(v, m, cr3, sp))
    ensures Next(v, m, cr3, sp).owners.Keys == v.owners.Keys + {f}
  {
    hide Holds;
    GoodTree(v, cr3);
    GoodStep(v, m, cr3, sp);
  }

  lemma GoodShrink(v: View, m: Memory, cr3: nat, sp: Space, f: nat)
    requires Good(v) && cr3 in v.spaces && f in v.spaces[cr3].own
    requires sp.own.Keys == v.spaces[cr3].own.Keys - {f}
    requires forall g :: g in v.owners && v.owners[g] != cr3 && g in v.mem ==> g in m && m[g] == v.mem[g]
    requires Holds(m, cr3, sp)
    ensures Good(Next(v, m, cr3, sp))
    ensures Next(v, m, cr3, sp).owners.Keys == v.owners.Keys - {f}
  {
    hide Holds;
    GoodTree(v, cr3);
    GoodStep(v, m, cr3, sp);
  }

  lemma GoodSame(v: View, m: Memory, cr3: nat, sp: Space)
    requires Good(v) && cr3 in v.spaces
    requires sp.own.Keys == v.spaces[cr3].own.Keys
    requires forall g :: g in v.owners && v.owners[g] != cr3 && g in v.mem ==> g in m && m[g] == v.mem[g]
    requires Holds(m, cr3, sp)
    ensures Good(Next(v, m, cr3, sp))
    ensures Next(v, m, cr3, sp).owners.Keys == v.owners.Keys
  {
    hide Holds;
    GoodTree(v, cr3);
    GoodStep(v, m, cr3, sp);
  }

  // Writing a frame that no space owns.
  lemma GoodUnownedWrite(v: View, f: nat, x: Content)
    requires Good(v) && f !in v.owners
    ensures Good(View(v.mem[f := x], v.spaces, v.owners))
  {
    hide Holds;
    UnownedFrame(v.mem, f, x, v.spaces, v.owners);
    KeptTrees(v.mem, v.mem[f := x], v.spaces);
  }

  lemma UnownedFrame(m: Memory, f: nat, x: Content, spaces: map<nat, Space>, owners: map<nat, nat>)
    requires OwnersAgree(spaces, owners) && f !in owners
    ensures forall c :: c in spaces ==> KeptOn(m, m[f := x], spaces[c].own.Keys)
  {
  }

  // The kernel's own root and low tables, which no pool frame holds.
  ghost predicate KernelTablesIn(m: Memory, kernelRoot: nat, universe: set<nat>) {
    && kernelRoot !in universe && TableAt(m, kernelRoot)
    && var e := m[kernelRoot].table[0];
       e.present ==> e.addr !in universe && TableAt(m, e.addr)
  }

  // Every pool frame is there, none of them is frame 0, and the kernel's tables
  // lie outside.
  ghost predicate MemoryOk(m: Memory, kernelRoot: nat, universe: set<nat>) {
    && 0 !in universe
    && (forall f :: f in universe ==> f in m)
    && KernelTablesIn(m, kernelRoot, universe)
  }

  lemma PoolWriteOk(m: Memory, kernelRoot: nat, universe: set<nat>, f: nat, x: Content)
    requires MemoryOk(m, kernelRoot, universe) && f in universe
    ensures f in m && MemoryOk(m[f := x], kernelRoot, universe)
  {
  }

  lemma TableWriteOk(m: Memory, kernelRoot: nat, universe: set<nat>, f: nat, k: nat, e: Pte)
    requires MemoryOk(m, kernelRoot, universe) && f in universe && TableAt(m, f) && k < ENTRIES
    ensures MemoryOk(Write(m, f, k, e), kernelRoot, universe)
  {
    PoolWriteOk(m, kernelRoot, universe, f, Words(m[f].table[k := e]));
  }

  // The whole system: the view, and how the frame pool is split.
  datatype Sys = Sys(view: View, taken: set<nat>, free: set<nat>)

  // Frames handed out by the pool that no address space owns: surface and DMA
  // backing, device tables, and the like.
  ghost function ExternalIn(s: Sys): set<nat> {
    s.taken - s.view.owners.Keys
  }

  // Only address space `cr3` has changed, nothing was freed, and no page in use
  // and no memory outside the pool lost its content.
  ghost predicate StepOn(s: Sys, t: Sys, cr3: nat) {
    && cr3 in t.view.spaces
    && t.view.spaces == s.view.spaces[cr3 := t.view.spaces[cr3]]
    && s.taken <= t.taken && s.taken + s.free == t.taken + t.free
    && ContentKept(s, t)
  }

  ghost predicate ContentKept(s: Sys, t: Sys) {
    && s.view.mem.Keys <= t.view.mem.Keys
    && (forall f :: f in s.view.mem && f !in s.taken + s.free ==> t.view.mem[f] == s.view.mem[f])
    && (forall f :: f in s.view.mem && f in s.taken && s.view.mem[f].Bytes? ==> t.view.mem[f] == s.view.mem[f])
  }

  lemma StepTrans(s: Sys, t: Sys, u: Sys, cr3: nat)
    requires StepOn(s, t, cr3) && StepOn(t, u, cr3)
    ensures StepOn(s, u, cr3)
  {
  }

  // A zeroed extent was taken from the pool.
  ghost predicate Reserved(s: Sys, t: Sys, first: nat, count: nat) {
    && FP.Extent(first, count) <= s.free
    && FP.Extent(first, count) !! s.taken && FP.Extent(first, count) !! s.view.owners.Keys
    && t.view.spaces == s.view.spaces && t.view.owners == s.view.owners
    && t.taken == s.taken + FP.Extent(first, count) && t.free == s.free - FP.Extent(first, count)
    && t.view.mem.Keys == s.view.mem.Keys
    && (forall f :: f in s.view.mem && f !in FP.Extent(first, count) ==> t.view.mem[f] == s.view.mem[f])
    && (forall f :: f in FP.Extent(first, count) ==> f in t.view.mem && t.view.mem[f] == Bytes(ZeroPage()))
  }

  // One zeroed frame was taken from the pool.
  ghost predicate Allocated(s: Sys, t: Sys, f: nat) {
    && f in s.free && f !in s.taken && f !in s.view.owners
    && t.view == View(s.view.mem[f := Bytes(ZeroPage())], s.view.spaces, s.view.owners)
    && t.taken == s.taken + {f} && t.free == s.free - {f}
  }

  lemma OneReserved(s: Sys, t: Sys, f: nat)
    requires Reserved(s, t, f, 1)
    ensures Allocated(s, t, f)
  {
    assert FP.Extent(f, 1) == {f + 0 * FP.PAGE_BYTES};
    hide FP.Extent;
    assert t.view.mem == s.view.mem[f := Bytes(ZeroPage())];
  }

  // The tree of `cr3` became `sp`, owning the frames `added` besides the old
  // ones, with no frame taken or freed; only table entries and `fresh` frames
  // were written.
  ghost predicate Edited(s: Sys, t: Sys, cr3: nat, sp: Space, added: set<nat>, zeroed: set<nat>) {
    && cr3 in s.view.spaces
    && t.view.spaces == s.view.spaces[cr3 := sp]
    && t.view.owners.Keys == s.view.owners.Keys + added
    && t.taken == s.taken && t.free == s.free
    && s.view.mem.Keys <= t.view.mem.Keys
    && (forall f :: f in s.view.mem && f !in zeroed && (f !in s.view.owners || s.view.mem[f].Bytes?) ==>
         t.view.mem[f] == s.view.mem[f])
  }

  // The tree of `cr3` became `sp`, which no longer owns the frames `removed`.
  ghost predicate Cut(s: Sys, t: Sys, cr3: nat, sp: Space, removed: set<nat>) {
    && cr3 in s.view.spaces
    && t.view.spaces == s.view.spaces[cr3 := sp]
    && t.view.owners.Keys == s.view.owners.Keys - removed
    && t.taken == s.taken && t.free == s.free
    && s.view.mem.Keys <= t.view.mem.Keys
    && (forall f :: f in s.view.mem && (f !in s.view.owners || s.view.mem[f].Bytes?) ==>
         t.view.mem[f] == s.view.mem[f])
  }

  // Zeroing a new table and linking it from an owned one.
  lemma LinkEdited(s: Sys, t: Sys, cr3: nat, sp: Space, f: nat, table: nat, k: nat, e: Pte)
    requires cr3 in s.view.spaces && table in s.view.owners && TableAt(s.view.mem, table)
    requires f != table && k < ENTRIES
    requires t.view.mem == Write(s.view.mem[f := Words(ZeroTable())], table, k, e)
    requires t.view.spaces == s.view.spaces[cr3 := sp]
    requires t.view.owners.Keys == s.view.owners.Keys + {f}
    requires t.taken == s.taken && t.free == s.free
    ensures Edited(s, t, cr3, sp, {f}, {f})
  {
  }

  lemma EditedStep(s: Sys, t: Sys, cr3: nat, sp: Space, added: set<nat>)
    requires Edited(s, t, cr3, sp, added, {}) && s.view.owners.Keys <= s.taken
    ensures StepOn(s, t, cr3) && ExternalIn(t) == ExternalIn(s) - added
  {
  }

  // Taking a frame and linking it as a table.
  lemma TableStep(s: Sys, t: Sys, u: Sys, f: nat, cr3: nat, sp: Space)
    requires Allocated(s, t, f) && Edited(t, u, cr3, sp, {f}, {f}) && s.view.owners.Keys <= s.taken
    ensures StepOn(s, u, cr3) && ExternalIn(u) == ExternalIn(s)
    ensures |u.free| == |s.free| - 1
  {
    TableContent(s, t, u, f, cr3, sp);
    hide ContentKept;
    MoveOne(s.taken, s.free, f);
    assert u.taken == s.taken + {f} && u.free == s.free - {f};
  }

  lemma MoveOne(taken: set<nat>, free: set<nat>, f: nat)
    requires f in free
    ensures (taken + {f}) + (free - {f}) == taken + free && |free - {f}| == |free| - 1
  {
  }

  lemma TableContent(s: Sys, t: Sys, u: Sys, f: nat, cr3: nat, sp: Space)
    requires Allocated(s, t, f) && Edited(t, u, cr3, sp, {f}, {f}) && s.view.owners.Keys <= s.taken
    ensures ContentKept(s, u)
  {
  }

  lemma StepSame(s: Sys, cr3: nat)
    requires cr3 in s.view.spaces
    ensures StepOn(s, s, cr3)
  {
  }

  lemma AllocatedFacts(s: Sys, t: Sys, f: nat)
    requires Allocated(s, t, f)
    ensures t.view.spaces == s.view.spaces && t.view.owners == s.view.owners
    ensures f in t.taken && f !in t.view.owners
    ensures f in t.view.mem && t.view.mem[f] == Bytes(ZeroPage())
  {
  }

  lemma EditedSpace(s: Sys, t: Sys, cr3: nat, sp: Space, added: set<nat>, zeroed: set<nat>)
    requires Edited(s, t, cr3, sp, added, zeroed)
    ensures cr3 in t.view.spaces && t.view.spaces[cr3] == sp && t.taken == s.taken && t.free == s.free
    ensures t.view.owners.Keys == s.view.owners.Keys + added
  {
  }

  // A data page handed out but not owned is still that after a step.
  lemma StepKeepsPage(s: Sys, t: Sys, cr3: nat, e: Pte)
    requires StepOn(s, t, cr3) && ExternalIn(t) == ExternalIn(s)
    requires e.owned ==> e.addr in ExternalIn(s) && e.addr in s.view.mem && s.view.mem[e.addr].Bytes?
    ensures e.owned ==>
      && e.addr in t.taken && e.addr !in t.view.owners
      && e.addr in t.view.mem && t.view.mem[e.addr] == s.view.mem[e.addr]
  {
    assert e.owned ==> e.addr in ExternalIn(t);
  }

  ghost predicate Freed(s: Sys, t: Sys, f: nat) {
    && t.view == s.view && t.taken == s.taken - {f}
    && t.free == s.free + if f in s.taken then {f} else {}
  }

  lemma AllocatedStep(s: Sys, t: Sys, f: nat, cr3: nat)
    requires Allocated(s, t, f) && cr3 in s.view.spaces && s.view.owners.Keys <= s.taken
    ensures StepOn(s, t, cr3) && ExternalIn(t) == ExternalIn(s) + {f} && |t.free| == |s.free| - 1
    ensures f in s.free && f !in s.taken && f !in ExternalIn(s)
    ensures f in t.taken && f !in t.view.owners && t.view.spaces == s.view.spaces
    ensures f in t.view.mem && t.view.mem[f] == Bytes(ZeroPage())
  {
  }

  // Giving back a frame that was taken since `s` and is owned by nobody.
  lemma FreedStep(s: Sys, u: Sys, w: Sys, f: nat, cr3: nat)
    requires StepOn(s, u, cr3) && Freed(u, w, f)
    requires f !in s.taken && f in ExternalIn(u)
    ensures StepOn(s, w, cr3) && ExternalIn(w) == ExternalIn(u) - {f} && w.view == u.view
    ensures |w.free| >= |u.free|
  {
    assert f in u.free ==> w.free == u.free;
  }

  lemma StepKeepsData(s: Sys, t: Sys, cr3: nat, f: nat)
    requires StepOn(s, t, cr3) && f in s.taken && f in s.view.mem && s.view.mem[f].Bytes?
    ensures f in t.taken && f in t.view.mem && t.view.mem[f] == s.view.mem[f]
  {
  }

  ghost function OwnedFrame(e: Pte): set<nat> {
    if e.owned then {e.addr} else {}
  }

  // The tree of `cr3` became `sp` and exactly the frames it no longer owns went
  // back to the pool.
  ghost predicate Trimmed(s: Sys, t: Sys, cr3: nat, sp: Space) {
    && cr3 in s.view.spaces
    && t.view.spaces == s.view.spaces[cr3 := sp]
    && ExternalIn(t) == ExternalIn(s)
    && t.taken <= s.taken && t.taken + t.free == s.taken + s.free
    && ContentKept(s, t)
  }

  lemma TrimmedSame(s: Sys, cr3: nat)
    requires cr3 in s.view.spaces
    ensures Trimmed(s, s, cr3, s.view.spaces[cr3])
  {
  }

  // Unlinking one owned frame and giving it back.
  lemma TrimmedStep(s: Sys, t: Sys, u: Sys, w: Sys, cr3: nat, mid: Space, sp: Space, f: nat)
    requires Trimmed(s, t, cr3, mid) && Cut(t, u, cr3, sp, {f}) && Freed(u, w, f)
    requires f in t.view.owners && t.view.owners.Keys <= t.taken
    ensures Trimmed(s, w, cr3, sp)
  {
    assert s.view.spaces[cr3 := mid][cr3 := sp] == s.view.spaces[cr3 := sp];
  }

  // Unlinking a frame that the space does not own.
  lemma TrimmedCut(s: Sys, t: Sys, u: Sys, cr3: nat, mid: Space, sp: Space)
    requires Trimmed(s, t, cr3, mid) && Cut(t, u, cr3, sp, {})
    requires t.view.owners.Keys <= t.taken
    ensures Trimmed(s, u, cr3, sp)
  {
    assert s.view.spaces[cr3 := mid][cr3 := sp] == s.view.spaces[cr3 := sp];
  }

  lemma CutFacts(t: Sys, u: Sys, cr3: nat, sp: Space, removed: set<nat>)
    requires Cut(t, u, cr3, sp, removed)
    ensures cr3 in u.view.spaces && u.view.spaces[cr3] == sp
    ensures u.view.owners.Keys == t.view.owners.Keys - removed
    ensures u.taken == t.taken && u.free == t.free
  {
  }

  lemma FreedFacts(s: Sys, t: Sys, f: nat)
    requires Freed(s, t, f)
    ensures t.view == s.view && t.taken == s.taken - {f}
  {
  }

  // ---------------------------------------------------- mapping a range of pages

  // Page `p` of `cr3` is a user page, freshly allocated since `s` and still zero.
  ghost predicate FreshPage(s: Sys, t: Sys, cr3: nat, virt: nat, writable: bool)
    requires cr3 in t.view.spaces
  {
    var leaf, p := t.view.spaces[cr3].leaf, PageOf(virt);
    && p in leaf && leaf[p] == UserPte(leaf[p].addr, virt, writable)
    && leaf[p].addr in s.free && leaf[p].addr in t.taken
    && leaf[p].addr in t.view.mem && t.view.mem[leaf[p].addr] == Bytes(ZeroPage())
  }

  // `b` is `a` with the pages `ps` added.
  ghost predicate Extended(a: map<Page, Pte>, b: map<Page, Pte>, ps: set<Page>) {
    a.Keys !! ps && b.Keys == a.Keys + ps && forall p :: p in a ==> b[p] == a[p]
  }

  lemma ExtendedMore(a: map<Page, Pte>, b: map<Page, Pte>, ps: set<Page>, p: Page, e: Pte)
    requires Extended(a, b, ps) && p !in b
    ensures Extended(a, b[p := e], ps + {p})
  {
  }

  lemma ExtendedLess(a: map<Page, Pte>, b: map<Page, Pte>, ps: set<Page>, p: Page)
    requires Extended(a, b, ps + {p}) && p !in ps
    ensures Extended(a, b - {p}, ps)
  {
  }

  // Since `s`, exactly the pages lo..hi from `start` on were added to `cr3`.
  ghost predicate Filled(s: Sys, t: Sys, cr3: nat, start: nat, lo: nat, hi: nat, writable: bool) {
    && cr3 in s.view.spaces && cr3 in t.view.spaces
    && var a, b := s.view.spaces[cr3].leaf, t.view.spaces[cr3].leaf;
       && Extended(a, b, Range(start, lo, hi))
       && (forall k :: lo <= k < hi ==> FreshPage(s, t, cr3, At(start, k), writable))
  }

  predicate UserRange(start: nat, pages: nat) {
    start % PAGE == 0 && USER_ADDR_BASE <= start && At(start, pages) <= USER_ADDR_LIMIT
  }

  lemma FilledNothing(s: Sys, cr3: nat, start: nat, writable: bool)
    requires cr3 in s.view.spaces
    ensures Filled(s, s, cr3, start, 0, 0, writable)
  {
  }

  lemma FilledKept(s: Sys, t: Sys, u: Sys, cr3: nat, start: nat, lo: nat, hi: nat, writable: bool)
    requires Filled(s, t, cr3, start, lo, hi, writable) && StepOn(t, u, cr3)
    requires u.view.spaces[cr3].leaf == t.view.spaces[cr3].leaf
    ensures Filled(s, u, cr3, start, lo, hi, writable)
  {
    forall k | lo <= k < hi ensures FreshPage(s, u, cr3, At(start, k), writable) {
      assert FreshPage(s, t, cr3, At(start, k), writable);
    }
  }

  lemma FilledOneMore(s: Sys, t: Sys, u: Sys, cr3: nat, start: nat, n: nat, writable: bool, f: nat)
    requires Filled(s, t, cr3, start, 0, n, writable) && StepOn(s, t, cr3) && StepOn(t, u, cr3)
    requires UserRange(start, n + 1) && t.taken !! t.free
    requires PageOf(At(start, n)) !in t.view.spaces[cr3].leaf
    requires f in t.free && f in u.taken && f in u.view.mem && u.view.mem[f] == Bytes(ZeroPage())
    requires u.view.spaces[cr3].leaf ==
      t.view.spaces[cr3].leaf[PageOf(At(start, n)) := UserPte(f, At(start, n), writable)]
    ensures Filled(s, u, cr3, start, 0, n + 1, writable)
  {
    var p := PageOf(At(start, n));
    RangeSplit(start, 0, n + 1);
    assert Range(start, 0, n + 1) == Range(start, 0, n) + {p};
    ExtendedMore(s.view.spaces[cr3].leaf, t.view.spaces[cr3].leaf, Range(start, 0, n), p,
                 UserPte(f, At(start, n), writable));
    forall k | 0 <= k < n ensures FreshPage(s, u, cr3, At(start, k), writable) {
      StaysFresh(s, t, u, cr3, start, n, writable, f, k);
    }
    assert FreshPage(s, u, cr3, At(start, n), writable) by { hide Range, PageOf, Extended; }
    hide FreshPage, Range, PageOf, Extended, StepOn;
  }

  lemma StaysFresh(s: Sys, t: Sys, u: Sys, cr3: nat, start: nat, n: nat, writable: bool, f: nat, k: nat)
    requires Filled(s, t, cr3, start, 0, n, writable) && StepOn(t, u, cr3) && UserRange(start, n + 1) && k < n
    requires u.view.spaces[cr3].leaf ==
      t.view.spaces[cr3].leaf[PageOf(At(start, n)) := UserPte(f, At(start, n), writable)]
    ensures FreshPage(s, u, cr3, At(start, k), writable)
  {
    assert FreshPage(s, t, cr3, At(start, k), writable);
    RangeSplit(start, 0, n + 1);
    RangeMember(start, 0, n, k);
    StepKeepsPages(t, u, cr3);
    hide Range, PageOf, Filled, StepOn;
  }

  lemma StepKeepsPages(s: Sys, t: Sys, cr3: nat)
    requires StepOn(s, t, cr3)
    ensures s.taken <= t.taken
    ensures forall f :: f in s.view.mem && f in s.taken && s.view.mem[f].Bytes? ==>
      f in t.view.mem && t.view.mem[f] == s.view.mem[f]
  {
  }

  // Rolling back the first page of the range.
  lemma FilledOneLess(s: Sys, t: Sys, u: Sys, w: Sys, cr3: nat, start: nat, lo: nat, hi: nat, writable: bool, f: nat)
    requires Filled(s, t, cr3, start, lo, hi, writable) && lo < hi && UserRange(start, hi)
    requires PageOf(At(start, lo)) in t.view.spaces[cr3].leaf
    requires Consistent(t.view.spaces[cr3]) && f == t.view.spaces[cr3].leaf[PageOf(At(start, lo))].addr
    requires Cut(t, u, cr3, DropLeaf(t.view.spaces[cr3], PageOf(At(start, lo))), {f}) && Freed(u, w, f)
    ensures Filled(s, w, cr3, start, lo + 1, hi, writable)
  {
    hide *;
    var p := PageOf(At(start, lo));
    FilledExtended(s, t, cr3, start, lo, hi, writable);
    PageDropped(t, u, w, cr3, p, f);
    ExtendedOneLess(s.view.spaces[cr3].leaf, t.view.spaces[cr3].leaf, start, lo, hi);
    forall k | lo + 1 <= k < hi ensures FreshPage(s, w, cr3, At(start, k), writable) {
      StillFresh(s, t, u, w, cr3, start, lo, hi, writable, f, k);
    }
    FilledIs(s, w, cr3, start, lo + 1, hi, writable);
  }

  lemma FilledExtended(s: Sys, t: Sys, cr3: nat, start: nat, lo: nat, hi: nat, writable: bool)
    requires Filled(s, t, cr3, start, lo, hi, writable)
    ensures cr3 in s.view.spaces && cr3 in t.view.spaces
    ensures Extended(s.view.spaces[cr3].leaf, t.view.spaces[cr3].leaf, Range(start, lo, hi))
  {
    hide Extended, Range, FreshPage;
  }

  lemma FilledIs(s: Sys, t: Sys, cr3: nat, start: nat, lo: nat, hi: nat, writable: bool)
    requires cr3 in s.view.spaces && cr3 in t.view.spaces
    requires Extended(s.view.spaces[cr3].leaf, t.view.spaces[cr3].leaf, Range(start, lo, hi))
    requires forall k :: lo <= k < hi ==> FreshPage(s, t, cr3, At(start, k), writable)
    ensures Filled(s, t, cr3, start, lo, hi, writable)
  {
    hide Extended, Range, FreshPage;
  }

  lemma ExtendedOneLess(a: map<Page, Pte>, b: map<Page, Pte>, start: nat, lo: nat, hi: nat)
    requires Extended(a, b, Range(start, lo, hi)) && lo < hi && UserRange(start, hi)
    ensures Extended(a, b - {PageOf(At(start, lo))}, Range(start, lo + 1, hi))
  {
    hide PageOf, Range, Extended;
    RangeSplit(start, lo, hi);
    var p := PageOf(At(start, lo));
    assert Range(start, lo, hi) == Range(start, lo + 1, hi) + {p};
    ExtendedLess(a, b, Range(start, lo + 1, hi), p);
  }

  lemma StillFresh(s: Sys, t: Sys, u: Sys, w: Sys, cr3: nat, start: nat, lo: nat, hi: nat, writable: bool, f: nat,
      k: nat)
    requires Filled(s, t, cr3, start, lo, hi, writable) && lo < k < hi && UserRange(start, hi)
    requires PageOf(At(start, lo)) in t.view.spaces[cr3].leaf
    requires Consistent(t.view.spaces[cr3]) && f == t.view.spaces[cr3].leaf[PageOf(At(start, lo))].addr
    requires Cut(t, u, cr3, DropLeaf(t.view.spaces[cr3], PageOf(At(start, lo))), {f}) && Freed(u, w, f)
    ensures FreshPage(s, w, cr3, At(start, k), writable)
  {
    hide *;
    FilledFresh(s, t, cr3, start, lo, hi, writable, lo);
    FilledFresh(s, t, cr3, start, lo, hi, writable, k);
    RangesApart(start, lo, hi, k);
    PageDropped(t, u, w, cr3, PageOf(At(start, lo)), f);
    OtherFresh(s, t, w, cr3, At(start, lo), At(start, k), writable);
  }

  lemma OtherFresh(s: Sys, t: Sys, w: Sys, cr3: nat, gone: nat, virt: nat, writable: bool)
    requires cr3 in t.view.spaces && cr3 in w.view.spaces && Consistent(t.view.spaces[cr3])
    requires FreshPage(s, t, cr3, gone, writable) && FreshPage(s, t, cr3, virt, writable)
    requires PageOf(gone) != PageOf(virt) && PageOf(gone) in t.view.spaces[cr3].leaf
    requires w.view.spaces[cr3].leaf == t.view.spaces[cr3].leaf - {PageOf(gone)}
    requires w.taken == t.taken - {t.view.spaces[cr3].leaf[PageOf(gone)].addr}
    requires forall g :: g in t.view.mem && t.view.mem[g].Bytes? ==> g in w.view.mem && w.view.mem[g] == t.view.mem[g]
    ensures FreshPage(s, w, cr3, virt, writable)
  {
    hide PageOf, Consistent, ZeroPage;
    OwnedPagesAreDistinct(t.view.spaces[cr3], PageOf(gone), PageOf(virt));
  }

  lemma FilledFresh(s: Sys, t: Sys, cr3: nat, start: nat, lo: nat, hi: nat, writable: bool, k: nat)
    requires Filled(s, t, cr3, start, lo, hi, writable) && lo <= k < hi
    ensures cr3 in t.view.spaces && FreshPage(s, t, cr3, At(start, k), writable)
  {
    hide Extended, FreshPage, Range;
  }

  lemma RangesApart(start: nat, lo: nat, hi: nat, k: nat)
    requires UserRange(start, hi) && lo < k < hi
    ensures PageOf(At(start, k)) != PageOf(At(start, lo))
  {
    RangeSplit(start, lo, hi);
    RangeMember(start, lo + 1, hi, k);
    hide Range, PageOf;
  }

  lemma PageDropped(t: Sys, u: Sys, w: Sys, cr3: nat, p: Page, f: nat)
    requires cr3 in t.view.spaces && p in t.view.spaces[cr3].leaf
    requires Cut(t, u, cr3, DropLeaf(t.view.spaces[cr3], p), {f}) && Freed(u, w, f)
    ensures cr3 in w.view.spaces && w.view.spaces[cr3].leaf == t.view.spaces[cr3].leaf - {p}
    ensures w.taken == t.taken - {f}
    ensures forall g :: g in t.view.mem && t.view.mem[g].Bytes? ==> g in w.view.mem && w.view.mem[g] == t.view.mem[g]
  {
  }

  lemma UnfilledStep(s: Sys, t: Sys, u: Sys, w: Sys, cr3: nat, sp: Space, f: nat)
    requires StepOn(s, t, cr3) && Cut(t, u, cr3, sp, {f}) && Freed(u, w, f)
    requires f in t.view.owners && t.view.owners.Keys <= t.taken
    requires f in s.free && s.taken !! s.free
    ensures StepOn(s, w, cr3) && ExternalIn(w) == ExternalIn(t) && w.view.spaces[cr3] == sp
  {
  }

  lemma FilledPage(s: Sys, t: Sys, cr3: nat, start: nat, lo: nat, hi: nat, writable: bool, k: nat)
    requires Filled(s, t, cr3, start, lo, hi, writable) && lo <= k < hi
    ensures PageOf(At(start, k)) in t.view.spaces[cr3].leaf
    ensures var e := t.view.spaces[cr3].leaf[PageOf(At(start, k))];
            e.owned && e.addr in s.free && e.addr in t.taken
  {
    assert FreshPage(s, t, cr3, At(start, k), writable);
  }

  lemma FilledNone(s: Sys, t: Sys, cr3: nat, start: nat, n: nat, writable: bool)
    requires Filled(s, t, cr3, start, n, n, writable)
    ensures t.view.spaces[cr3].leaf == s.view.spaces[cr3].leaf
  {
    assert t.view.spaces[cr3].leaf.Keys == s.view.spaces[cr3].leaf.Keys;
  }

  // A page of the range that is taken was taken before the range was entered.
  lemma CollisionIsOld(s: Sys, t: Sys, cr3: nat, start: nat, n: nat, writable: bool)
    requires Filled(s, t, cr3, start, 0, n, writable) && UserRange(start, n + 1)
    requires PageOf(At(start, n)) in t.view.spaces[cr3].leaf
    ensures PageOf(At(start, n)) in s.view.spaces[cr3].leaf
  {
    RangeSplit(start, 0, n + 1);
  }

  // The page range that a byte range touches.
  function RegionStart(virt: nat): nat { virt - virt % PAGE }

  function RegionEnd(virt: nat, len: nat): nat { virt + if len == 0 then 1 else len }

  function RegionPages(virt: nat, len: nat): nat { (RegionEnd(virt, len) - RegionStart(virt) + 4095) / PAGE }

  predicate InBounds(virt: nat, len: nat) {
    USER_ADDR_BASE <= virt && RegionEnd(virt, len) <= USER_ADDR_LIMIT
  }

  // No page of the byte range is mapped.
  ghost predicate RegionFree(sp: Space, virt: nat, len: nat) {
    forall k :: 0 <= k < RegionPages(virt, len) ==> PageOf(At(RegionStart(virt), k)) !in sp.leaf
  }

  lemma RegionIsUserRange(virt: nat, len: nat)
    requires InBounds(virt, len)
    ensures UserRange(RegionStart(virt), RegionPages(virt, len))
    ensures 0 < RegionPages(virt, len)
  {
  }

  lemma InUserRange(start: nat, pages: nat, k: nat)
    requires UserRange(start, pages) && k < pages
    ensures InUser(At(start, k)) && UserRange(start, k + 1)
  {
  }

  // After a failure: every mapping is as before, and so are the frames in use,
  // except that tables which were already empty are gone. No frame is handed out
  // that was not before.
  ghost predicate RolledBack(s: Sys, t: Sys, cr3: nat) {
    && cr3 in s.view.spaces
    && t.view.spaces == s.view.spaces[cr3 := Pruned(s.view.spaces[cr3])]
    && ExternalIn(t) == ExternalIn(s)
    && t.taken <= s.taken && t.taken + t.free == s.taken + s.free
    && ContentKept(s, t)
  }

  // Every frame handed out belongs to nobody or to a tree, and pruning only
  // shrinks a tree.
  lemma PruningTakesNothing(s: Sys, u: Sys, cr3: nat)
    requires Good(s.view) && Good(u.view) && s.view.owners.Keys <= s.taken
    requires cr3 in s.view.spaces && u.view.spaces == s.view.spaces[cr3 := Pruned(s.view.spaces[cr3])]
    requires ExternalIn(u) == ExternalIn(s)
    ensures u.taken <= s.taken
  {
    hide Holds;
    var sp := s.view.spaces[cr3];
    assert Pruned(sp).own.Keys <= sp.own.Keys;
    hide Pruned;
    forall f | f in u.taken ensures f in s.taken {
      if f in u.view.owners {
        var c := u.view.owners[f];
        assert f in s.view.spaces[c].own;
        GoodTree(s.view, c);
      } else {
        assert f in ExternalIn(u);
      }
    }
  }

  lemma RolledBackStep(s: Sys, t: Sys, u: Sys, cr3: nat)
    requires Good(s.view) && Good(u.view) && s.view.owners.Keys <= s.taken
    requires StepOn(s, t, cr3) && cr3 in s.view.spaces && ExternalIn(t) == ExternalIn(s)
    requires Trimmed(t, u, cr3, Pruned(t.view.spaces[cr3]))
    requires Consistent(s.view.spaces[cr3]) && Consistent(t.view.spaces[cr3])
    requires Grows(s.view.spaces[cr3], t.view.spaces[cr3])
    requires t.view.spaces[cr3].leaf == s.view.spaces[cr3].leaf
    ensures RolledBack(s, u, cr3)
  {
    PrunedSame(s.view.spaces[cr3], t.view.spaces[cr3]);
    hide Good, Consistent, Grows, Pruned, StepOn, Trimmed, ContentKept, ExternalIn;
    TrimmedAfter(s, t, u, cr3, Pruned(t.view.spaces[cr3]));
    PruningTakesNothing(s, u, cr3);
  }

  lemma PrunedSame(a: Space, b: Space)
    requires Consistent(a) && Consistent(b) && Grows(a, b) && b.leaf == a.leaf
    ensures Pruned(b) == Pruned(a)
  {
    PrunedConsistent(a);
    PrunedConsistent(b);
    hide Consistent, Pruned;
    PrunedForgetsEmptyTables(a, b);
  }

  lemma TrimmedAfter(s: Sys, t: Sys, u: Sys, cr3: nat, sp: Space)
    requires StepOn(s, t, cr3) && Trimmed(t, u, cr3, sp) && ExternalIn(t) == ExternalIn(s)
    ensures u.view.spaces == s.view.spaces[cr3 := sp] && ExternalIn(u) == ExternalIn(s)
    ensures u.taken + u.free == s.taken + s.free && ContentKept(s, u)
  {
    assert s.view.spaces[cr3 := t.view.spaces[cr3]][cr3 := sp] == s.view.spaces[cr3 := sp];
    hide ExternalIn;
  }

  // ------------------------------------------------------------- surfaces

  predicate IsUserRange(ptr: nat, len: nat) {
    0 < ptr < USER_ADDR_LIMIT && ptr + len < U64_LIMIT && ptr + len <= USER_ADDR_LIMIT
  }

  // The arguments that a surface mapping accepts.
  predicate SurfaceArgs(virt: nat, phys: nat, pages: nat) {
    UserRange(virt, pages) && phys % PAGE == 0 && 0 < pages
  }

  function SurfacePte(f: nat): Pte { Pte(f, true, true, true, true, false, false) }

  ghost predicate Maps(leaf: map<Page, Pte>, virt: nat, f: nat) {
    PageOf(virt) in leaf && leaf[PageOf(virt)].addr == f
  }

  // `b` is `a` with the pages lo..hi of a surface added.
  ghost predicate Overlaid(a: map<Page, Pte>, b: map<Page, Pte>, virt: nat, phys: nat, lo: nat, hi: nat) {
    && Extended(a, b, Range(virt, lo, hi))
    && (forall k {:trigger At(virt, k)} :: lo <= k < hi ==> b[PageOf(At(virt, k))] == SurfacePte(phys + k * PAGE))
  }

  lemma OverlaidNothing(a: map<Page, Pte>, virt: nat, phys: nat)
    ensures Overlaid(a, a, virt, phys, 0, 0)
  {
  }

  lemma OverlaidNone(a: map<Page, Pte>, b: map<Page, Pte>, virt: nat, phys: nat, n: nat)
    requires Overlaid(a, b, virt, phys, n, n)
    ensures b == a
  {
    assert b.Keys == a.Keys;
  }

  lemma OverlaidPage(a: map<Page, Pte>, b: map<Page, Pte>, virt: nat, phys: nat, lo: nat, hi: nat, k: nat)
    requires Overlaid(a, b, virt, phys, lo, hi) && lo <= k < hi
    ensures PageOf(At(virt, k)) in b && b[PageOf(At(virt, k))] == SurfacePte(phys + k * PAGE)
  {
  }

  lemma OverlapIsOld(a: map<Page, Pte>, b: map<Page, Pte>, virt: nat, phys: nat, n: nat)
    requires Overlaid(a, b, virt, phys, 0, n) && UserRange(virt, n + 1) && PageOf(At(virt, n)) in b
    ensures PageOf(At(virt, n)) in a
  {
    RangeSplit(virt, 0, n + 1);
  }

  lemma OverlaidOneMore(a: map<Page, Pte>, b: map<Page, Pte>, virt: nat, phys: nat, n: nat)
    requires Overlaid(a, b, virt, phys, 0, n) && UserRange(virt, n + 1) && PageOf(At(virt, n)) !in b
    ensures Overlaid(a, b[PageOf(At(virt, n)) := SurfacePte(phys + n * PAGE)], virt, phys, 0, n + 1)
  {
    hide Range, Extended, PageOf, SurfacePte, UserRange;
    var p := PageOf(At(virt, n));
    UserRangeFacts(virt, n + 1);
    RangeSplit(virt, 0, n + 1);
    assert Range(virt, 0, n + 1) == Range(virt, 0, n) + {p};
    ExtendedMore(a, b, Range(virt, 0, n), p, SurfacePte(phys + n * PAGE));
    forall k | 0 <= k < n ensures PageOf(At(virt, k)) != p {
      UserRangeFacts(virt, n);
      RangeMember(virt, 0, n, k);
    }
    hide At;
  }

  lemma UserRangeFacts(start: nat, pages: nat)
    requires UserRange(start, pages) || UserRange(start, pages + 1)
    ensures start % PAGE == 0 && USER_ADDR_BASE <= start && At(start, pages) <= USER_ADDR_LIMIT
  {
  }

  lemma OverlaidOneLess(a: map<Page, Pte>, b: map<Page, Pte>, virt: nat, phys: nat, lo: nat, hi: nat)
    requires Overlaid(a, b, virt, phys, lo, hi) && lo < hi && UserRange(virt, hi)
    ensures Overlaid(a, b - {PageOf(At(virt, lo))}, virt, phys, lo + 1, hi)
  {
    var p := PageOf(At(virt, lo));
    RangeSplit(virt, lo, hi);
    assert Range(virt, lo, hi) == Range(virt, lo + 1, hi) + {p};
    ExtendedLess(a, b, Range(virt, lo + 1, hi), p);
    forall k | lo < k < hi ensures PageOf(At(virt, k)) in Range(virt, lo + 1, hi) {
      RangeMember(virt, lo + 1, hi, k);
    }
    hide Range, PageOf;
  }

  // Unlinking a page that the space does not own, during a roll-back.
  lemma CutStep(s: Sys, t: Sys, u: Sys, cr3: nat, sp: Space)
    requires StepOn(s, t, cr3) && Cut(t, u, cr3, sp, {}) && t.view.owners.Keys <= t.taken
    ensures StepOn(s, u, cr3) && ExternalIn(u) == ExternalIn(t) && u.view.spaces[cr3] == sp
  {
  }

  // The frames that a space owns through some of its pages.
  ghost function OwnedBy(sp: Space, ps: set<Page>): set<nat> {
    set p | p in ps && p in sp.leaf && sp.leaf[p].owned :: sp.leaf[p].addr
  }

  // A space with some pages unmapped.
  ghost function WithoutPages(sp: Space, ps: set<Page>): Space {
    Space(sp.root, sp.low, sp.l2, sp.l1, sp.leaf - ps, sp.own - OwnedBy(sp, ps))
  }

  // The tree of `cr3` became `sp`, `lost` stays handed out without an owner, and
  // every other frame that it no longer owns went back to the pool.
  ghost predicate Shed(s: Sys, t: Sys, cr3: nat, sp: Space, lost: set<nat>) {
    && cr3 in s.view.spaces
    && t.view.spaces == s.view.spaces[cr3 := sp]
    && ExternalIn(t) == ExternalIn(s) + lost
    && t.taken <= s.taken && t.taken + t.free == s.taken + s.free
    && ContentKept(s, t)
  }

  lemma ShedSame(s: Sys, cr3: nat)
    requires cr3 in s.view.spaces
    ensures Shed(s, s, cr3, s.view.spaces[cr3], {})
  {
  }

  lemma ShedCut(s: Sys, t: Sys, u: Sys, cr3: nat, mid: Space, sp: Space, lost: set<nat>, more: set<nat>)
    requires Shed(s, t, cr3, mid, lost) && Cut(t, u, cr3, sp, more)
    requires more <= t.view.owners.Keys && t.view.owners.Keys <= t.taken
    ensures Shed(s, u, cr3, sp, lost + more)
  {
    assert ExternalIn(u) == ExternalIn(t) + more;
    assert s.view.spaces[cr3 := mid][cr3 := sp] == s.view.spaces[cr3 := sp];
  }

  // No frame is lost exactly if the space owned none of the pages.
  lemma NothingShed(s: Sys, t: Sys, cr3: nat, sp: Space, ps: set<Page>)
    requires Good(s.view) && cr3 in s.view.spaces && Shed(s, t, cr3, sp, OwnedBy(s.view.spaces[cr3], ps))
    ensures var leaf := s.view.spaces[cr3].leaf;
            Trimmed(s, t, cr3, sp) <==> forall p :: p in ps && p in leaf ==> !leaf[p].owned
  {
    hide *;
    var own := s.view.spaces[cr3];
    OwnedByInside(s.view, cr3, ps);
    OwnedByNone(own, ps);
    ShedNone(s, t, cr3, sp, OwnedBy(own, ps));
  }

  lemma OwnedByNone(sp: Space, ps: set<Page>)
    ensures OwnedBy(sp, ps) == {} <==> forall p :: p in ps && p in sp.leaf ==> !sp.leaf[p].owned
  {
    forall p | p in ps && p in sp.leaf && sp.leaf[p].owned ensures sp.leaf[p].addr in OwnedBy(sp, ps) {
    }
  }

  lemma ShedNone(s: Sys, t: Sys, cr3: nat, sp: Space, lost: set<nat>)
    requires Shed(s, t, cr3, sp, lost) && lost <= s.view.owners.Keys
    ensures Trimmed(s, t, cr3, sp) <==> lost == {}
  {
    hide ContentKept;
    if f :| f in lost { assert f in ExternalIn(t) && f !in ExternalIn(s); }
    assert lost == {} ==> ExternalIn(s) + lost == ExternalIn(s);
  }

  lemma OwnedByInside(v: View, cr3: nat, ps: set<Page>)
    requires Good(v) && cr3 in v.spaces
    ensures OwnedBy(v.spaces[cr3], ps) <= v.owners.Keys
  {
    hide Good, Holds;
    GoodTree(v, cr3);
    HoldsConsistent(v.mem, v.spaces[cr3]);
  }

  lemma WithoutNothing(sp: Space, virt: nat)
    ensures WithoutPages(sp, Range(virt, 0, 0)) == sp
    ensures OwnedBy(sp, Range(virt, 0, 0)) == {}
  {
    assert sp.leaf - Range(virt, 0, 0) == sp.leaf;
    assert sp.own - {} == sp.own;
  }

  lemma StillThere(sp: Space, virt: nat, i: nat)
    requires UserRange(virt, i + 1) && PageOf(At(virt, i)) in sp.leaf
    ensures PageOf(At(virt, i)) in WithoutPages(sp, Range(virt, 0, i)).leaf
    ensures WithoutPages(sp, Range(virt, 0, i)).leaf[PageOf(At(virt, i))] == sp.leaf[PageOf(At(virt, i))]
  {
    RangeSplit(virt, 0, i + 1);
  }

  lemma OwnedByOneMore(sp: Space, ps: set<Page>, p: Page)
    requires p in sp.leaf
    ensures OwnedBy(sp, ps + {p}) == OwnedBy(sp, ps) + OwnedFrame(sp.leaf[p])
  {
  }

  lemma WithoutOneMore(sp: Space, virt: nat, i: nat)
    requires UserRange(virt, i + 1) && PageOf(At(virt, i)) in sp.leaf
    ensures PageOf(At(virt, i)) in WithoutPages(sp, Range(virt, 0, i)).leaf
    ensures OwnedBy(sp, Range(virt, 0, i)) + OwnedFrame(sp.leaf[PageOf(At(virt, i))])
         == OwnedBy(sp, Range(virt, 0, i + 1))
    ensures DropLeaf(WithoutPages(sp, Range(virt, 0, i)), PageOf(At(virt, i)))
         == WithoutPages(sp, Range(virt, 0, i + 1))
  {
    RangeSplit(virt, 0, i + 1);
    var p := PageOf(At(virt, i));
    OwnedByOneMore(sp, Range(virt, 0, i), p);
    hide OwnedBy, Range;
    assert sp.leaf - Range(virt, 0, i) - {p} == sp.leaf - Range(virt, 0, i + 1);
    var own := sp.own - OwnedBy(sp, Range(virt, 0, i));
    assert own - OwnedFrame(sp.leaf[p]) == sp.own - OwnedBy(sp, Range(virt, 0, i + 1));
    assert !sp.leaf[p].owned ==> own - OwnedFrame(sp.leaf[p]) == own;
  }

  lemma ShedTrimmed(s: Sys, t: Sys, u: Sys, cr3: nat, mid: Space, sp: Space, lost: set<nat>)
    requires Shed(s, t, cr3, mid, lost) && Trimmed(t, u, cr3, sp) && t.taken == s.taken
    ensures Shed(s, u, cr3, sp, lost)
  {
    assert s.view.spaces[cr3 := mid][cr3 := sp] == s.view.spaces[cr3 := sp];
  }

  // ------------------------------------------------- making and destroying

  // A frame taken and given back again.
  ghost predicate Returned(s: Sys, t: Sys) {
    && t.view.spaces == s.view.spaces && t.view.owners == s.view.owners
    && t.taken == s.taken && t.free == s.free && ContentKept(s, t)
  }

  lemma ReturnedFrame(s: Sys, t: Sys, u: Sys, f: nat)
    requires Allocated(s, t, f) && Freed(t, u, f) && s.taken !! s.free && t.free == {}
    ensures Returned(s, u) && |s.free| < 2
  {
    assert s.free == {f};
  }

  lemma NothingReturned(s: Sys)
    ensures Returned(s, s)
  {
  }

  // `root` is the root of a new, empty address space made of two free frames.
  ghost predicate Created(s: Sys, t: Sys, root: nat) {
    && root in s.free && root !in s.view.spaces && root in t.view.spaces
    && var sp := t.view.spaces[root];
       && sp == FreshSpace(root, sp.low) && sp.low in s.free && sp.low != root
       && t.view.spaces == s.view.spaces[root := sp]
       && t.taken == s.taken + {root, sp.low} && t.free == s.free - {root, sp.low}
       && t.view.owners.Keys == s.view.owners.Keys + {root, sp.low}
       && ContentKept(s, t)
  }

  // Every kernel mapping is inherited, except that the low kernel image is not
  // accessible to user code and that the private gigabyte starts empty.
  ghost predicate InheritsKernel(m: Memory, kernelRoot: nat, root: nat) {
    && TableAt(m, kernelRoot) && TableAt(m, root)
    && (forall i :: 0 < i < ENTRIES ==> m[root].table[i] == m[kernelRoot].table[i])
    && var k, e := m[kernelRoot].table[0], m[root].table[0];
       && TableAt(m, e.addr) && m[e.addr].table[1] == UNUSED && !m[e.addr].table[0].user
       && (k.present ==>
             && TableAt(m, k.addr)
             && m[e.addr].table[0] == m[k.addr].table[0].(user := false)
             && forall i :: 1 < i < ENTRIES ==> m[e.addr].table[i] == m[k.addr].table[i])
  }

  // The low table of a new address space: the kernel's, with the low kernel image
  // closed to user code and nothing in the private gigabyte.
  function PrivateLow(t: Table): Table {
    t[0 := t[0].(user := false)][1 := UNUSED]
  }

  lemma Inherited(m: Memory, kernelRoot: nat, root: nat, low: nat)
    requires TableAt(m, kernelRoot) && kernelRoot != root && kernelRoot != low && root != low
    requires var k := m[kernelRoot].table[0]; k.present ==> TableAt(m, k.addr) && k.addr != root && k.addr != low
    ensures var source := m[kernelRoot].table;
            var lowTable := PrivateLow(if source[0].present then m[source[0].addr].table else ZeroTable());
            InheritsKernel(m[low := Words(lowTable)][root := Words(source[0 := TableEntry(low)])], kernelRoot, root)
  {
    hide ZeroTable;
  }

  lemma TwoFrames(s: Sys, t: Sys, u: Sys, root: nat, low: nat)
    requires Allocated(s, t, root) && Allocated(t, u, low)
    requires s.taken !! s.free && s.view.owners.Keys <= s.taken
    ensures root != low && root in s.free && low in s.free
    ensures root !in u.view.owners && low !in u.view.owners
    ensures u.view.spaces == s.view.spaces && u.view.owners == s.view.owners
    ensures u.taken == s.taken + {root, low} && u.free == s.free - {root, low}
    ensures ContentKept(s, u)
  {
  }

  lemma CreatedStep(s: Sys, t: Sys, u: Sys, w: Sys, root: nat, low: nat)
    requires Allocated(s, t, root) && Allocated(t, u, low)
    requires s.taken !! s.free && s.view.owners.Keys <= s.taken
    requires root !in s.view.spaces
    requires w.view.spaces == s.view.spaces[root := FreshSpace(root, low)]
    requires w.view.owners.Keys == s.view.owners.Keys + {root, low}
    requires w.taken == u.taken && w.free == u.free
    requires u.view.mem.Keys <= w.view.mem.Keys
    requires forall f :: f in u.view.mem && f != root && f != low ==> w.view.mem[f] == u.view.mem[f]
    ensures Created(s, w, root)
  {
    TwoFrames(s, t, u, root, low);
  }

  lemma GoodCreate(v: View, m: Memory, root: nat, low: nat)
    requires Good(v) && root !in v.owners && low !in v.owners
    requires forall f :: f in v.mem && f != root && f != low ==> f in m && m[f] == v.mem[f]
    requires Holds(m, root, FreshSpace(root, low))
    ensures root !in v.spaces
    ensures Good(Next(v, m, root, FreshSpace(root, low)))
    ensures Next(v, m, root, FreshSpace(root, low)).owners.Keys == v.owners.Keys + {root, low}
  {
    hide Holds;
    if root in v.spaces {
      GoodTree(v, root);
      RootOwned(v.mem, v.spaces[root]);
    }
    GoodStep(v, m, root, FreshSpace(root, low));
  }

  // The address space is gone, all its frames are back in the pool, and nothing
  // else has changed hands.
  ghost predicate Destroyed(s: Sys, t: Sys, cr3: nat) {
    && t.view.spaces == s.view.spaces - {cr3}
    && ExternalIn(t) == ExternalIn(s)
    && t.taken <= s.taken && t.taken + t.free == s.taken + s.free
    && ContentKept(s, t)
  }

  ghost predicate Removed(s: Sys, t: Sys, cr3: nat, low: nat) {
    && t.view.spaces == s.view.spaces - {cr3}
    && cr3 in s.view.owners && low in s.view.owners && low != cr3
    && t.view.owners.Keys == s.view.owners.Keys - {cr3, low}
    && t.taken == s.taken && t.free == s.free
    && s.view.mem.Keys <= t.view.mem.Keys
    && (forall f :: f in s.view.mem && (f !in s.view.owners || s.view.mem[f].Bytes?) ==>
         t.view.mem[f] == s.view.mem[f])
  }

  lemma DestroyedStep(s: Sys, t: Sys, u: Sys, w: Sys, x: Sys, cr3: nat, low: nat)
    requires cr3 in t.view.spaces && Trimmed(s, t, cr3, t.view.spaces[cr3])
    requires Removed(t, u, cr3, low) && Freed(u, w, low) && Freed(w, x, cr3)
    requires t.view.owners.Keys <= t.taken
    ensures Destroyed(s, x, cr3)
  {
  }

  lemma GoodRemove(v: View, m: Memory, cr3: nat)
    requires Good(v) && cr3 in v.spaces && v.spaces[cr3].l2.None?
    requires forall f :: f in v.mem && f != cr3 ==> f in m && m[f] == v.mem[f]
    ensures var low := v.spaces[cr3].low;
            && cr3 in v.owners && low in v.owners && cr3 != low
            && Good(View(m, v.spaces - {cr3}, v.owners - {cr3, low}))
  {
    hide Holds;
    GoodTree(v, cr3);
    OnlyTopFrames(v.mem, v.spaces[cr3]);
    KeptFrames(v.mem, m, v.spaces, v.owners, cr3);
    KeptTrees(v.mem, m, v.spaces - {cr3});
  }

  // ----------------------------------------------------------- seen from ring 3

  // Ring 3 can read at `virt`. It can write there exactly if the page was asked for
  // as writable, and fetch from it exactly if it was not, or if it is one of the
  // first two pages of user space.
  predicate AccessFor(a: Access, virt: nat, writable: bool) {
    && a.user
    && (a.writable <==> writable)
    && (a.executable <==> !writable || virt < USER_ADDR_BASE + 0x2000)
  }

  // What the hardware reaches at a user address.
  ghost function Reach(m: Memory, root: nat, virt: nat): Option<Access> {
    Walk(m, root, PageOf(virt))
  }

  ghost predicate Opens(m: Memory, root: nat, virt: nat, writable: bool) {
    var a := Reach(m, root, virt);
    a.Some? && AccessFor(a.value, virt, writable)
  }

  // At `x` ring 3 can read and write the frame that lies as far behind `phys` as the
  // page of `x` behind `virt`, and not fetch from it.
  ghost predicate ShowsAt(m: Memory, root: nat, virt: nat, phys: nat, x: nat)
    requires virt <= x
  {
    Reach(m, root, x) == Some(Access(phys + (x - virt) / PAGE * PAGE, true, true, false))
  }

  // Ring 3 sees the whole surface.
  ghost predicate Shows(m: Memory, root: nat, virt: nat, phys: nat, pages: nat) {
    forall x :: virt <= x < At(virt, pages) ==> ShowsAt(m, root, virt, phys, x)
  }

  // The walk of a user address in a live address space.
  lemma Seen(v: View, cr3: nat, virt: nat)
    requires Good(v) && cr3 in v.spaces
    ensures var leaf := v.spaces[cr3].leaf;
            Reach(v.mem, cr3, virt) ==
              if PageOf(virt) in leaf then Some(Grants(leaf[PageOf(virt)])) else None
  {
    hide Good, Holds, Walk;
    GoodTree(v, cr3);
    HoldsWalk(v.mem, v.spaces[cr3], PageOf(virt));
  }

  // Addresses of one page.
  lemma SamePage(v: nat, w: nat)
    requires v / PAGE == w / PAGE
    ensures PageOf(v) == PageOf(w) && (InUser(v) <==> InUser(w))
  {
    assert v / 0x20_0000 == v / PAGE / 512 && w / 0x20_0000 == w / PAGE / 512;
  }

  // The page of a range in which an address lies.
  lemma PageNumber(start: nat, n: nat, v: nat) returns (k: nat)
    requires UserRange(start, n) && start <= v < At(start, n)
    ensures k == (v - start) / PAGE && k < n && PageOf(v) == PageOf(At(start, k)) && InUser(v)
    ensures At(start, k) <= v < At(start, k) + PAGE
  {
    k := (v - start) / PAGE;
    SamePage(v, At(start, k));
  }

  lemma PteAccess(f: nat, page: nat, virt: nat, writable: bool)
    requires InUser(virt) && InUser(page) && page / PAGE == virt / PAGE
    ensures AccessFor(Grants(UserPte(f, page, writable)), virt, writable)
  {
  }

  // The rights of a page that was mapped for user code or data.
  lemma PteOpens(v: View, cr3: nat, virt: nat, f: nat, page: nat, writable: bool)
    requires Good(v) && cr3 in v.spaces && PageOf(page) == PageOf(virt)
    requires InUser(virt) && InUser(page) && page / PAGE == virt / PAGE
    requires PageOf(virt) in v.spaces[cr3].leaf && v.spaces[cr3].leaf[PageOf(virt)] == UserPte(f, page, writable)
    ensures Opens(v.mem, cr3, virt, writable)
  {
    hide Good, PageOf, Reach, AccessFor, UserPte;
    Seen(v, cr3, virt);
    PteAccess(f, page, virt, writable);
  }

  lemma MappedOpens(t: Sys, u: Sys, cr3: nat, virt: nat, writable: bool)
    requires Good(u.view) && cr3 in t.view.spaces && cr3 in u.view.spaces && InUser(virt)
    requires PageMapped(t, u, cr3, virt, writable)
    ensures Opens(u.view.mem, cr3, virt, writable)
  {
    hide Good, PageOf, Opens, UserPte;
    var f :| u.view.spaces[cr3].leaf == t.view.spaces[cr3].leaf[PageOf(virt) := UserPte(f, virt, writable)];
    PteOpens(u.view, cr3, virt, f, virt, writable);
  }

  lemma FilledOpens(s: Sys, t: Sys, cr3: nat, start: nat, n: nat, writable: bool)
    requires Good(t.view) && Filled(s, t, cr3, start, 0, n, writable) && UserRange(start, n)
    ensures forall v :: start <= v < At(start, n) ==> Opens(t.view.mem, cr3, v, writable)
  {
    hide Good, Opens, Range, Extended, UserPte, PageOf;
    forall v | start <= v < At(start, n) ensures Opens(t.view.mem, cr3, v, writable) {
      var k := PageNumber(start, n, v);
      InUserRange(start, n, k);
      assert FreshPage(s, t, cr3, At(start, k), writable);
      PteOpens(t.view, cr3, v, t.view.spaces[cr3].leaf[PageOf(v)].addr, At(start, k), writable);
    }
  }

  lemma OverlaidShows(v: View, cr3: nat, a: map<Page, Pte>, virt: nat, phys: nat, n: nat)
    requires Good(v) && cr3 in v.spaces && Overlaid(a, v.spaces[cr3].leaf, virt, phys, 0, n) && UserRange(virt, n)
    ensures Shows(v.mem, cr3, virt, phys, n)
  {
    hide Good, Range, Extended, PageOf, Reach;
    forall x | virt <= x < At(virt, n) ensures ShowsAt(v.mem, cr3, virt, phys, x) {
      var k := PageNumber(virt, n, x);
      OverlaidPage(a, v.spaces[cr3].leaf, virt, phys, 0, n, k);
      Seen(v, cr3, x);
    }
  }

  lemma HoldsWalk(m: Memory, sp: Space, p: Page)
    requires Holds(m, sp.root, sp) && p.i < ENTRIES && p.j < ENTRIES
    ensures Walk(m, sp.root, p) == if p in sp.leaf then Some(Grants(sp.leaf[p])) else None
  {
    hide Consistent, Represents, Walk;
    WalkIsLeaf(m, sp, p);
  }

  // How many tables above level 1 a mapping may still have to create.
  ghost function TablesMissing(sp: Space): nat {
    if sp.l2.None? then 1 else 0
  }

  // The leaf entry of a page allocated for user code, data or stack.
  function UserPte(f: nat, virt: nat, writable: bool): Pte {
    Pte(f, true, writable, true, writable && (virt >= USER_ADDR_BASE + 0x2000 || virt < USER_ADDR_BASE), false, true)
  }

  // The first `n` pages of a region have been mapped, and the frames used are
  // those pages and their tables.
  ghost predicate Filling(s: Sys, t: Sys, cr3: nat, start: nat, n: nat, writable: bool) {
    && cr3 in s.view.spaces && StepOn(s, t, cr3) && ExternalIn(t) == ExternalIn(s)
    && Filled(s, t, cr3, start, 0, n, writable)
    && var a, b := s.view.spaces[cr3], t.view.spaces[cr3];
       && Grows(a, b) && (Tight(a) ==> Tight(b))
       && |t.free| + 2 * n + TablesMissing(a) - TablesMissing(b) >= |s.free|
  }

  lemma FillingNothing(s: Sys, cr3: nat, start: nat, writable: bool)
    requires cr3 in s.view.spaces
    ensures Filling(s, s, cr3, start, 0, writable)
  {
    hide StepOn, Filled, Grows, Tight;
    StepSame(s, cr3);
    FilledNothing(s, cr3, start, writable);
    GrowsSame(s.view.spaces[cr3]);
  }

  lemma FillingFacts(s: Sys, t: Sys, cr3: nat, start: nat, n: nat, writable: bool)
    requires Filling(s, t, cr3, start, n, writable)
    ensures cr3 in s.view.spaces && StepOn(s, t, cr3) && ExternalIn(t) == ExternalIn(s)
    ensures Filled(s, t, cr3, start, 0, n, writable)
    ensures cr3 in t.view.spaces && Grows(s.view.spaces[cr3], t.view.spaces[cr3])
    ensures Tight(s.view.spaces[cr3]) ==> Tight(t.view.spaces[cr3])
    ensures |t.free| + 2 * n + TablesMissing(s.view.spaces[cr3]) - TablesMissing(t.view.spaces[cr3]) >= |s.free|
  {
    hide StepOn, Filled, Grows, Tight;
    assert cr3 in t.view.spaces by { StepHasSpace(s, t, cr3); }
  }

  lemma StepHasSpace(s: Sys, t: Sys, cr3: nat)
    requires StepOn(s, t, cr3)
    ensures cr3 in t.view.spaces
  {
  }

  // One page is mapped to a zeroed frame that was free.
  ghost predicate PageMapped(t: Sys, u: Sys, cr3: nat, virt: nat, writable: bool)
    requires cr3 in t.view.spaces && cr3 in u.view.spaces
  {
    var a, b := t.view.spaces[cr3], u.view.spaces[cr3];
    && PageOf(virt) !in a.leaf && PageOf(virt) in b.leaf
    && exists f :: f in t.free && f in u.view.mem && u.view.mem[f] == Bytes(ZeroPage())
         && b.leaf == a.leaf[PageOf(virt) := UserPte(f, virt, writable)]
  }

  lemma PageIsMapped(t: Sys, u: Sys, cr3: nat, virt: nat, f: nat, writable: bool)
    requires cr3 in t.view.spaces && cr3 in u.view.spaces && PageOf(virt) !in t.view.spaces[cr3].leaf
    requires f in t.free && f in u.view.mem && u.view.mem[f] == Bytes(ZeroPage())
    requires u.view.spaces[cr3].leaf == t.view.spaces[cr3].leaf[PageOf(virt) := UserPte(f, virt, writable)]
    ensures PageMapped(t, u, cr3, virt, writable)
  {
    hide PageOf, UserPte;
  }

  lemma FillingOneMore(s: Sys, t: Sys, u: Sys, cr3: nat, start: nat, n: nat, writable: bool)
    requires Filling(s, t, cr3, start, n, writable) && UserRange(start, n + 1) && t.taken !! t.free
    requires cr3 in t.view.spaces && StepOn(t, u, cr3) && ExternalIn(u) == ExternalIn(t)
    requires var a, b := t.view.spaces[cr3], u.view.spaces[cr3];
             && Grows(a, b) && (Tight(a) ==> Tight(b)) && b.l2.Some? && |u.free| >= |t.free| - 2 - TablesMissing(a)
    requires PageMapped(t, u, cr3, At(start, n), writable)
    requires var e := u.view.spaces[cr3].leaf[PageOf(At(start, n))]; e.owned ==> e.addr in u.taken
    ensures Filling(s, u, cr3, start, n + 1, writable)
  {
    var p := PageOf(At(start, n));
    var a, b := t.view.spaces[cr3], u.view.spaces[cr3];
    FillingFacts(s, t, cr3, start, n, writable);
    hide StepOn, Filled, Grows, Tight, UserRange, At, PageOf;
    var f :| f in t.free && f in u.view.mem && u.view.mem[f] == Bytes(ZeroPage())
      && b.leaf == a.leaf[p := UserPte(f, At(start, n), writable)];
    FilledOneMore(s, t, u, cr3, start, n, writable, f);
    StepTrans(s, t, u, cr3);
    GrowsTrans(s.view.spaces[cr3], a, b);
  }

  // A page that could not be mapped: the range is as it was, and the page was in
  // use before the range was begun if it is in use now.
  lemma FillingStopped(s: Sys, t: Sys, u: Sys, cr3: nat, start: nat, n: nat, writable: bool)
    requires Filling(s, t, cr3, start, n, writable) && UserRange(start, n + 1)
    requires cr3 in t.view.spaces && StepOn(t, u, cr3) && ExternalIn(u) == ExternalIn(t)
    requires Grows(t.view.spaces[cr3], u.view.spaces[cr3]) && u.view.spaces[cr3].leaf == t.view.spaces[cr3].leaf
    ensures cr3 in s.view.spaces && StepOn(s, u, cr3) && ExternalIn(u) == ExternalIn(s)
    ensures Filled(s, u, cr3, start, 0, n, writable) && Grows(s.view.spaces[cr3], u.view.spaces[cr3])
    ensures PageOf(At(start, n)) in t.view.spaces[cr3].leaf ==> PageOf(At(start, n)) in s.view.spaces[cr3].leaf
    ensures |s.free| <= |t.free| + 2 * n + TablesMissing(s.view.spaces[cr3]) - TablesMissing(t.view.spaces[cr3])
  {
    FillingFacts(s, t, cr3, start, n, writable);
    hide StepOn, Filled, Grows, Tight, UserRange, At, PageOf, Filling;
    StepTrans(s, t, u, cr3);
    GrowsTrans(s.view.spaces[cr3], t.view.spaces[cr3], u.view.spaces[cr3]);
    FilledKept(s, t, u, cr3, start, 0, n, writable);
    if PageOf(At(start, n)) in t.view.spaces[cr3].leaf { CollisionIsOld(s, t, cr3, start, n, writable); }
  }

  class Machine {
    const pool: FP.FramePool
    // The shared kernel root table; its low half is cloned into every process.
    const kernelRoot: nat
    var mem: Memory
    ghost var spaces: map<nat, Space>
    ghost var owners: map<nat, nat>

    ghost function V(): View
      reads this
    {
      View(mem, spaces, owners)
    }

    ghost predicate Valid()
      reads this, pool
    {
      && pool.Valid()
      && MemoryOk(mem, kernelRoot, pool.universe)
      && owners.Keys <= pool.taken <= pool.universe
      && Good(V())
    }

    // The machine once the frame pool is seeded and paging is on.
    constructor (pool: FP.FramePool, kernelRoot: nat, mem: Memory)
      requires pool.Valid() && 0 !in pool.universe
      requires forall f :: f in pool.universe ==> f in mem
      requires KernelTablesIn(mem, kernelRoot, pool.universe)
      ensures Valid() && this.pool == pool && this.kernelRoot == kernelRoot
      ensures V() == View(mem, map[], map[])
    {
      this.pool, this.kernelRoot, this.mem := pool, kernelRoot, mem;
      spaces, owners := map[], map[];
    }

    ghost function Now(): Sys
      reads this, pool
    {
      Sys(V(), pool.taken, pool.Free())
    }

    ghost function External(): set<nat>
      reads this, pool
    {
      ExternalIn(Now())
    }

    // ------------------------------------------------------------- allocator

    // Reserve a whole contiguous extent and zero it, or leave the pool unchanged.
    method UserAllocContiguous(count: nat) returns (r: Option<nat>)
      requires Valid() && count < U64_LIMIT
      modifies this`mem, pool
      ensures Valid()
      ensures r.None? ==> Now() == old(Now())
      ensures r.None? ==> pool.Unchanged(old(pool.regions), old(pool.recycled), old(pool.taken))
      ensures r.None? <==> count == 0 || FP.NoRunLeft(old(pool.recycled), old(pool.regions), count)
      ensures r.Some? ==> Reserved(old(Now()), Now(), r.value, count)
    {
      hide MemoryOk, Good, FP.FramePool.Valid, FP.FramePool.Free, FP.NoRunLeft, FP.Extent;
      pool.Bounds();
      r := pool.Allocate(count);
      if r.Some? { Zero(r.value, count); }
    }

    // Zero the frames of an extent that no address space owns.
    method Zero(first: nat, count: nat)
      requires Valid() && FP.Extent(first, count) <= pool.universe
      requires FP.Extent(first, count) !! owners.Keys
      modifies this`mem
      ensures Valid() && mem.Keys == old(mem).Keys
      ensures forall f :: f in old(mem) && f !in FP.Extent(first, count) ==> mem[f] == old(mem)[f]
      ensures forall f :: f in FP.Extent(first, count) ==> f in mem && mem[f] == Bytes(ZeroPage())
    {
      hide MemoryOk, Good, FP.FramePool.Valid, FP.FramePool.Free;
      var k := 0;
      while k < count
        invariant 0 <= k <= count && Valid()
        invariant mem.Keys == old(mem).Keys
        invariant forall f :: f in old(mem) && f !in FP.Extent(first, k) ==> mem[f] == old(mem)[f]
        invariant forall f :: f in FP.Extent(first, k) ==> f in mem && mem[f] == Bytes(ZeroPage())
      {
        var f := first + k * FP.PAGE_BYTES;
        assert f in FP.Extent(first, count);
        assert FP.Extent(first, k + 1) == FP.Extent(first, k) + {f};
        GoodUnownedWrite(V(), f, Bytes(ZeroPage()));
        PoolWriteOk(mem, kernelRoot, pool.universe, f, Bytes(ZeroPage()));
        mem := mem[f := Bytes(ZeroPage())];
        k := k + 1;
      }
    }

    // Take and zero one frame.
    method UserAllocFrame() returns (r: Option<nat>)
      requires Valid()
      modifies this`mem, pool
      ensures Valid()
      ensures r.None? ==> Now() == old(Now()) && Now().free == {}
      ensures r.Some? ==> Allocated(old(Now()), Now(), r.value) && r.value in pool.universe
    {
      hide MemoryOk, Good, Reserved, Allocated, FP.FramePool.Valid, FP.NoRunLeft;
      r := UserAllocContiguous(1);
      if r.None? {
        NoFrameLeft();
      } else {
        OneReserved(old(Now()), Now(), r.value);
        AllocatedFacts(old(Now()), Now(), r.value);
      }
    }

    lemma Ownership()
      requires Valid()
      ensures owners.Keys <= pool.taken && Now().taken !! Now().free
    {
      hide MemoryOk, Good;
    }

    lemma FrameThere(f: nat)
      requires Valid() && f in pool.taken
      ensures f in mem
    {
      hide Good, KernelTablesIn;
    }

    lemma Intact()
      requires Valid()
      ensures Good(V())
    {
      hide Good;
    }

    lemma KernelTables()
      requires Valid()
      ensures TableAt(mem, kernelRoot) && kernelRoot !in pool.universe
      ensures mem[kernelRoot].table[0].present ==>
        && TableAt(mem, mem[kernelRoot].table[0].addr)
        && mem[kernelRoot].table[0].addr !in pool.universe
    {
      hide Good;
    }

    lemma NoFrameLeft()
      requires FP.NoRunLeft(pool.recycled, pool.regions, 1)
      ensures pool.Free() == {}
    {
      forall a: nat ensures a !in pool.Free() {
        assert FP.Extent(a, 1) == {a + 0 * FP.PAGE_BYTES};
        assert a !in FP.Elements(pool.recycled);
        assert forall i :: 0 <= i < |pool.regions| ==> !FP.InRegion(pool.regions[i], a);
      }
    }

    // Frames are released unseen: the machine stays intact exactly if no address
    // space owns the frame.
    method UserFreeFrame(f: nat)
      requires Valid()
      modifies pool
      ensures Freed(old(Now()), Now(), f)
      ensures Valid() <==> f !in owners
    {
      hide MemoryOk, Good, FP.FramePool.Valid, FP.FramePool.Free, KernelTablesIn, FP.AllRegionFrames, FP.Elements;
      pool.Bounds();
      pool.Release(f);
    }

    // --------------------------------------------------- the mapper's steps

    // Zero frame `f` as a table and link it below the low table.
    method LinkL2(cr3: nat, low: nat, f: nat)
      requires Valid() && cr3 in spaces && f in pool.taken && f !in owners
      requires spaces[cr3].l2.None? && low == spaces[cr3].low
      modifies this
      ensures Valid() && cr3 in spaces
      ensures Edited(old(Now()), Now(), cr3, AddL2(old(spaces)[cr3], f), {f}, {f})
    {
      hide MemoryOk, Good, Holds, Reowned, FP.FramePool.Valid, FP.FramePool.Free, AddL2, ZeroTable, Edited;
      ghost var sp, s := spaces[cr3], Now();
      ghost var v := V();
      GoodTree(v, cr3);
      AddL2Holds(mem, sp, f, TableEntry(f));
      TopTables(mem, sp);
      PoolWriteOk(mem, kernelRoot, pool.universe, f, Words(ZeroTable()));
      mem := mem[f := Words(ZeroTable())];
      TableWriteOk(mem, kernelRoot, pool.universe, low, 1, TableEntry(f));
      mem := Write(mem, low, 1, TableEntry(f));
      AddedFrames(sp, 0, f);
      GoodGrow(v, mem, cr3, AddL2(sp, f), f);
      Record(v, cr3, AddL2(sp, f));
      LinkEdited(s, Now(), cr3, AddL2(sp, f), f, low, 1, TableEntry(f));
    }

    // Zero frame `f` as a table and link it below the level-2 table.
    method LinkL1(cr3: nat, l2: nat, i: nat, f: nat)
      requires Valid() && cr3 in spaces && f in pool.taken && f !in owners
      requires spaces[cr3].l2 == Some(l2) && i < ENTRIES && i !in spaces[cr3].l1
      modifies this
      ensures Valid() && cr3 in spaces
      ensures Edited(old(Now()), Now(), cr3, AddL1(old(spaces)[cr3], i, f), {f}, {f})
    {
      hide MemoryOk, Good, Holds, Reowned, FP.FramePool.Valid, FP.FramePool.Free, AddL1, ZeroTable, Edited;
      ghost var sp, s := spaces[cr3], Now();
      ghost var v := V();
      GoodTree(v, cr3);
      AddL1Holds(mem, sp, i, f, TableEntry(f));
      TopTables(mem, sp);
      PoolWriteOk(mem, kernelRoot, pool.universe, f, Words(ZeroTable()));
      mem := mem[f := Words(ZeroTable())];
      TableWriteOk(mem, kernelRoot, pool.universe, l2, i, TableEntry(f));
      mem := Write(mem, l2, i, TableEntry(f));
      AddedFrames(sp, i, f);
      GoodGrow(v, mem, cr3, AddL1(sp, i, f), f);
      Record(v, cr3, AddL1(sp, i, f));
      LinkEdited(s, Now(), cr3, AddL1(sp, i, f), f, l2, i, TableEntry(f));
    }

    // Add the flags of a user mapping to an interior entry.
    method Relax(cr3: nat, table: nat, k: nat)
      requires Valid() && cr3 in spaces && Interior(spaces[cr3], table, k)
      modifies this
      ensures Valid() && spaces == old(spaces)
      ensures StepOn(old(Now()), Now(), cr3) && External() == old(External()) && Now().free == old(Now().free)
    {
      hide MemoryOk, Good, Holds, Reowned, FP.FramePool.Valid, FP.FramePool.Free;
      ghost var sp := spaces[cr3];
      ghost var v := V();
      GoodTree(v, cr3);
      RelaxHolds(mem, sp, table, k);
      TableWriteOk(mem, kernelRoot, pool.universe, table, k, Relaxed(mem[table].table[k]));
      mem := Write(mem, table, k, Relaxed(mem[table].table[k]));
      GoodSame(v, mem, cr3, sp);
      Record(v, cr3, sp);
    }

    // Find the level-2 table below entry 1 of the low table, or create it.
    method NextL2(cr3: nat) returns (ok: bool)
      requires Valid() && cr3 in spaces
      modifies this, pool
      ensures Valid() && cr3 in spaces && StepOn(old(Now()), Now(), cr3) && External() == old(External())
      ensures Grows(old(spaces)[cr3], spaces[cr3]) && spaces[cr3].leaf == old(spaces)[cr3].leaf
      ensures ok <==> spaces[cr3].l2.Some?
      ensures spaces[cr3].l1 == old(spaces)[cr3].l1
      ensures |Now().free| >= |old(Now().free)| - TablesMissing(old(spaces)[cr3])
      ensures !ok ==> Now().free == {} && old(Now().free) == {}
    {
      hide MemoryOk, Good, Holds, Reowned, FP.FramePool.Valid, FP.FramePool.Free, StepOn, Edited, Allocated;
      ghost var s := Now();
      GoodTree(V(), cr3);
      TopTables(mem, spaces[cr3]);
      Ownership();
      var low := mem[cr3].table[0].addr;
      if mem[low].table[1] == UNUSED {
        var r := UserAllocFrame();
        if r.None? {
          StepSame(s, cr3);
          return false;
        }
        ghost var t := Now();
        AllocatedFacts(s, t, r.value);
        LinkL2(cr3, low, r.value);
        TableStep(s, t, Now(), r.value, cr3, AddL2(s.view.spaces[cr3], r.value));
        EditedSpace(t, Now(), cr3, AddL2(s.view.spaces[cr3], r.value), {r.value}, {r.value});
      } else {
        Relax(cr3, low, 1);
      }
      return true;
    }

    // Find the level-1 table at index `i` of the level-2 table, or create it.
    method NextL1(cr3: nat, i: nat) returns (ok: bool)
      requires Valid() && cr3 in spaces && i < ENTRIES && spaces[cr3].l2.Some?
      modifies this, pool
      ensures Valid() && cr3 in spaces && StepOn(old(Now()), Now(), cr3) && External() == old(External())
      ensures Grows(old(spaces)[cr3], spaces[cr3]) && spaces[cr3].leaf == old(spaces)[cr3].leaf
      ensures ok <==> i in spaces[cr3].l1
      ensures spaces[cr3].l1.Keys <= old(spaces)[cr3].l1.Keys + {i}
      ensures |Now().free| >= |old(Now().free)| - 1
      ensures !ok ==> Now().free == {} && old(Now().free) == {}
    {
      hide MemoryOk, Good, Holds, Reowned, FP.FramePool.Valid, FP.FramePool.Free, StepOn, Edited, Allocated,
        ContentKept, Consistent, LowRow, TableAt;
      ghost var s := Now();
      GoodTree(V(), cr3);
      TopTables(mem, spaces[cr3]);
      L2Table(mem, spaces[cr3], i);
      Ownership();
      var l2 := mem[mem[cr3].table[0].addr].table[1].addr;
      if mem[l2].table[i] == UNUSED {
        var r := UserAllocFrame();
        if r.None? {
          StepSame(s, cr3);
          return false;
        }
        ghost var t := Now();
        AllocatedFacts(s, t, r.value);
        LinkL1(cr3, l2, i, r.value);
        TableStep(s, t, Now(), r.value, cr3, AddL1(s.view.spaces[cr3], i, r.value));
        EditedSpace(t, Now(), cr3, AddL1(s.view.spaces[cr3], i, r.value), {r.value}, {r.value});
      } else {
        Relax(cr3, l2, i);
      }
      return true;
    }

    // Fill the unused leaf entry of page `p`.
    method SetLeaf(cr3: nat, l1: nat, p: Page, e: Pte)
      requires Valid() && cr3 in spaces && p.j < ENTRIES
      requires p.i in spaces[cr3].l1 && l1 == spaces[cr3].l1[p.i] && p !in spaces[cr3].leaf
      requires e.present && (e.owned ==> e.addr in pool.taken && e.addr !in owners && mem[e.addr].Bytes?)
      modifies this
      ensures Valid() && cr3 in spaces
      ensures Edited(old(Now()), Now(), cr3, AddLeaf(old(spaces)[cr3], p, e), if e.owned then {e.addr} else {}, {})
    {
      hide MemoryOk, Good, Holds, Reowned, FP.FramePool.Valid, FP.FramePool.Free;
      ghost var sp := spaces[cr3];
      ghost var v := V();
      GoodTree(v, cr3);
      if e.owned { FrameThere(e.addr); }
      AddLeafHolds(mem, sp, p, e);
      L1Table(mem, sp, p.i);
      TableWriteOk(mem, kernelRoot, pool.universe, l1, p.j, e);
      mem := Write(mem, l1, p.j, e);
      if e.owned {
        GoodGrow(v, mem, cr3, AddLeaf(sp, p, e), e.addr);
      } else {
        GoodSame(v, mem, cr3, AddLeaf(sp, p, e));
      }
      Record(v, cr3, AddLeaf(sp, p, e));
    }

    // The mapper's walk: the level-1 table of a user address, if there is one.
    method FindL1(cr3: nat, virt: nat) returns (t: Option<nat>)
      requires Valid() && cr3 in spaces && InUser(virt)
      ensures t.Some? <==> P2(virt) in spaces[cr3].l1
      ensures t.Some? ==> t.value == spaces[cr3].l1[P2(virt)]
      ensures t.Some? ==>
        && t.value in mem && mem[t.value].Words?
        && mem[t.value].table[P1(virt)] == LeafOr(spaces[cr3], PageOf(virt))
      ensures PageOf(virt) in spaces[cr3].leaf ==>
        && P2(virt) in spaces[cr3].l1
        && LeafOr(spaces[cr3], PageOf(virt)) != UNUSED
    {
      hide MemoryOk, Good, Holds, FP.FramePool.Valid, FP.FramePool.Free;
      ghost var sp := spaces[cr3];
      UserIndices(virt);
      GoodTree(V(), cr3);
      TopTables(mem, sp);
      if PageOf(virt) in sp.leaf { LeafEntry(mem, sp, PageOf(virt)); }
      var e3 := mem[mem[cr3].table[P4(virt)].addr].table[P3(virt)];
      if !e3.present {
        NoL2NoL1(mem, sp);
        return None;
      }
      L2Table(mem, sp, P2(virt));
      var e2 := mem[e3.addr].table[P2(virt)];
      if !e2.present { return None; }
      L1Table(mem, sp, P2(virt));
      return Some(e2.addr);
    }

    // Physical frame behind a user page.
    method TranslatePage(cr3: nat, virt: nat) returns (r: Option<nat>)
      requires Valid() && cr3 in spaces && InUser(virt)
      ensures r == if PageOf(virt) in spaces[cr3].leaf then Some(spaces[cr3].leaf[PageOf(virt)].addr) else None
    {
      hide MemoryOk, Good, Holds, FP.FramePool.Valid, FP.FramePool.Free;
      var t := FindL1(cr3, virt);
      if t.None? || mem[t.value].table[P1(virt)] == UNUSED { return None; }
      return Some(mem[t.value].table[P1(virt)].addr);
    }

    // Clear one present leaf and report the frame it named.
    method Unmap(cr3: nat, virt: nat) returns (r: Option<nat>)
      requires Valid() && cr3 in spaces && InUser(virt)
      modifies this
      ensures Valid() && cr3 in spaces
      ensures r.None? ==> PageOf(virt) !in old(spaces)[cr3].leaf && Now() == old(Now())
      ensures r.Some? ==>
        && PageOf(virt) in old(spaces)[cr3].leaf
        && r.value == old(spaces)[cr3].leaf[PageOf(virt)].addr
        && Cut(old(Now()), Now(), cr3, DropLeaf(old(spaces)[cr3], PageOf(virt)),
               OwnedFrame(old(spaces)[cr3].leaf[PageOf(virt)]))
    {
      hide MemoryOk, Good, Holds, Reowned, FP.FramePool.Valid, FP.FramePool.Free;
      var t := FindL1(cr3, virt);
      if t.None? || mem[t.value].table[P1(virt)] == UNUSED { return None; }
      var e := mem[t.value].table[P1(virt)];
      ClearLeaf(cr3, t.value, PageOf(virt));
      return Some(e.addr);
    }

    // Clear the leaf entry of a mapped page in its level-1 table.
    method ClearLeaf(cr3: nat, l1: nat, p: Page)
      requires Valid() && cr3 in spaces && p in spaces[cr3].leaf
      requires p.i in spaces[cr3].l1 && l1 == spaces[cr3].l1[p.i]
      modifies this
      ensures Valid() && cr3 in spaces
      ensures Cut(old(Now()), Now(), cr3, DropLeaf(old(spaces)[cr3], p), OwnedFrame(old(spaces)[cr3].leaf[p]))
    {
      hide MemoryOk, Good, Holds, Reowned, FP.FramePool.Valid, FP.FramePool.Free;
      ghost var sp := spaces[cr3];
      ghost var v := V();
      GoodTree(v, cr3);
      DropLeafHolds(mem, sp, p);
      L1Table(mem, sp, p.i);
      LeafEntry(mem, sp, p);
      TableWriteOk(mem, kernelRoot, pool.universe, l1, p.j, UNUSED);
      mem := Write(mem, l1, p.j, UNUSED);
      if sp.leaf[p].owned {
        GoodShrink(v, mem, cr3, DropLeaf(sp, p), sp.leaf[p].addr);
      } else {
        GoodSame(v, mem, cr3, DropLeaf(sp, p));
      }
      Record(v, cr3, DropLeaf(sp, p));
    }

    // Clear the level-2 entry of an empty level-1 table.
    method ClearL1(cr3: nat, l2: nat, i: nat)
      requires Valid() && cr3 in spaces && spaces[cr3].l2 == Some(l2) && i in spaces[cr3].l1
      requires forall p :: p in spaces[cr3].leaf ==> p.i != i
      modifies this
      ensures Valid() && cr3 in spaces
      ensures Cut(old(Now()), Now(), cr3, DropL1(old(spaces)[cr3], i), {old(spaces)[cr3].l1[i]})
    {
      hide MemoryOk, Good, Holds, Reowned, FP.FramePool.Valid, FP.FramePool.Free;
      ghost var sp := spaces[cr3];
      ghost var v := V();
      GoodTree(v, cr3);
      DropL1Holds(mem, sp, i);
      L1Table(mem, sp, i);
      L2Table(mem, sp, i);
      TableWriteOk(mem, kernelRoot, pool.universe, l2, i, UNUSED);
      mem := Write(mem, l2, i, UNUSED);
      GoodShrink(v, mem, cr3, DropL1(sp, i), sp.l1[i]);
      Record(v, cr3, DropL1(sp, i));
    }

    // Clear the low-table entry of an empty level-2 table.
    method ClearL2(cr3: nat, low: nat)
      requires Valid() && cr3 in spaces && spaces[cr3].low == low
      requires spaces[cr3].l2.Some? && spaces[cr3].l1 == map[]
      modifies this
      ensures Valid() && cr3 in spaces
      ensures Cut(old(Now()), Now(), cr3, DropL2(old(spaces)[cr3]), {old(spaces)[cr3].l2.value})
    {
      hide MemoryOk, Good, Holds, Reowned, FP.FramePool.Valid, FP.FramePool.Free;
      ghost var sp := spaces[cr3];
      ghost var v := V();
      GoodTree(v, cr3);
      DropL2Holds(mem, sp);
      TopTables(mem, sp);
      TableWriteOk(mem, kernelRoot, pool.universe, low, 1, UNUSED);
      mem := Write(mem, low, 1, UNUSED);
      GoodShrink(v, mem, cr3, DropL2(sp), sp.l2.value);
      Record(v, cr3, DropL2(sp));
    }

    // Create the tables missing above a user page.
    method MakeTables(cr3: nat, virt: nat) returns (ok: bool)
      requires Valid() && cr3 in spaces && InUser(virt)
      modifies this, pool
      ensures Valid() && cr3 in spaces && StepOn(old(Now()), Now(), cr3) && External() == old(External())
      ensures Grows(old(spaces)[cr3], spaces[cr3])
      ensures spaces[cr3].leaf == old(spaces)[cr3].leaf
      ensures ok <==> P2(virt) in spaces[cr3].l1
      ensures spaces[cr3].l1.Keys <= old(spaces)[cr3].l1.Keys + {P2(virt)}
      ensures !ok ==> |old(Now().free)| <= TablesMissing(old(spaces)[cr3])
      ensures |Now().free| >= |old(Now().free)| - 1 - TablesMissing(old(spaces)[cr3])
    {
      hide MemoryOk, Good, Holds, Reowned, FP.FramePool.Valid, FP.FramePool.Free, StepOn, Grows, Valid;
      ghost var s := Now();
      RootIsInterior(cr3);
      Relax(cr3, cr3, 0);
      ghost var t := Now();
      ok := NextL2(cr3);
      ghost var u := Now();
      StepTrans(s, t, u, cr3);
      if !ok {
        NoL2(cr3);
        return;
      }
      ok := NextL1(cr3, P2(virt));
      StepTrans(s, u, Now(), cr3);
      GrowsTrans(s.view.spaces[cr3], u.view.spaces[cr3], Now().view.spaces[cr3]);
    }

    lemma RootIsInterior(cr3: nat)
      requires Valid() && cr3 in spaces
      ensures Interior(spaces[cr3], cr3, 0)
    {
      hide MemoryOk, Good, Holds;
      GoodTree(V(), cr3);
    }

    lemma NoL2(cr3: nat)
      requires Valid() && cr3 in spaces && spaces[cr3].l2.None?
      ensures spaces[cr3].l1 == map[] && spaces[cr3].leaf == map[]
    {
      hide MemoryOk, Good, Holds;
      GoodTree(V(), cr3);
      NoL2NoL1(mem, spaces[cr3]);
    }

    // Map one page: create the missing tables, then fill the leaf if it is free.
    method MapTo(cr3: nat, virt: nat, e: Pte) returns (r: MapResult)
      requires Valid() && cr3 in spaces && InUser(virt)
      requires e.present && (e.owned ==> e.addr in pool.taken && e.addr !in owners && mem[e.addr].Bytes?)
      modifies this, pool
      ensures Valid() && cr3 in spaces && StepOn(old(Now()), Now(), cr3)
      ensures Grows(old(spaces)[cr3], spaces[cr3])
      ensures spaces[cr3].leaf ==
        if r.Mapped? then old(spaces)[cr3].leaf[PageOf(virt) := e] else old(spaces)[cr3].leaf
      ensures spaces[cr3].l1.Keys <= old(spaces)[cr3].l1.Keys + {P2(virt)}
      ensures !r.NoFrame? ==> P2(virt) in spaces[cr3].l1
      ensures r.Mapped? && Tight(old(spaces)[cr3]) ==> Tight(spaces[cr3])
      ensures r.AlreadyMapped? <==> PageOf(virt) in old(spaces)[cr3].leaf
      ensures External() == old(External()) - (if r.Mapped? && e.owned then {e.addr} else {})
      ensures r.NoFrame? ==> |old(Now().free)| <= TablesMissing(old(spaces)[cr3])
      ensures |Now().free| >= |old(Now().free)| - 1 - TablesMissing(old(spaces)[cr3])
    {
      hide MemoryOk, Good, Holds, Reowned, FP.FramePool.Valid, FP.FramePool.Free, StepOn, Grows, Edited, Tight,
        Consistent;
      ghost var s := Now();
      if e.owned { FrameThere(e.addr); }
      var ok := MakeTables(cr3, virt);
      GoodTree(V(), cr3);
      LeafHasTable(mem, spaces[cr3]);
      if !ok { return NoFrame; }
      var t := FindL1(cr3, virt);
      if mem[t.value].table[P1(virt)] != UNUSED { return AlreadyMapped; }
      ghost var u := Now();
      StepKeepsPage(s, u, cr3, e);
      SetLeaf(cr3, t.value, PageOf(virt), e);
      ghost var sp := AddLeaf(u.view.spaces[cr3], PageOf(virt), e);
      ghost var added := if e.owned then {e.addr} else {};
      Ownership();
      EditedSpace(u, Now(), cr3, sp, added, {});
      EditedStep(u, Now(), cr3, sp, added);
      StepTrans(s, u, Now(), cr3);
      GrowsLeaf(s.view.spaces[cr3], u.view.spaces[cr3], PageOf(virt), e);
      OwnedLeafTaken(cr3, PageOf(virt));
      if Tight(s.view.spaces[cr3]) { MappingKeepsTight(s.view.spaces[cr3], spaces[cr3], PageOf(virt), e); }
      return Mapped;
    }

    // Allocate a frame and map it at a user page. Without a table frame, or on a
    // page that is mapped already, the frame goes back.
    method MapUserPage(cr3: nat, virt: nat, writable: bool) returns (r: Option<MemError>)
      requires Valid() && cr3 in spaces
      modifies this, pool
      ensures Valid() && cr3 in spaces && StepOn(old(Now()), Now(), cr3) && External() == old(External())
      ensures Grows(old(spaces)[cr3], spaces[cr3])
      ensures !InUser(virt) ==> r.Some? && Now() == old(Now())
      ensures r.Some? ==> spaces[cr3].leaf == old(spaces)[cr3].leaf
      ensures r.None? && Tight(old(spaces)[cr3]) ==> Tight(spaces[cr3])
      ensures r.None? ==> PageMapped(old(Now()), Now(), cr3, virt, writable) && Opens(mem, cr3, virt, writable)
      ensures r.Some? && InUser(virt) && PageOf(virt) !in old(spaces)[cr3].leaf ==>
        |old(Now().free)| <= 1 + TablesMissing(old(spaces)[cr3])
      ensures |Now().free| >= |old(Now().free)| - 2 - TablesMissing(old(spaces)[cr3])
    {
      hide MemoryOk, Good, Holds, Reowned, FP.FramePool.Valid, FP.FramePool.Free, StepOn, Grows, Allocated,
        PageOf, Valid, Tight, TablesMissing, ZeroPage, ContentKept, FP.NoRunLeft, PageMapped, Opens;
      ghost var s := Now();
      StepSame(s, cr3);
      GrowsSame(spaces[cr3]);
      if !(USER_ADDR_BASE <= virt < USER_ADDR_LIMIT) { return Some(OutsideUserSpace); }
      Ownership();
      var a := UserAllocFrame();
      if a.None? { return Some(NoFreeFrames); }
      AllocatedStep(s, Now(), a.value, cr3);
      r := MapFrame(cr3, virt, a.value, writable, s);
      Intact();
      if r.None? { MappedOpens(s, Now(), cr3, virt, writable); }
    }

    // Map a frame that has just been taken, or give it back.
    method MapFrame(cr3: nat, virt: nat, f: nat, writable: bool, ghost s: Sys) returns (r: Option<MemError>)
      requires Valid() && cr3 in spaces && InUser(virt)
      requires cr3 in s.view.spaces && StepOn(s, Now(), cr3) && spaces[cr3] == s.view.spaces[cr3]
      requires f in s.free && f !in s.taken && f in External() && External() == ExternalIn(s) + {f}
      requires f in mem && mem[f] == Bytes(ZeroPage())
      modifies this, pool
      ensures Valid() && cr3 in spaces && StepOn(s, Now(), cr3) && External() == ExternalIn(s)
      ensures Grows(old(spaces)[cr3], spaces[cr3])
      ensures r.Some? ==> spaces[cr3].leaf == old(spaces)[cr3].leaf
      ensures r.None? && Tight(old(spaces)[cr3]) ==> Tight(spaces[cr3])
      ensures r.None? ==> PageMapped(s, Now(), cr3, virt, writable)
      ensures r.Some? && PageOf(virt) !in old(spaces)[cr3].leaf ==>
        |old(Now().free)| <= TablesMissing(old(spaces)[cr3])
      ensures |Now().free| >= |old(Now().free)| - 1 - TablesMissing(old(spaces)[cr3])
    {
      hide MemoryOk, Good, Holds, Reowned, FP.FramePool.Valid, FP.FramePool.Free, StepOn, Grows, Freed,
        PageOf, Valid, Tight, TablesMissing, ZeroPage, ContentKept, PageMapped;
      ghost var t := Now();
      RootIsInterior(cr3);
      Relax(cr3, cr3, 0);
      ghost var t' := Now();
      StepKeepsPage(t, t', cr3, UserPte(f, virt, writable));
      StepTrans(s, t, t', cr3);
      var m := MapTo(cr3, virt, UserPte(f, virt, writable));
      ghost var u := Now();
      StepTrans(s, t', u, cr3);
      if m.Mapped? {
        StepKeepsData(t', u, cr3, f);
        PageIsMapped(s, u, cr3, virt, f, writable);
        return None;
      }
      Ownership();
      UserFreeFrame(f);
      FreedStep(s, u, Now(), f, cr3);
      return Some(MappedOrNoTable);
    }

    // Give back the tables of the private subtree in which no page is mapped.
    method Prune(cr3: nat)
      requires Valid() && cr3 in spaces
      modifies this, pool
      ensures Valid() && cr3 in spaces
      ensures Trimmed(old(Now()), Now(), cr3, Pruned(old(spaces)[cr3]))
    {
      hide MemoryOk, Good, Holds, Reowned, FP.FramePool.Valid, FP.FramePool.Free, Trimmed, Cut, Freed, Pruned,
        PrunedBelow;
      ghost var s, sp := Now(), spaces[cr3];
      GoodTree(V(), cr3);
      TopTables(mem, sp);
      TrimmedSame(s, cr3);
      var low := mem[cr3].table[0].addr;
      if !mem[low].table[1].present {
        PrunedWithoutL2(mem, sp);
        return;
      }
      var l2 := mem[low].table[1].addr;
      PrunedBelowStart(sp);
      HoldsConsistent(mem, sp);
      var k := 0;
      while k < ENTRIES
        invariant 0 <= k <= ENTRIES
        invariant Valid() && cr3 in spaces && spaces[cr3] == PrunedBelow(sp, k)
        invariant Trimmed(s, Now(), cr3, PrunedBelow(sp, k))
      {
        PruneOne(cr3, l2, k, s, sp);
        k := k + 1;
      }
      FinishPrune(cr3, low, l2, s, sp);
    }

    method PruneOne(cr3: nat, l2: nat, k: nat, ghost s: Sys, ghost sp: Space)
      requires Valid() && cr3 in spaces && k < ENTRIES && Consistent(sp)
      requires spaces[cr3] == PrunedBelow(sp, k) && sp.l2 == Some(l2)
      requires Trimmed(s, Now(), cr3, PrunedBelow(sp, k))
      modifies this, pool
      ensures Valid() && cr3 in spaces
      ensures spaces[cr3] == PrunedBelow(sp, k + 1)
      ensures Trimmed(s, Now(), cr3, PrunedBelow(sp, k + 1))
    {
      hide MemoryOk, Good, Holds, Reowned, Consistent, FP.FramePool.Valid, FP.FramePool.Free, Trimmed, Cut, Freed,
        PrunedBelow;
      ghost var t, mid := Now(), spaces[cr3];
      PrunedBelowStep(sp, k);
      PrunedBelowParts(sp, k);
      GoodTree(V(), cr3);
      L2Table(mem, mid, k);
      var e := mem[l2].table[k];
      if e.present && !e.huge {
        L1Table(mem, mid, k);
        EmptyRow(mem, mid, k);
        if forall j :: 0 <= j < ENTRIES ==> mem[e.addr].table[j] == UNUSED {
          Ownership();
          ClearL1(cr3, l2, k);
          ghost var u := Now();
          CutFacts(t, u, cr3, DropL1(mid, k), {e.addr});
          UserFreeFrame(e.addr);
          TrimmedStep(s, t, u, Now(), cr3, mid, DropL1(mid, k), e.addr);
          FreedFacts(u, Now(), e.addr);
        }
      }
    }

    method FinishPrune(cr3: nat, low: nat, l2: nat, ghost s: Sys, ghost sp: Space)
      requires Valid() && cr3 in spaces && Consistent(sp)
      requires spaces[cr3] == PrunedBelow(sp, ENTRIES) && sp.l2 == Some(l2) && sp.low == low
      requires Trimmed(s, Now(), cr3, PrunedBelow(sp, ENTRIES))
      modifies this, pool
      ensures Valid() && cr3 in spaces
      ensures Trimmed(s, Now(), cr3, Pruned(sp))
    {
      hide MemoryOk, Good, Holds, Reowned, Consistent, FP.FramePool.Valid, FP.FramePool.Free, Trimmed, Cut, Freed,
        PrunedBelow;
      ghost var t, mid := Now(), spaces[cr3];
      PrunedBelowParts(sp, ENTRIES);
      GoodTree(V(), cr3);
      TopTables(mem, mid);
      EmptyL2(mem, mid);
      if forall i :: 0 <= i < ENTRIES ==> mem[l2].table[i] == UNUSED {
        Ownership();
        ClearL2(cr3, low);
        ghost var u := Now();
        CutFacts(t, u, cr3, DropL2(mid), {l2});
        UserFreeFrame(l2);
        TrimmedStep(s, t, u, Now(), cr3, mid, DropL2(mid), l2);
        FreedFacts(u, Now(), l2);
      }
    }

    // Map `len` bytes from `virt` on with fresh frames, in whole pages. If any
    // page fails, the pages before it are unmapped and freed and empty tables go.
    method MapUserRegion(cr3: nat, virt: nat, len: nat, writable: bool) returns (r: Result<nat, MemError>)
      requires Valid() && cr3 in spaces
      modifies this, pool
      ensures Valid() && cr3 in spaces
      ensures !InBounds(virt, len) ==> r.Err? && Now() == old(Now())
      ensures r.Ok? ==>
        && r.value == virt && StepOn(old(Now()), Now(), cr3) && External() == old(External())
        && (Tight(old(spaces)[cr3]) ==> Tight(spaces[cr3]))
        && Filled(old(Now()), Now(), cr3, RegionStart(virt), 0, RegionPages(virt, len), writable)
        && (forall v :: RegionStart(virt) <= v < At(RegionStart(virt), RegionPages(virt, len)) ==>
             Opens(mem, cr3, v, writable))
        && Grows(old(spaces)[cr3], spaces[cr3])
        && |Now().free| + 2 * RegionPages(virt, len) + TablesMissing(old(spaces)[cr3])
           - TablesMissing(spaces[cr3]) >= |old(Now().free)|
      ensures r.Err? && InBounds(virt, len) ==>
        && RolledBack(old(Now()), Now(), cr3)
        && (!RegionFree(old(spaces)[cr3], virt, len)
            || |old(Now().free)| < 2 * RegionPages(virt, len) + TablesMissing(old(spaces)[cr3]))
    {
      hide MemoryOk, Good, Holds, Reowned, FP.FramePool.Valid, FP.FramePool.Free, StepOn, Grows, Filled, RolledBack,
        Range, PageOf, Consistent, Tight, Filling, TablesMissing, UserPte, ZeroPage, ContentKept, Opens;
      var end := virt + if len == 0 then 1 else len;
      if end >= U64_LIMIT { return Err(RegionOverflow); }
      if virt < USER_ADDR_BASE || end > USER_ADDR_LIMIT { return Err(RegionOutOfBounds); }
      var start := virt - virt % PAGE;
      var pages := (end - start + 4095) / PAGE;
      RegionIsUserRange(virt, len);
      ghost var s := Now();
      FillingNothing(s, cr3, start, writable);
      Ownership();
      OwnedLeafTaken(cr3, Page(0, 0));
      var i := 0;
      while i < pages
        invariant 0 <= i <= pages
        invariant Valid() && cr3 in spaces && Filling(s, Now(), cr3, start, i, writable)
      {
        ghost var t := Now();
        Ownership();
        InUserRange(start, pages, i);
        var e := MapUserPage(cr3, At(start, i), writable);
        if e.Some? {
          FillingStopped(s, t, Now(), cr3, start, i, writable);
          RollBack(cr3, start, i, writable, s);
          return Err(e.value);
        }
        OwnedLeafTaken(cr3, PageOf(At(start, i)));
        FillingOneMore(s, t, Now(), cr3, start, i, writable);
        i := i + 1;
      }
      FillingFacts(s, Now(), cr3, start, pages, writable);
      FilledOpens(s, Now(), cr3, start, pages, writable);
      return Ok(virt);
    }

    // Map frames owned by somebody else, all of them or none.
    method MapSurfaceFrames(cr3: nat, virt: nat, phys: nat, pages: nat) returns (r: Option<MemError>)
      requires Valid() && cr3 in spaces
      modifies this, pool
      ensures Valid() && cr3 in spaces
      ensures !SurfaceArgs(virt, phys, pages) ==> r.Some? && Now() == old(Now())
      ensures r.None? ==>
        && StepOn(old(Now()), Now(), cr3) && External() == old(External())
        && (Tight(old(spaces)[cr3]) ==> Tight(spaces[cr3]))
        && Overlaid(old(spaces)[cr3].leaf, spaces[cr3].leaf, virt, phys, 0, pages)
        && Shows(mem, cr3, virt, phys, pages)
        && Grows(old(spaces)[cr3], spaces[cr3])
      ensures r.Some? && SurfaceArgs(virt, phys, pages) ==>
        && RolledBack(old(Now()), Now(), cr3)
        && ((exists k :: 0 <= k < pages && PageOf(At(virt, k)) in old(spaces)[cr3].leaf)
            || |old(Now().free)| < pages + 1 + TablesMissing(old(spaces)[cr3]))
    {
      hide MemoryOk, Good, Holds, Reowned, FP.FramePool.Valid, FP.FramePool.Free, StepOn, Grows, Overlaid, RolledBack,
        Range, PageOf, Consistent, Tight, Shows;
      if virt < USER_ADDR_BASE || virt % PAGE != 0 || phys % PAGE != 0 || pages == 0
         || pages * PAGE >= U64_LIMIT || !IsUserRange(virt, pages * PAGE) {
        return Some(InvalidSurface);
      }
      ghost var s, sp := Now(), spaces[cr3];
      StepSame(s, cr3);
      GrowsSame(sp);
      OverlaidNothing(sp.leaf, virt, phys);
      Ownership();
      OwnedLeafTaken(cr3, Page(0, 0));
      var i := 0;
      while i < pages
        invariant 0 <= i <= pages
        invariant Valid() && cr3 in spaces && StepOn(s, Now(), cr3) && External() == ExternalIn(s)
        invariant Overlaid(sp.leaf, spaces[cr3].leaf, virt, phys, 0, i) && Grows(sp, spaces[cr3])
        invariant Tight(sp) ==> Tight(spaces[cr3])
        invariant |Now().free| + i + TablesMissing(sp) - TablesMissing(spaces[cr3]) >= |s.free|
      {
        ghost var t, mid := Now(), spaces[cr3];
        InUserRange(virt, pages, i);
        var m := MapTo(cr3, At(virt, i), SurfacePte(phys + i * PAGE));
        StepTrans(s, t, Now(), cr3);
        GrowsTrans(sp, mid, spaces[cr3]);
        if !m.Mapped? {
          if PageOf(At(virt, i)) in mid.leaf { OverlapIsOld(sp.leaf, mid.leaf, virt, phys, i); }
          UnlaySurface(cr3, virt, phys, i, s);
          return Some(SurfaceOverlaps);
        }
        OwnedLeafTaken(cr3, PageOf(At(virt, i)));
        OverlaidOneMore(sp.leaf, mid.leaf, virt, phys, i);
        i := i + 1;
      }
      OverlaidShows(V(), cr3, sp.leaf, virt, phys, pages);
      return None;
    }

    // Undo the first `n` pages of a surface that could not be completed.
    method UnlaySurface(cr3: nat, virt: nat, ghost phys: nat, n: nat, ghost s: Sys)
      requires Valid() && cr3 in spaces && UserRange(virt, n)
      requires Good(s.view) && s.view.owners.Keys <= s.taken
      requires cr3 in s.view.spaces && StepOn(s, Now(), cr3) && External() == ExternalIn(s)
      requires Overlaid(s.view.spaces[cr3].leaf, spaces[cr3].leaf, virt, phys, 0, n)
      requires Consistent(s.view.spaces[cr3]) && Grows(s.view.spaces[cr3], spaces[cr3])
      modifies this, pool
      ensures Valid() && cr3 in spaces && RolledBack(s, Now(), cr3)
    {
      hide MemoryOk, Good, Holds, Reowned, FP.FramePool.Valid, FP.FramePool.Free, StepOn, Grows, Overlaid, RolledBack,
        Range, PageOf, Consistent, Cut, Trimmed;
      ghost var base := s.view.spaces[cr3].leaf;
      var j := 0;
      while j < n
        invariant 0 <= j <= n
        invariant Valid() && cr3 in spaces && StepOn(s, Now(), cr3) && External() == ExternalIn(s)
        invariant Overlaid(base, spaces[cr3].leaf, virt, phys, j, n)
        invariant Grows(s.view.spaces[cr3], spaces[cr3])
      {
        ghost var t, mid := Now(), spaces[cr3];
        ghost var p := PageOf(At(virt, j));
        Ownership();
        InUserRange(virt, n, j);
        OverlaidPage(base, mid.leaf, virt, phys, j, n, j);
        var f := Unmap(cr3, At(virt, j));
        if f.Some? {
          CutStep(s, t, Now(), cr3, DropLeaf(mid, p));
          OverlaidOneLess(base, mid.leaf, virt, phys, j, n);
          GrowsDrop(s.view.spaces[cr3], mid, p);
        }
        j := j + 1;
      }
      ghost var t := Now();
      OwnedLeafTaken(cr3, Page(0, 0));
      OverlaidNone(base, spaces[cr3].leaf, virt, phys, n);
      Prune(cr3);
      RolledBackStep(s, t, Now(), cr3);
    }

    // Remove a surface from its owner, after checking that every page of it still
    // maps the recorded backing; otherwise change nothing. Whether the space owns
    // these pages is not asked; if it does, their frames are left without an owner.
    method UnmapSurfaceFrames(cr3: nat, virt: nat, phys: nat, pages: nat) returns (r: Option<MemError>)
      requires Valid() && cr3 in spaces && UserRange(virt, pages)
      modifies this, pool
      ensures Valid() && cr3 in spaces
      ensures r.None? <==> forall k :: 0 <= k < pages ==>
        Maps(old(spaces)[cr3].leaf, At(virt, k), phys + k * PAGE)
      ensures r.Some? ==> Now() == old(Now())
      ensures r.None? ==>
        && Shed(old(Now()), Now(), cr3, Pruned(WithoutPages(old(spaces)[cr3], Range(virt, 0, pages))),
                OwnedBy(old(spaces)[cr3], Range(virt, 0, pages)))
    {
      hide MemoryOk, Good, Holds, Reowned, FP.FramePool.Valid, FP.FramePool.Free, Range, PageOf, Consistent, Cut,
        Trimmed, Shed, WithoutPages, OwnedBy, Pruned, DropLeaf;
      ghost var s, sp := Now(), spaces[cr3];
      var i := 0;
      while i < pages
        invariant 0 <= i <= pages && Valid() && Now() == s
        invariant forall k :: 0 <= k < i ==> Maps(sp.leaf, At(virt, k), phys + k * PAGE)
      {
        InUserRange(virt, pages, i);
        var f := TranslatePage(cr3, At(virt, i));
        if f != Some(phys + i * PAGE) { return Some(BackingMismatch); }
        i := i + 1;
      }
      ShedSame(s, cr3);
      WithoutNothing(sp, virt);
      i := 0;
      while i < pages
        invariant 0 <= i <= pages && Valid() && cr3 in spaces && Now().taken == s.taken
        invariant spaces[cr3] == WithoutPages(sp, Range(virt, 0, i))
        invariant Shed(s, Now(), cr3, WithoutPages(sp, Range(virt, 0, i)), OwnedBy(sp, Range(virt, 0, i)))
      {
        ghost var t, mid := Now(), spaces[cr3];
        ghost var p := PageOf(At(virt, i));
        Ownership();
        InUserRange(virt, pages, i);
        StillThere(sp, virt, i);
        OwnedLeafTaken(cr3, p);
        assert Maps(sp.leaf, At(virt, i), phys + i * PAGE);
        var f := Unmap(cr3, At(virt, i));
        WithoutOneMore(sp, virt, i);
        CutFacts(t, Now(), cr3, DropLeaf(mid, p), OwnedFrame(mid.leaf[p]));
        ShedCut(s, t, Now(), cr3, mid, DropLeaf(mid, p), OwnedBy(sp, Range(virt, 0, i)), OwnedFrame(mid.leaf[p]));
        i := i + 1;
      }
      ghost var t, mid := Now(), spaces[cr3];
      Prune(cr3);
      ShedTrimmed(s, t, Now(), cr3, mid, Pruned(mid), OwnedBy(sp, Range(virt, 0, pages)));
      return None;
    }

    // Undo the first `n` pages of a range that could not be completed.
    method RollBack(cr3: nat, start: nat, n: nat, ghost writable: bool, ghost s: Sys)
      requires Valid() && cr3 in spaces && UserRange(start, n) && s.taken !! s.free
      requires Good(s.view) && s.view.owners.Keys <= s.taken
      requires cr3 in s.view.spaces && StepOn(s, Now(), cr3) && External() == ExternalIn(s)
      requires Filled(s, Now(), cr3, start, 0, n, writable)
      requires Consistent(s.view.spaces[cr3]) && Grows(s.view.spaces[cr3], spaces[cr3])
      modifies this, pool
      ensures Valid() && cr3 in spaces && RolledBack(s, Now(), cr3)
    {
      hide MemoryOk, Good, Holds, Reowned, FP.FramePool.Valid, FP.FramePool.Free, StepOn, Grows, Filled, RolledBack,
        Range, PageOf, Consistent, Cut, Freed, Trimmed;
      var j := 0;
      while j < n
        invariant 0 <= j <= n
        invariant Valid() && cr3 in spaces && StepOn(s, Now(), cr3) && External() == ExternalIn(s)
        invariant Filled(s, Now(), cr3, start, j, n, writable)
        invariant Grows(s.view.spaces[cr3], spaces[cr3])
      {
        ghost var t, mid := Now(), spaces[cr3];
        ghost var p := PageOf(At(start, j));
        Ownership();
        InUserRange(start, n, j);
        FilledPage(s, t, cr3, start, j, n, writable, j);
        OwnedLeafTaken(cr3, p);
        var f := Unmap(cr3, At(start, j));
        if f.Some? {
          ghost var u := Now();
          CutFacts(t, u, cr3, DropLeaf(mid, p), {f.value});
          UserFreeFrame(f.value);
          UnfilledStep(s, t, u, Now(), cr3, DropLeaf(mid, p), f.value);
          FilledOneLess(s, t, u, Now(), cr3, start, j, n, writable, f.value);
          GrowsDrop(s.view.spaces[cr3], mid, p);
        }
        j := j + 1;
      }
      ghost var t := Now();
      OwnedLeafTaken(cr3, Page(0, 0));
      FilledNone(s, t, cr3, start, n, writable);
      Prune(cr3);
      RolledBackStep(s, t, Now(), cr3);
    }

    lemma OwnedLeafTaken(cr3: nat, p: Page)
      requires Valid() && cr3 in spaces
      ensures Consistent(spaces[cr3])
      ensures p in spaces[cr3].leaf && spaces[cr3].leaf[p].owned ==>
        spaces[cr3].leaf[p].addr in owners && spaces[cr3].leaf[p].addr in pool.taken
      ensures p in spaces[cr3].leaf ==> spaces[cr3].l2.Some?
    {
      hide MemoryOk, Good, Holds, Consistent, FP.FramePool.Valid, FP.FramePool.Free;
      GoodTree(V(), cr3);
      HoldsConsistent(mem, spaces[cr3]);
      if p in spaces[cr3].leaf { LeafEntry(mem, spaces[cr3], p); L1Table(mem, spaces[cr3], p.i); }
    }

    // ------------------------------------------------- making and destroying

    // A fresh address space: the kernel's root table with a private copy of its
    // low table, whose user entry is empty.
    method CloneActive() returns (r: Option<nat>)
      requires Valid()
      modifies this, pool
      ensures Valid()
      ensures r.None? ==> Returned(old(Now()), Now()) && |old(Now().free)| < 2
      ensures r.Some? ==>
        && Created(old(Now()), Now(), r.value)
        && InheritsKernel(mem, kernelRoot, r.value)
    {
      hide MemoryOk, Good, Holds, Reowned, FP.FramePool.Valid, FP.FramePool.Free, Allocated, Freed, Created, Returned,
        InheritsKernel;
      ghost var s := Now();
      Ownership();
      NothingReturned(s);
      var a := UserAllocFrame();
      if a.None? { return None; }
      var root := a.value;
      ghost var t := Now();
      AllocatedFacts(s, t, root);
      var b := UserAllocFrame();
      if b.None? {
        Ownership();
        UserFreeFrame(root);
        ReturnedFrame(s, t, Now(), root);
        return None;
      }
      var low := b.value;
      ghost var u := Now();
      AllocatedFacts(t, u, low);
      TwoFrames(s, t, u, root, low);
      InstallSpace(root, low);
      CreatedStep(s, t, u, Now(), root, low);
      return Some(root);
    }

    // Fill a root and a low table for a new address space.
    method InstallSpace(root: nat, low: nat)
      requires Valid() && root != low && {root, low} <= pool.taken
      requires root !in owners && low !in owners
      modifies this
      ensures Valid() && InheritsKernel(mem, kernelRoot, root)
      ensures root !in old(spaces) && spaces == old(spaces)[root := FreshSpace(root, low)]
      ensures owners.Keys == old(owners).Keys + {root, low}
      ensures old(mem).Keys <= mem.Keys
      ensures forall f :: f in old(mem) && f != root && f != low ==> mem[f] == old(mem)[f]
    {
      hide MemoryOk, Good, Holds, Reowned, FP.FramePool.Valid, FP.FramePool.Free, InheritsKernel;
      ghost var v := V();
      KernelTables();
      var source := mem[kernelRoot].table;
      var lowTable := if source[0].present then mem[source[0].addr].table else ZeroTable();
      lowTable := PrivateLow(lowTable);
      PoolWriteOk(mem, kernelRoot, pool.universe, low, Words(lowTable));
      mem := mem[low := Words(lowTable)];
      var top := Words(source[0 := TableEntry(low)]);
      PoolWriteOk(mem, kernelRoot, pool.universe, root, top);
      mem := mem[root := top];
      Inherited(v.mem, kernelRoot, root, low);
      FreshSpaceHolds(mem, root, low);
      GoodCreate(v, mem, root, low);
      Record(v, root, FreshSpace(root, low));
    }

    // Reclaim the tables and the owned pages of a stopped process. Pages without
    // the owner bit belong to somebody else and are only unmapped.
    method Destroy(cr3: nat, active: nat) returns (r: Option<MemError>)
      requires Valid()
      requires cr3 in spaces || cr3 == 0 || cr3 == kernelRoot || cr3 == active
      modifies this, pool
      ensures Valid()
      ensures r.Some? <==> cr3 == 0 || cr3 == kernelRoot || cr3 == active
      ensures r.Some? ==> Now() == old(Now())
      ensures r.None? ==> Destroyed(old(Now()), Now(), cr3)
    {
      hide MemoryOk, Good, Holds, Reowned, FP.FramePool.Valid, FP.FramePool.Free, Trimmed, Destroyed, Cut, Freed;
      if cr3 == 0 || cr3 == kernelRoot || cr3 == active { return Some(CannotDestroy); }
      ghost var s := Now();
      GoodTree(V(), cr3);
      TopTables(mem, spaces[cr3]);
      TrimmedSame(s, cr3);
      var low := mem[cr3].table[0].addr;
      if mem[low].table[1].present {
        var l2 := mem[low].table[1].addr;
        var i := 0;
        while i < ENTRIES
          invariant 0 <= i <= ENTRIES && Valid() && cr3 in spaces
          invariant spaces[cr3].low == low && spaces[cr3].l2 == Some(l2)
          invariant forall k :: k in spaces[cr3].l1 ==> i <= k
          invariant Trimmed(s, Now(), cr3, spaces[cr3])
        {
          DestroyTable(cr3, l2, i, s);
          i := i + 1;
        }
        NoTablesLeft(cr3);
        ghost var t, mid := Now(), spaces[cr3];
        Ownership();
        OwnedTables(cr3);
        ClearL2(cr3, low);
        ghost var u := Now();
        CutFacts(t, u, cr3, DropL2(mid), {l2});
        UserFreeFrame(l2);
        FreedFacts(u, Now(), l2);
        TrimmedStep(s, t, u, Now(), cr3, mid, DropL2(mid), l2);
      }
      NoL2(cr3);
      ghost var t := Now();
      Ownership();
      RemoveSpace(cr3, low);
      ghost var u := Now();
      UserFreeFrame(low);
      ghost var w := Now();
      FreedFacts(u, w, low);
      UserFreeFrame(cr3);
      DestroyedStep(s, t, u, w, Now(), cr3, low);
      return None;
    }

    // Empty and reclaim the level-1 table at index `i`, if there is one. Each
    // entry is cleared before the frame it names is given back.
    method DestroyTable(cr3: nat, l2: nat, i: nat, ghost s: Sys)
      requires Valid() && cr3 in spaces && i < ENTRIES && spaces[cr3].l2 == Some(l2)
      requires forall k :: k in spaces[cr3].l1 ==> i <= k
      requires Trimmed(s, Now(), cr3, spaces[cr3])
      modifies this, pool
      ensures Valid() && cr3 in spaces
      ensures spaces[cr3].low == old(spaces)[cr3].low && spaces[cr3].l2 == Some(l2)
      ensures forall k :: k in spaces[cr3].l1 ==> i < k
      ensures Trimmed(s, Now(), cr3, spaces[cr3])
    {
      hide MemoryOk, Good, Holds, Reowned, FP.FramePool.Valid, FP.FramePool.Free, Trimmed, Cut, Freed;
      GoodTree(V(), cr3);
      L2Table(mem, spaces[cr3], i);
      if !mem[l2].table[i].present { return; }
      var l1 := mem[l2].table[i].addr;
      var j := 0;
      while j < ENTRIES
        invariant 0 <= j <= ENTRIES && Valid() && cr3 in spaces
        invariant spaces[cr3].low == old(spaces)[cr3].low && spaces[cr3].l2 == Some(l2)
        invariant spaces[cr3].l1 == old(spaces)[cr3].l1
        invariant forall p :: p in spaces[cr3].leaf && p.i == i ==> j <= p.j
        invariant Trimmed(s, Now(), cr3, spaces[cr3])
      {
        DestroyLeaf(cr3, l1, Page(i, j), s);
        j := j + 1;
      }
      LeavesInBounds(cr3);
      ghost var t, mid := Now(), spaces[cr3];
      Ownership();
      OwnedTables(cr3);
      ClearL1(cr3, l2, i);
      ghost var u := Now();
      CutFacts(t, u, cr3, DropL1(mid, i), {l1});
      UserFreeFrame(l1);
      FreedFacts(u, Now(), l1);
      TrimmedStep(s, t, u, Now(), cr3, mid, DropL1(mid, i), l1);
    }

    method DestroyLeaf(cr3: nat, l1: nat, p: Page, ghost s: Sys)
      requires Valid() && cr3 in spaces && p.j < ENTRIES
      requires p.i in spaces[cr3].l1 && l1 == spaces[cr3].l1[p.i]
      requires Trimmed(s, Now(), cr3, spaces[cr3])
      modifies this, pool
      ensures Valid() && cr3 in spaces
      ensures spaces[cr3].low == old(spaces)[cr3].low && spaces[cr3].l2 == old(spaces)[cr3].l2
      ensures spaces[cr3].l1 == old(spaces)[cr3].l1
      ensures spaces[cr3].leaf == old(spaces)[cr3].leaf - {p}
      ensures Trimmed(s, Now(), cr3, spaces[cr3])
    {
      hide MemoryOk, Good, Holds, Reowned, FP.FramePool.Valid, FP.FramePool.Free, Trimmed, Cut, Freed;
      GoodTree(V(), cr3);
      L1Table(mem, spaces[cr3], p.i);
      var e := mem[l1].table[p.j];
      if p in spaces[cr3].leaf { LeafEntry(mem, spaces[cr3], p); }
      assert p !in spaces[cr3].leaf ==> spaces[cr3].leaf - {p} == spaces[cr3].leaf;
      if e == UNUSED { return; }
      ghost var t, mid := Now(), spaces[cr3];
      Ownership();
      OwnedLeafTaken(cr3, p);
      ClearLeaf(cr3, l1, p);
      ghost var u := Now();
      CutFacts(t, u, cr3, DropLeaf(mid, p), OwnedFrame(e));
      if e.present && e.owned {
        UserFreeFrame(e.addr);
        FreedFacts(u, Now(), e.addr);
        TrimmedStep(s, t, u, Now(), cr3, mid, DropLeaf(mid, p), e.addr);
      } else {
        TrimmedCut(s, t, u, cr3, mid, DropLeaf(mid, p));
      }
    }

    // Unhook the low table of a space that has nothing else left.
    method RemoveSpace(cr3: nat, low: nat)
      requires Valid() && cr3 in spaces && spaces[cr3].low == low
      requires spaces[cr3].l2.None?
      modifies this
      ensures Valid() && Removed(old(Now()), Now(), cr3, low)
    {
      hide MemoryOk, Good, Holds, FP.FramePool.Valid, FP.FramePool.Free;
      ghost var v := V();
      GoodTree(v, cr3);
      TopTables(mem, spaces[cr3]);
      TableWriteOk(mem, kernelRoot, pool.universe, cr3, 0, UNUSED);
      mem := Write(mem, cr3, 0, UNUSED);
      GoodRemove(v, mem, cr3);
      spaces, owners := spaces - {cr3}, owners - {cr3, low};
    }

    lemma NoTablesLeft(cr3: nat)
      requires Valid() && cr3 in spaces && forall k :: k in spaces[cr3].l1 ==> ENTRIES <= k
      ensures spaces[cr3].l1 == map[]
    {
      hide MemoryOk, Good, Holds;
      GoodTree(V(), cr3);
      forall k | k in spaces[cr3].l1 ensures false {
        L1Table(mem, spaces[cr3], k);
      }
    }

    lemma LeavesInBounds(cr3: nat)
      requires Valid() && cr3 in spaces
      ensures forall p :: p in spaces[cr3].leaf ==> p.j < ENTRIES
    {
      hide MemoryOk, Good, Holds;
      GoodTree(V(), cr3);
      forall p | p in spaces[cr3].leaf ensures p.j < ENTRIES {
        LeafEntry(mem, spaces[cr3], p);
      }
    }

    lemma OwnedTables(cr3: nat)
      requires Valid() && cr3 in spaces
      ensures spaces[cr3].l2.Some? ==> spaces[cr3].l2.value in owners
      ensures forall i :: i in spaces[cr3].l1 ==> spaces[cr3].l1[i] in owners
    {
      hide MemoryOk, Good, Holds;
      GoodTree(V(), cr3);
      TopTables(mem, spaces[cr3]);
      forall i | i in spaces[cr3].l1 ensures spaces[cr3].l1[i] in owners {
        L1Table(mem, spaces[cr3], i);
      }
    }

    // Ghost bookkeeping of one step.
    ghost method Record(v: View, cr3: nat, sp: Space)
      requires spaces == v.spaces && owners == v.owners
      modifies this`spaces, this`owners
      ensures V() == Next(v, mem, cr3, sp)
    {
      spaces, owners := spaces[cr3 := sp], Reowned(owners, cr3, sp.own.Keys);
    }
  }
}
