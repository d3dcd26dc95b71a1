// Setting up the IOMMU and mapping DMA ranges in place (kernel/src/iommu.rs).
module IommuUnit {
  import opened Wrappers
  import opened Iommu
  import FP = FramePool

  // ------------------------------------------------- root and context entries

  datatype Pair = Pair(lower: nat, upper: nat)

  type PairTable = t: seq<Pair> | |t| == 256 witness seq(256, _ => Pair(0, 0))

  function ZeroPairs(): (t: PairTable)
    ensures forall i :: 0 <= i < 256 ==> t[i] == Pair(0, 0)
  {
    seq(256, _ => Pair(0, 0))
  }

  // The page an address lies on.
  function PageBase(n: nat): (r: nat)
    ensures r <= n
  {
    n - n % 4096
  }

  function LowThreeBits(n: nat): (r: nat)
    ensures r < 8
    ensures n < 8 ==> r == n
  {
    n % 8
  }

  function ContextPointer(table: nat): Pair {
    Pair(PageBase(table) + 1, 0)
  }

  // The domain is a 16-bit number, the width code a byte.
  function SecondLevel(pml4: nat, domain: nat, width: nat): Pair
    requires domain < 0x1_0000 && width < 256
  {
    Pair(PageBase(pml4) + 1, LowThreeBits(width) + domain * 256)
  }

  predicate PairPresent(p: Pair) {
    p.lower % 2 != 0
  }

  function PairAddress(p: Pair): nat {
    PageBase(p.lower)
  }

  function DomainId(p: Pair): nat {
    p.upper / 256 % 0x1_0000
  }

  // The translation type, 0 for second-level only.
  function TypeBits(lower: nat): nat {
    lower / 4 % 4
  }

  function WidthCode(p: Pair): nat {
    LowThreeBits(p.upper)
  }

  // The fields of an entry do not disturb each other.
  lemma PairReadsBack(table: nat, domain: nat, width: nat)
    requires table % 4096 == 0 && domain < 0x1_0000 && width < 256
    ensures PairPresent(ContextPointer(table)) && PairAddress(ContextPointer(table)) == table
    ensures var p := SecondLevel(table, domain, width);
            PairPresent(p) && PairAddress(p) == table && DomainId(p) == domain && WidthCode(p) == LowThreeBits(width)
    ensures TypeBits(SecondLevel(table, domain, width).lower) == 0
  {
    Aligned(table);
    Packed(LowThreeBits(width), domain);
    hide PageBase, LowThreeBits, TypeBits;
    assert SecondLevel(table, domain, width).lower == table + 1 && ContextPointer(table).lower == table + 1;
    assert SecondLevel(table, domain, width).upper == LowThreeBits(width) + domain * 256;
  }

  lemma Aligned(table: nat)
    requires table % 4096 == 0
    ensures PageBase(table) == table && PageBase(table + 1) == table && (table + 1) % 2 != 0
    ensures TypeBits(table + 1) == 0
  {
    var q := table / 4096;
    assert table == 4096 * q;
    assert (table + 1) / 4 == 4 * (256 * q);
  }

  lemma Packed(w: nat, d: nat)
    requires w < 8 && d < 0x1_0000
    ensures (w + d * 256) / 256 % 0x1_0000 == d && LowThreeBits(w + d * 256) == w
  {
    HighPart(w, d);
    LowPart(w, 32 * d);
  }

  lemma HighPart(w: nat, d: nat)
    requires w < 256
    ensures (w + d * 256) / 256 == d
  {
  }

  lemma LowPart(w: nat, e: nat)
    requires w < 8
    ensures (w + e * 8) % 8 == w
  {
  }

  // ------------------------------------------------------------- page numbers

  lemma PageOfTable(x: nat)
    ensures x / 0x20_0000 == x / 4096 / 512
  {
    var q, r := x / 0x20_0000, x % 0x20_0000;
    assert x == 0x20_0000 * q + r;
    assert x / 4096 == 512 * q + r / 4096;
  }

  lemma TableOfDirectory(x: nat)
    ensures x / 0x4000_0000 == x / 0x20_0000 / 512
  {
    var q, r := x / 0x4000_0000, x % 0x4000_0000;
    assert x == 0x4000_0000 * q + r;
    assert x / 0x20_0000 == 512 * q + r / 0x20_0000;
  }

  lemma DirectoryOfTop(x: nat)
    ensures x / 0x80_0000_0000 == x / 0x4000_0000 / 512
  {
    var q, r := x / 0x80_0000_0000, x % 0x80_0000_0000;
    assert x == 0x80_0000_0000 * q + r;
    assert x / 0x4000_0000 == 512 * q + r / 0x4000_0000;
  }

  lemma LowBits(w: nat)
    ensures var u := w % PAGES;
            && u < PAGES
            && w / 512 / 512 / 512 % 512 == u / 512 / 512 / 512
            && w / 512 / 512 % 512 == u / 512 / 512 % 512
            && w / 512 % 512 == u / 512 % 512
            && w % 512 == u % 512
  {
    var q, u := w / PAGES, w % PAGES;
    assert w == PAGES * q + u;
    assert w / 512 == 512 * 512 * 512 * q + u / 512;
    assert w / 512 / 512 == 512 * 512 * q + u / 512 / 512;
    assert w / 512 / 512 / 512 == 512 * q + u / 512 / 512 / 512;
  }

  // The indices cut out of an address are the ones the walk uses, for the page
  // that remains of the address's lowest 48 bits.
  lemma Indices(addr: nat)
    ensures var u := addr / 4096 % PAGES;
            && u < PAGES
            && addr / 0x80_0000_0000 % 512 == u / 512 / 512 / 512
            && addr / 0x4000_0000 % 512 == u / 512 / 512 % 512
            && addr / 0x20_0000 % 512 == u / 512 % 512
            && addr / 4096 % 512 == u % 512
  {
    PageOfTable(addr);
    TableOfDirectory(addr);
    DirectoryOfTop(addr);
    LowBits(addr / 4096);
  }

  // What page `u` translates to, open to reading and writing, after n pages have been mapped from page `base`:
  // the last one mapped with the same lowest 36 bits, or what it did before.
  function Retargeted(base: nat, n: nat, u: nat, before: Option<Access>): Option<Access> {
    if n == 0 then before
    else if (base + n - 1) % PAGES == u then Some(Access((base + n - 1) * 4096, true, true))
    else Retargeted(base, n - 1, u, before)
  }

  // Below 2^48 every page of the range translates to itself and no other changes.
  lemma {:induction false} IdentityBelow48Bits(base: nat, n: nat, u: nat, before: Option<Access>)
    requires base + n <= PAGES && u < PAGES
    ensures Retargeted(base, n, u, before) ==
      if base <= u < base + n then Some(Access(u * 4096, true, true)) else before
  {
    if n > 0 { IdentityBelow48Bits(base, n - 1, u, before); }
  }

  // A device's second-level table and its domain.
  datatype Context = Context(table: nat, domain: nat)

  class Unit {
    const pool: FP.FramePool
    // Second-level tables, and tables of paired entries, by frame.
    var mem: Memory
    var pairs: map<nat, PairTable>
    var pml4: Option<nat>
    var rootTable: Option<nat>
    ghost var tab: map<Key, nat>

    ghost predicate Valid()
      reads this`mem, this`pml4, this`tab, pool
    {
      && pool.Valid() && (forall a :: a in pool.universe ==> a % 4096 == 0)
      && tab.Values <= pool.taken
      && match pml4
         case None => tab == map[]
         case Some(root) => Tree(mem, root, tab)
    }

    // Frames handed out by the pool start on page boundaries.
    constructor (frames: FP.FramePool)
      requires frames.Valid() && forall a :: a in frames.universe ==> a % 4096 == 0
      ensures Valid() && pool == frames && pml4 == None && rootTable == None
    {
      pool := frames;
      mem, pairs, pml4, rootTable, tab := map[], map[], None, None, map[];
    }

    // A frame that no table uses yet.
    method TakeFrame() returns (r: Option<nat>)
      requires Valid()
      modifies pool
      ensures Valid()
      ensures r.None? ==> pool.taken == old(pool.taken) && FP.NoRunLeft(pool.recycled, pool.regions, 1)
      ensures r.Some? ==>
                && r.value % 4096 == 0 && r.value !in old(pool.taken)
                && pool.taken == old(pool.taken) + {r.value}
    {
      hide FP.NoRunLeft, Tree, FP.FramePool.Valid, FP.FramePool.Free;
      pool.Bounds();
      r := pool.Allocate(1);
      if r.Some? {
        assert FP.Extent(r.value, 1) == {r.value + 0 * FP.PAGE_BYTES};
      }
    }

    // The table behind entry i, which is made if it is missing.
    method NextTable(table: nat, i: nat, ghost k: Key) returns (r: Option<nat>)
      requires Valid() && pml4.Some? && k in tab && tab[k] == table && k.level > 1 && i < 512
      modifies this`mem, this`tab, pool
      ensures Valid()
      ensures r.None? ==> tab == old(tab) && FP.NoRunLeft(pool.recycled, pool.regions, 1)
      ensures r.Some? ==> Down(k, i) in tab && tab[Down(k, i)] == r.value
      ensures forall j :: j in old(tab) ==> j in tab && tab[j] == old(tab)[j]
      ensures forall u | 0 <= u < PAGES :: Walk(mem, pml4.value, u) == Walk(old(mem), pml4.value, u)
      ensures forall a :: a in old(mem) && a !in tab.Values ==> a in mem && mem[a] == old(mem)[a]
    {
      hide Walk, Tree, FP.FramePool.Valid, FP.FramePool.Free, FP.NoRunLeft, Entry, Address, Present;
      ghost var root, mem0, tab0 := pml4.value, mem, tab;
      StepIsChild(mem, root, tab, k, i);
      TableInMemory(mem, root, tab, k);
      if Present(mem[table][i]) {
        return Some(Address(mem[table][i]));
      }
      r := TakeFrame();
      if r.None? {
        return;
      }
      var f := r.value;
      mem := mem[f := ZeroTable()];
      mem := mem[table := mem[table][i := Entry(f)]];
      tab := tab[Down(k, i) := f];
      assert mem == Hung(mem0, tab0, k, i, f);
      HangKeepsTree(mem0, root, tab0, k, i, f);
      forall u | 0 <= u < PAGES
        ensures Walk(mem, root, u) == Walk(mem0, root, u)
      {
        HangKeepsWalk(mem0, root, tab0, k, i, f, u);
      }
    }

    // Translates one page to itself, making the tables above it; without a frame
    // for one of them the kernel stops.
    method MapPage(pagePhys: nat) returns (ok: bool)
      requires Valid() && pml4.Some?
      modifies this`mem, this`tab, pool
      ensures Valid()
      ensures !ok ==> FP.NoRunLeft(pool.recycled, pool.regions, 1)
      ensures forall u | 0 <= u < PAGES ::
                Walk(mem, pml4.value, u)
                == if ok && u == pagePhys / 4096 % PAGES then Some(Open(Address(pagePhys)))
                   else Walk(old(mem), pml4.value, u)
      ensures forall j :: j in old(tab) ==> j in tab && tab[j] == old(tab)[j]
      ensures forall a :: a in old(mem) && a !in tab.Values ==> a in mem && mem[a] == old(mem)[a]
    {
      hide Walk, Tree, FP.FramePool.Valid, FP.FramePool.Free, FP.NoRunLeft, Entry, Address, Present, LastTable;
      ghost var u0 := pagePhys / 4096 % PAGES;
      Indices(pagePhys);
      var pml4Idx, pdptIdx := pagePhys / 0x80_0000_0000 % 512, pagePhys / 0x4000_0000 % 512;
      var pdIdx, ptIdx := pagePhys / 0x20_0000 % 512, pagePhys / 4096 % 512;
      RootIsTop(mem, pml4.value, tab);
      var pdpt := NextTable(pml4.value, pml4Idx, TOP);
      if pdpt.None? { return false; }
      ghost var k3 := Down(TOP, pml4Idx);
      var pd := NextTable(pdpt.value, pdptIdx, k3);
      if pd.None? { return false; }
      ghost var k2 := Down(k3, pdptIdx);
      var pt := NextTable(pd.value, pdIdx, k2);
      if pt.None? { return false; }
      LastTableIs(u0);
      ghost var mem1 := mem;
      TableInMemory(mem, pml4.value, tab, LastTable(u0));
      mem := mem[pt.value := mem[pt.value][ptIdx := Entry(pagePhys)]];
      LeafWritten(mem1, pml4.value, tab, u0, pagePhys);
      return true;
    }

    // Translates every page of the range, in order; nothing before the table is
    // set up. Earlier tables stay and none is shared (Valid).
    method MapDmaRange(phys: nat, pages: nat) returns (ok: bool)
      requires Valid()
      modifies this`mem, this`tab, pool
      ensures Valid()
      ensures pml4.None? ==> ok && mem == old(mem) && pool.taken == old(pool.taken)
      ensures !ok ==> FP.NoRunLeft(pool.recycled, pool.regions, 1)
      ensures pml4.Some? && ok ==>
                forall u | 0 <= u < PAGES ::
                  Walk(mem, pml4.value, u) == Retargeted(phys / 4096, pages, u, Walk(old(mem), pml4.value, u))
      ensures forall j :: j in old(tab) ==> j in tab && tab[j] == old(tab)[j]
      ensures forall a :: a in old(mem) && a !in tab.Values ==> a in mem && mem[a] == old(mem)[a]
    {
      hide Walk, Tree, Valid, FP.FramePool.Valid, FP.FramePool.Free, FP.NoRunLeft;
      if pml4.None? { return true; }
      for i := 0 to pages
        invariant Valid()
        invariant forall u | 0 <= u < PAGES ::
          Walk(mem, pml4.value, u) == Retargeted(phys / 4096, i, u, Walk(old(mem), pml4.value, u))
        invariant forall j :: j in old(tab) ==> j in tab && tab[j] == old(tab)[j]
        invariant forall a :: a in old(mem) && a !in tab.Values ==> a in mem && mem[a] == old(mem)[a]
      {
        NextPage(phys, i);
        ghost var tab1 := tab;
        var mapped := MapPage(phys + i * 4096);
        StillOutside(tab1, tab);
        if !mapped { return false; }
      }
      return true;
    }

    // A DMA buffer below 2^48: the device reaches each of its pages at the page's
    // own address, keeps every earlier translation and gains no other.
    method MapDmaBuffer(phys: nat, pages: nat) returns (ok: bool)
      requires Valid() && pml4.Some? && phys / 4096 + pages <= PAGES
      modifies this`mem, this`tab, pool
      ensures Valid()
      ensures ok ==>
                forall u | 0 <= u < PAGES ::
                  Walk(mem, pml4.value, u)
                  == if phys / 4096 <= u < phys / 4096 + pages then Some(Access(u * 4096, true, true))
                     else Walk(old(mem), pml4.value, u)
    {
      ok := MapDmaRange(phys, pages);
      hide Walk, Valid;
      forall u | 0 <= u < PAGES
        ensures Retargeted(phys / 4096, pages, u, Walk(old(mem), pml4.value, u))
             == if phys / 4096 <= u < phys / 4096 + pages then Some(Access(u * 4096, true, true))
                else Walk(old(mem), pml4.value, u)
      {
        IdentityBelow48Bits(phys / 4096, pages, u, Walk(old(mem), pml4.value, u));
      }
    }

    // Which second-level table and domain the device at `index` of a bus is given.
    function DeviceContext(bus: nat, index: nat): Option<Context>
      requires bus < 256 && index < 256
      reads this`rootTable, this`pairs
    {
      if rootTable.None? then None else ContextOf(pairs, rootTable.value, bus, index)
    }

    // How that device sees page `u`.
    function DeviceSees(bus: nat, index: nat, u: nat): Option<Access>
      requires bus < 256 && index < 256 && u < PAGES
      reads this
    {
      if DeviceContext(bus, index).None? then None else Walk(mem, DeviceContext(bus, index).value.table, u)
    }

    // One device has a second-level table, the one that DMA ranges are mapped in, and
    // is in domain 1.
    ghost predicate OnlyNic()
      reads this`rootTable, this`pairs, this`pml4
    {
      forall bus, index | 0 <= bus < 256 && 0 <= index < 256 ::
        DeviceContext(bus, index) ==
          if bus == 0 && index == 16 && pml4.Some? then Some(Context(pml4.value, 1)) else None
    }

    // An empty second-level table.
    method BuildSecondLevel() returns (top: Option<nat>)
      requires Valid() && pml4.None?
      modifies this`mem, this`tab, this`pml4, pool
      ensures Valid() && pml4 == top
      ensures top.None? ==> FP.NoRunLeft(pool.recycled, pool.regions, 1)
      ensures top.Some? ==> top.value % 4096 == 0 && forall u | 0 <= u < PAGES :: Walk(mem, top.value, u) == None
    {
      hide Walk, Tree, FP.FramePool.Valid, FP.NoRunLeft;
      top := TakeFrame();
      if top.Some? {
        mem := mem[top.value := ZeroTable()];
        tab := map[TOP := top.value];
        pml4 := top;
        FreshTree(mem, top.value);
      }
    }

    // Root table, context table of bus 0, and an empty second-level table for the
    // device at bus 0, device 2, function 0. Frames taken before one is missing
    // are not given back.
    method BuildTables() returns (ok: bool)
      requires Valid() && pml4.None? && rootTable.None?
      modifies this, pool
      ensures Valid()
      ensures !ok ==> rootTable.None? && pml4.None? && FP.NoRunLeft(pool.recycled, pool.regions, 1)
      ensures ok ==> rootTable.Some? && pml4.Some? && OnlyNic()
      ensures ok ==> forall u | 0 <= u < PAGES :: Walk(mem, pml4.value, u) == None
    {
      hide Walk, Tree, ContextOf, ZeroPairs, ContextPointer, SecondLevel, FP.FramePool.Valid, FP.NoRunLeft, Valid;
      var root := TakeFrame();
      if root.None? { return false; }
      pairs := pairs[root.value := ZeroPairs()];
      var context := TakeFrame();
      if context.None? { return false; }
      pairs := pairs[context.value := ZeroPairs()];
      pairs := pairs[root.value := pairs[root.value][0 := ContextPointer(context.value)]];
      var top := BuildSecondLevel();
      if top.None? { return false; }
      var deviceSlot, func := 2, 0;
      var index := deviceSlot * 8 + func;
      pairs := pairs[context.value := pairs[context.value][index := SecondLevel(top.value, 1, 2)]];
      rootTable := root;
      OneContext(pairs, root.value, context.value, top.value);
      return true;
    }

    // All other devices are denied every page at all times.
    method MapForNic(phys: nat, pages: nat) returns (ok: bool)
      requires Valid() && pml4.Some? && OnlyNic() && phys / 4096 + pages <= PAGES
      modifies this`mem, this`tab, pool
      ensures Valid() && OnlyNic()
      ensures ok ==>
                forall bus, index, u | 0 <= bus < 256 && 0 <= index < 256 && 0 <= u < PAGES ::
                  DeviceSees(bus, index, u)
                  == if bus == 0 && index == 16 && phys / 4096 <= u < phys / 4096 + pages
                     then Some(Access(u * 4096, true, true))
                     else old(DeviceSees(bus, index, u))
    {
      hide Walk, Tree, ContextOf, Valid;
      ok := MapDmaBuffer(phys, pages);
    }
  }

  // What the hardware finds for a device: nothing unless both entries are present
  // and the second asks for second-level translation of 48-bit addresses.
  function ContextOf(pairs: map<nat, PairTable>, root: nat, bus: nat, index: nat): Option<Context>
    requires bus < 256 && index < 256
  {
    if root !in pairs || !PairPresent(pairs[root][bus]) then None
    else
      var context := PairAddress(pairs[root][bus]);
      if context !in pairs || !PairPresent(pairs[context][index]) then None
      else
        var p := pairs[context][index];
        if TypeBits(p.lower) != 0 || WidthCode(p) != 2 then None else Some(Context(PairAddress(p), DomainId(p)))
  }

  lemma OneContext(pairs: map<nat, PairTable>, root: nat, context: nat, top: nat)
    requires root in pairs && context in pairs && root != context && context % 4096 == 0 && top % 4096 == 0
    requires pairs[root] == ZeroPairs()[0 := ContextPointer(context)]
    requires pairs[context] == ZeroPairs()[16 := SecondLevel(top, 1, 2)]
    ensures forall bus, index | 0 <= bus < 256 && 0 <= index < 256 ::
              ContextOf(pairs, root, bus, index) == if bus == 0 && index == 16 then Some(Context(top, 1)) else None
  {
    forall bus, index | 0 <= bus < 256 && 0 <= index < 256
      ensures ContextOf(pairs, root, bus, index) == if bus == 0 && index == 16 then Some(Context(top, 1)) else None
    {
      OneContextAt(pairs, root, context, top, bus, index);
    }
  }

  lemma OneContextAt(pairs: map<nat, PairTable>, root: nat, context: nat, top: nat, bus: nat, index: nat)
    requires root in pairs && context in pairs && root != context && context % 4096 == 0 && top % 4096 == 0
    requires pairs[root] == ZeroPairs()[0 := ContextPointer(context)]
    requires pairs[context] == ZeroPairs()[16 := SecondLevel(top, 1, 2)]
    requires bus < 256 && index < 256
    ensures ContextOf(pairs, root, bus, index) == if bus == 0 && index == 16 then Some(Context(top, 1)) else None
  {
    PairReadsBack(context, 1, 2);
    PairReadsBack(top, 1, 2);
    assert !PairPresent(Pair(0, 0));
    assert pairs[root][bus] == if bus == 0 then ContextPointer(context) else Pair(0, 0);
    assert pairs[context][index] == if index == 16 then SecondLevel(top, 1, 2) else Pair(0, 0);
    hide ContextPointer, SecondLevel, PairAddress, PairPresent, ZeroPairs, PageBase;
  }

  lemma TableInMemory(mem: Memory, root: nat, tab: map<Key, nat>, k: Key)
    requires Tree(mem, root, tab) && k in tab
    ensures tab[k] in mem
  {
    assert Sits(mem, tab, k);
  }

  lemma RootIsTop(mem: Memory, root: nat, tab: map<Key, nat>)
    requires Tree(mem, root, tab)
    ensures TOP in tab && tab[TOP] == root
  {
  }

  lemma LastTableIs(u: nat)
    requires u < PAGES
    ensures Down(Down(Down(TOP, u / 512 / 512 / 512), u / 512 / 512 % 512), u / 512 % 512) == LastTable(u)
  {
  }

  lemma LeafWritten(mem: Memory, root: nat, tab: map<Key, nat>, u: nat, page: nat)
    requires Tree(mem, root, tab) && u < PAGES && LastTable(u) in tab
    ensures tab[LastTable(u)] in mem && Tree(LeafSet(mem, tab[LastTable(u)], u % 512, page), root, tab)
    ensures forall v | 0 <= v < PAGES ::
              Walk(LeafSet(mem, tab[LastTable(u)], u % 512, page), root, v)
              == if v == u then Some(Open(Address(page))) else Walk(mem, root, v)
  {
    LeafSetWalk(mem, root, tab, u, page, u);
    forall v | 0 <= v < PAGES
      ensures Walk(LeafSet(mem, tab[LastTable(u)], u % 512, page), root, v)
           == if v == u then Some(Open(Address(page))) else Walk(mem, root, v)
    {
      LeafSetWalk(mem, root, tab, u, page, v);
    }
  }

  lemma NextPage(phys: nat, i: nat)
    ensures (phys + i * 4096) / 4096 == phys / 4096 + i
    ensures Address(phys + i * 4096) == (phys / 4096 + i) * 4096
  {
  }

  lemma StillOutside(tab: map<Key, nat>, more: map<Key, nat>)
    requires forall j :: j in tab ==> j in more && more[j] == tab[j]
    ensures tab.Values <= more.Values
  {
  }

  // An empty root translates nothing.
  lemma FreshTree(mem: Memory, root: nat)
    requires root in mem && mem[root] == ZeroTable() && root % 4096 == 0
    ensures Tree(mem, root, map[TOP := root])
    ensures forall u | 0 <= u < PAGES :: Walk(mem, root, u) == None
  {
    forall u | 0 <= u < PAGES
      ensures Walk(mem, root, u) == None
    {
      WalkIsLeaf(mem, root, map[TOP := root], u);
    }
  }
}
