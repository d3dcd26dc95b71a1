// The private half of a process address space as a tree of frames, and the small
// steps by which kernel/src/memory.rs changes it.
//
// Physical memory maps a frame to its content. Only the 1..2 GiB subtree below
// entry 1 of the low table is private to a process, so a private page is named
// by its level-2 and level-1 index.
module AddressSpace {
  import opened Bytes
  import opened Wrappers

  const ENTRIES: nat := 512
  const PAGE: nat := 4096

  // A page-table entry. `owned` is the software bit BIT_9.
  datatype Pte = Pte(addr: nat, present: bool, writable: bool, user: bool, noExec: bool, huge: bool, owned: bool)

  const UNUSED: Pte := Pte(0, false, false, false, false, false, false)

  type Table = t: seq<Pte> | |t| == 512 witness seq(512, _ => UNUSED)

  function ZeroTable(): Table { seq(512, _ => UNUSED) }

  function ZeroPage(): PageBytes { seq(4096, _ => 0) }

  type PageBytes = s: seq<byte> | |s| == 4096 witness seq(4096, _ => 0)

  datatype Content = Words(table: Table) | Bytes(bytes: PageBytes)

  type Memory = map<nat, Content>

  datatype Page = Page(i: nat, j: nat)

  // What a frame is used for inside one address space.
  datatype Role = Root | Low | L2 | L1(i: nat) | Leaf(page: Page)

  // The tree: the tables by position, the leaf entries by page, and the frames
  // that the address space owns with the one role each of them plays.
  datatype Space = Space(
    root: nat,
    low: nat,
    l2: Option<nat>,
    l1: map<nat, nat>,
    leaf: map<Page, Pte>,
    own: map<nat, Role>)

  // ------------------------------------------------------------- ownership

  ghost predicate Plays(sp: Space, f: nat, role: Role) {
    match role
    case Root => f == sp.root
    case Low => f == sp.low
    case L2 => sp.l2 == Some(f)
    case L1(i) => i in sp.l1 && sp.l1[i] == f
    case Leaf(p) => p in sp.leaf && sp.leaf[p].owned && sp.leaf[p].addr == f
  }

  ghost predicate Has(sp: Space, f: nat, role: Role) {
    f in sp.own && sp.own[f] == role
  }

  // Every table and every owned page is an owned frame with its own role (so no
  // two of them share a frame), and nothing else is owned.
  ghost predicate Consistent(sp: Space) {
    && Has(sp, sp.root, Root)
    && Has(sp, sp.low, Low)
    && (sp.l2.Some? ==> Has(sp, sp.l2.value, L2))
    && (sp.l2.None? ==> sp.l1 == map[])
    && (forall i :: i in sp.l1 ==> i < ENTRIES && Has(sp, sp.l1[i], L1(i)))
    && (forall p :: p in sp.leaf ==> p.i in sp.l1 && p.j < ENTRIES && sp.leaf[p].present)
    && (forall p :: p in sp.leaf && sp.leaf[p].owned ==> Has(sp, sp.leaf[p].addr, Leaf(p)))
    && (forall f :: f in sp.own ==> Plays(sp, f, sp.own[f]))
  }

  // --------------------------------------------------------- representation

  ghost predicate TableAt(m: Memory, f: nat) {
    f in m && m[f].Words?
  }

  // The entry leads to the table `f` and takes no right away on the way.
  ghost predicate Links(e: Pte, f: nat) {
    e.present && !e.huge && e.addr == f && e.user && e.writable && !e.noExec
  }

  ghost predicate LowRow(m: Memory, sp: Space) {
    && TableAt(m, sp.low)
    && if sp.l2.None? then m[sp.low].table[1] == UNUSED else Links(m[sp.low].table[1], sp.l2.value)
  }

  ghost predicate L2Row(m: Memory, sp: Space) {
    sp.l2.Some? ==>
      && TableAt(m, sp.l2.value)
      && forall i :: 0 <= i < ENTRIES ==>
           if i in sp.l1 then Links(m[sp.l2.value].table[i], sp.l1[i])
           else m[sp.l2.value].table[i] == UNUSED
  }

  ghost function LeafOr(sp: Space, p: Page): Pte {
    if p in sp.leaf then sp.leaf[p] else UNUSED
  }

  ghost predicate L1Row(m: Memory, sp: Space, i: nat)
    requires i in sp.l1
  {
    && TableAt(m, sp.l1[i])
    && forall j :: 0 <= j < ENTRIES ==> m[sp.l1[i]].table[j] == LeafOr(sp, Page(i, j))
  }

  ghost predicate OwnedPages(m: Memory, sp: Space) {
    forall p :: p in sp.leaf && sp.leaf[p].owned ==>
      sp.leaf[p].addr in m && m[sp.leaf[p].addr].Bytes?
  }

  // The page tables in memory are exactly the tree.
  ghost predicate Represents(m: Memory, sp: Space) {
    && TableAt(m, sp.root) && Links(m[sp.root].table[0], sp.low)
    && LowRow(m, sp)
    && L2Row(m, sp)
    && (forall i :: i in sp.l1 ==> L1Row(m, sp, i))
    && OwnedPages(m, sp)
  }

  // The tree rooted at `root` is `sp` and memory holds it.
  ghost predicate Holds(m: Memory, root: nat, sp: Space) {
    match sp
    case Space(r, _, _, _, _, _) => r == root && Consistent(sp) && Represents(m, sp)
  }

  lemma RootOf(m: Memory, root: nat, sp: Space)
    requires Holds(m, root, sp)
    ensures sp.root == root
  {
  }

  // The entries above the level-2 table.
  lemma TopTables(m: Memory, sp: Space)
    requires Holds(m, sp.root, sp)
    ensures TableAt(m, sp.root) && Links(m[sp.root].table[0], sp.low) && sp.root in sp.own
    ensures TableAt(m, sp.low) && sp.low in sp.own
    ensures if sp.l2.None? then m[sp.low].table[1] == UNUSED
            else Links(m[sp.low].table[1], sp.l2.value) && sp.l2.value in sp.own
  {
  }

  lemma NoL2NoL1(m: Memory, sp: Space)
    requires Holds(m, sp.root, sp) && sp.l2.None?
    ensures sp.l1 == map[] && sp.leaf == map[]
  {
    assert sp.leaf.Keys == {};
  }

  // One entry of the level-2 table.
  lemma L2Table(m: Memory, sp: Space, i: nat)
    requires Holds(m, sp.root, sp) && sp.l2.Some? && i < ENTRIES
    ensures TableAt(m, sp.l2.value) && sp.l2.value in sp.own
    ensures if i in sp.l1 then Links(m[sp.l2.value].table[i], sp.l1[i])
            else m[sp.l2.value].table[i] == UNUSED
  {
  }

  // A level-1 table holds the leaves of its pages.
  lemma L1Table(m: Memory, sp: Space, i: nat)
    requires Holds(m, sp.root, sp) && i in sp.l1
    ensures sp.l2.Some? && i < ENTRIES && TableAt(m, sp.l1[i]) && sp.l1[i] in sp.own
    ensures forall j :: 0 <= j < ENTRIES ==> m[sp.l1[i]].table[j] == LeafOr(sp, Page(i, j))
  {
    assert L1Row(m, sp, i) && Has(sp, sp.l1[i], L1(i));
  }

  // Facts about one leaf.
  lemma LeafEntry(m: Memory, sp: Space, p: Page)
    requires Holds(m, sp.root, sp) && p in sp.leaf
    ensures p.i in sp.l1 && p.j < ENTRIES && sp.leaf[p].present && sp.leaf[p] != UNUSED
    ensures sp.leaf[p].owned ==>
      sp.leaf[p].addr in sp.own && sp.leaf[p].addr in m && m[sp.leaf[p].addr].Bytes?
  {
  }

  lemma LeafHasTable(m: Memory, sp: Space)
    requires Holds(m, sp.root, sp)
    ensures forall p :: p in sp.leaf ==> p.i in sp.l1
  {
  }

  // The tree of a new address space.
  ghost function FreshSpace(root: nat, low: nat): Space {
    Space(root, low, None, map[], map[], map[root := Root, low := Low])
  }

  lemma FreshSpaceHolds(m: Memory, root: nat, low: nat)
    requires root != low && TableAt(m, root) && TableAt(m, low)
    requires Links(m[root].table[0], low) && m[low].table[1] == UNUSED
    ensures Holds(m, root, FreshSpace(root, low))
  {
  }

  lemma RootOwned(m: Memory, sp: Space)
    requires Holds(m, sp.root, sp)
    ensures sp.root in sp.own && sp.low in sp.own
  {
  }

  // A space without a level-2 table owns its root and its low table only.
  lemma OnlyTopFrames(m: Memory, sp: Space)
    requires Holds(m, sp.root, sp) && sp.l2.None?
    ensures sp.own.Keys == {sp.root, sp.low} && sp.root != sp.low
  {
    NoL2NoL1(m, sp);
    forall f | f in sp.own ensures f == sp.root || f == sp.low {
      assert Plays(sp, f, sp.own[f]);
    }
  }

  // ------------------------------------------------------- one frame, one role

  lemma TopRoles(sp: Space)
    requires Consistent(sp)
    ensures Has(sp, sp.root, Root) && Has(sp, sp.low, Low)
    ensures sp.l2.Some? ==> Has(sp, sp.l2.value, L2)
  {
  }

  lemma L1Role(sp: Space, i: nat)
    requires Consistent(sp) && i in sp.l1
    ensures i < ENTRIES && sp.l2.Some? && Has(sp, sp.l1[i], L1(i))
  {
  }

  // A level-1 table that was not written, with the same leaves.
  lemma RowKept(m: Memory, m': Memory, sp: Space, sp': Space, i: nat)
    requires i in sp.l1 && i in sp'.l1 && sp'.l1[i] == sp.l1[i] && L1Row(m, sp, i)
    requires sp.l1[i] in m' && m'[sp.l1[i]] == m[sp.l1[i]]
    requires forall j :: 0 <= j < ENTRIES ==> LeafOr(sp', Page(i, j)) == LeafOr(sp, Page(i, j))
    ensures L1Row(m', sp', i)
  {
  }

  lemma LeafRole(sp: Space, p: Page)
    requires Consistent(sp) && p in sp.leaf
    ensures p.i in sp.l1 && p.j < ENTRIES && sp.leaf[p].present
    ensures sp.leaf[p].owned ==> Has(sp, sp.leaf[p].addr, Leaf(p))
  {
  }

  lemma OwnPlays(sp: Space, f: nat)
    requires Consistent(sp) && f in sp.own
    ensures Plays(sp, f, sp.own[f])
  {
  }

  lemma ConsistentParts(sp: Space)
    requires Has(sp, sp.root, Root) && Has(sp, sp.low, Low) && sp.l2.Some? && Has(sp, sp.l2.value, L2)
    requires forall i :: i in sp.l1 ==> i < ENTRIES && Has(sp, sp.l1[i], L1(i))
    requires forall p :: p in sp.leaf ==> p.i in sp.l1 && p.j < ENTRIES && sp.leaf[p].present
    requires forall p :: p in sp.leaf && sp.leaf[p].owned ==> Has(sp, sp.leaf[p].addr, Leaf(p))
    requires forall f :: f in sp.own ==> Plays(sp, f, sp.own[f])
    ensures Consistent(sp)
  {
    hide Has, Plays;
  }

  // Writing one frame leaves the tables that play another role than it does.
  lemma OtherTop(m: Memory, m': Memory, sp: Space, w: nat, role: Role)
    requires Consistent(sp) && Represents(m, sp) && Has(sp, w, role)
    requires forall f :: f in m && f != w ==> f in m' && m'[f] == m[f]
    ensures role != Root ==> TableAt(m', sp.root) && Links(m'[sp.root].table[0], sp.low)
    ensures role != Low ==> LowRow(m', sp)
    ensures role != L2 ==> L2Row(m', sp)
  {
    TopRoles(sp);
    hide Consistent, L1Row, OwnedPages;
  }

  lemma OtherRow(m: Memory, m': Memory, sp: Space, w: nat, role: Role, i: nat)
    requires Consistent(sp) && Represents(m, sp) && Has(sp, w, role)
    requires forall f :: f in m && f != w ==> f in m' && m'[f] == m[f]
    requires i in sp.l1 && role != L1(i)
    ensures L1Row(m', sp, i)
  {
    L1Role(sp, i);
    assert L1Row(m, sp, i);
    hide Consistent, Represents, LeafOr;
    RowKept(m, m', sp, sp, i);
  }

  lemma OtherRows(m: Memory, m': Memory, sp: Space, w: nat, role: Role)
    requires Consistent(sp) && Represents(m, sp) && Has(sp, w, role)
    requires forall f :: f in m && f != w ==> f in m' && m'[f] == m[f]
    ensures forall i :: i in sp.l1 && role != L1(i) ==> L1Row(m', sp, i)
  {
    hide *;
    forall i | i in sp.l1 && role != L1(i) ensures L1Row(m', sp, i) {
      OtherRow(m, m', sp, w, role, i);
    }
  }

  // Writing a table entry touches no page.
  lemma PagesStay(m: Memory, sp: Space, w: nat, k: nat, e: Pte)
    requires OwnedPages(m, sp) && TableAt(m, w) && k < ENTRIES
    ensures OwnedPages(Write(m, w, k, e), sp)
  {
  }

  lemma RepresentsParts(m: Memory, sp: Space)
    requires TableAt(m, sp.root) && Links(m[sp.root].table[0], sp.low) && LowRow(m, sp) && L2Row(m, sp)
    requires (forall i :: i in sp.l1 ==> L1Row(m, sp, i)) && OwnedPages(m, sp)
    ensures Represents(m, sp)
  {
    hide LowRow, L2Row, L1Row, OwnedPages, TableAt, Links;
  }

  // Writing bytes into an owned page leaves the tree as it is.
  lemma PageWriteHolds(m: Memory, sp: Space, p: Page, b: PageBytes)
    requires Holds(m, sp.root, sp) && p in sp.leaf && sp.leaf[p].owned
    ensures Holds(m[sp.leaf[p].addr := Bytes(b)], sp.root, sp)
  {
    var f := sp.leaf[p].addr;
    var m' := m[f := Bytes(b)];
    assert Has(sp, f, Leaf(p));
    assert OwnedPages(m', sp) by { hide Consistent, L1Row, L2Row, LowRow; }
    OtherTop(m, m', sp, f, Leaf(p));
    OtherRows(m, m', sp, f, Leaf(p));
    hide LowRow, L2Row, L1Row, OwnedPages, TableAt, Links, Consistent, Represents, Has;
    RepresentsParts(m', sp);
  }

  // The entry that links a fresh table.
  function TableEntry(f: nat): Pte {
    Pte(f, true, true, true, false, false, false)
  }

  // A frame that the hardware reaches, and what all entries on the way to it grant:
  // access from user mode, writing, and fetching instructions.
  datatype Access = Access(frame: nat, user: bool, writable: bool, executable: bool)

  // One entry on the way; only the last one may be a leaf.
  function Through(e: Pte, a: Option<Access>): Option<Access> {
    if !e.present || a.None? then None
    else Some(Access(a.value.frame, a.value.user && e.user, a.value.writable && e.writable,
                     a.value.executable && !e.noExec))
  }

  // What the hardware does: follow present, non-huge entries down four levels.
  ghost function Walk(m: Memory, root: nat, p: Page): Option<Access>
    requires p.i < ENTRIES && p.j < ENTRIES
  {
    if !TableAt(m, root) then None
    else
      var e4 := m[root].table[0];
      if e4.huge || !TableAt(m, e4.addr) then None
      else
        var e3 := m[e4.addr].table[1];
        if e3.huge || !TableAt(m, e3.addr) then None
        else
          var e2 := m[e3.addr].table[p.i];
          if e2.huge || !TableAt(m, e2.addr) then None
          else
            var e1 := m[e2.addr].table[p.j];
            Through(e4, Through(e3, Through(e2, Through(e1, Some(Access(e1.addr, true, true, true))))))
  }

  // What a leaf entry grants.
  function Grants(e: Pte): Access {
    Access(e.addr, e.user, e.writable, !e.noExec)
  }

  // The hardware sees exactly the leaves of the tree, with the rights of the leaf.
  lemma WalkIsLeaf(m: Memory, sp: Space, p: Page)
    requires Consistent(sp) && Represents(m, sp) && p.i < ENTRIES && p.j < ENTRIES
    ensures Walk(m, sp.root, p) == if p in sp.leaf then Some(Grants(sp.leaf[p])) else None
  {
    if sp.l2.Some? && p.i in sp.l1 {
      assert L1Row(m, sp, p.i);
      assert m[sp.l1[p.i]].table[p.j] == LeafOr(sp, p);
    }
  }

  // Two owned pages never share a frame.
  lemma OwnedPagesAreDistinct(sp: Space, p: Page, q: Page)
    requires Consistent(sp) && p in sp.leaf && q in sp.leaf && p != q
    requires sp.leaf[p].owned && sp.leaf[q].owned
    ensures sp.leaf[p].addr != sp.leaf[q].addr
  {
    assert Has(sp, sp.leaf[p].addr, Leaf(p)) && Has(sp, sp.leaf[q].addr, Leaf(q));
  }

  // A tree depends on its own frames only.
  lemma RepresentsDependsOnOwn(m: Memory, m': Memory, sp: Space)
    requires Holds(m, sp.root, sp)
    requires forall f :: f in sp.own && f in m ==> f in m' && m'[f] == m[f]
    ensures Holds(m', sp.root, sp)
  {
    assert Has(sp, sp.root, Root) && Has(sp, sp.low, Low);
    forall i | i in sp.l1 ensures L1Row(m', sp, i) {
      assert L1Row(m, sp, i) && Has(sp, sp.l1[i], L1(i));
    }
    forall p | p in sp.leaf && sp.leaf[p].owned
      ensures sp.leaf[p].addr in m' && m'[sp.leaf[p].addr].Bytes?
    {
      assert Has(sp, sp.leaf[p].addr, Leaf(p));
    }
  }

  // -------------------------------------------------------------- tree steps

  ghost function AddL2(sp: Space, f: nat): Space {
    sp.(l2 := Some(f), own := sp.own[f := L2])
  }

  ghost function AddL1(sp: Space, i: nat, f: nat): Space {
    sp.(l1 := sp.l1[i := f], own := sp.own[f := L1(i)])
  }

  ghost function AddLeaf(sp: Space, p: Page, e: Pte): Space {
    sp.(leaf := sp.leaf[p := e], own := if e.owned then sp.own[e.addr := Leaf(p)] else sp.own)
  }

  ghost function DropLeaf(sp: Space, p: Page): Space
    requires p in sp.leaf
  {
    sp.(leaf := sp.leaf - {p}, own := if sp.leaf[p].owned then sp.own - {sp.leaf[p].addr} else sp.own)
  }

  ghost function DropL1(sp: Space, i: nat): Space
    requires i in sp.l1
  {
    sp.(l1 := sp.l1 - {i}, own := sp.own - {sp.l1[i]})
  }

  ghost function DropL2(sp: Space): Space
    requires sp.l2.Some?
  {
    sp.(l2 := None, own := sp.own - {sp.l2.value})
  }

  // Memory after one table entry has been written.
  function Write(m: Memory, f: nat, k: nat, e: Pte): Memory
    requires f in m && m[f].Words? && k < ENTRIES
  {
    m[f := Words(m[f].table[k := e])]
  }

  lemma AddedFrames(sp: Space, i: nat, f: nat)
    ensures AddL1(sp, i, f).own.Keys == sp.own.Keys + {f}
    ensures AddL2(sp, f).own.Keys == sp.own.Keys + {f}
  {
  }

  lemma AddL2Represents(m: Memory, sp: Space, f: nat, e: Pte)
    requires Consistent(sp) && Represents(m, sp)
    requires sp.l2.None? && f !in sp.own && Links(e, f)
    ensures var sp' := AddL2(sp, f);
            Consistent(sp') && Represents(Write(m[f := Words(ZeroTable())], sp.low, 1, e), sp')
  {
    assert Has(sp, sp.root, Root) && Has(sp, sp.low, Low);
    var sp' := AddL2(sp, f);
    var m' := Write(m[f := Words(ZeroTable())], sp.low, 1, e);
    forall g | g in sp'.own ensures Plays(sp', g, sp'.own[g]) {
      if g != f { assert Plays(sp, g, sp.own[g]); }
    }
    assert sp.leaf.Keys == {};
    assert OwnedPages(m', sp');
  }

  lemma AddL1Consistent(sp: Space, i: nat, f: nat)
    requires Consistent(sp) && sp.l2.Some? && i < ENTRIES && i !in sp.l1 && f !in sp.own
    ensures Consistent(AddL1(sp, i, f))
  {
    hide Consistent;
    var sp' := AddL1(sp, i, f);
    TopRoles(sp);
    forall k | k in sp'.l1 ensures k < ENTRIES && Has(sp', sp'.l1[k], L1(k)) {
      if k != i { L1Role(sp, k); }
    }
    forall p | p in sp'.leaf
      ensures p.i in sp'.l1 && p.j < ENTRIES && sp'.leaf[p].present
      ensures sp'.leaf[p].owned ==> Has(sp', sp'.leaf[p].addr, Leaf(p))
    {
      LeafRole(sp, p);
    }
    forall g | g in sp'.own ensures Plays(sp', g, sp'.own[g]) {
      if g != f { OwnPlays(sp, g); }
    }
    ConsistentParts(sp');
  }

  // The level-2 row after its entry `i` has been set.
  lemma L2RowAdded(m: Memory, sp: Space, i: nat, f: nat, e: Pte)
    requires L2Row(m, sp) && sp.l2.Some? && i < ENTRIES && Links(e, f)
    ensures L2Row(Write(m, sp.l2.value, i, e), AddL1(sp, i, f))
  {
  }

  // A zeroed table holds no page.
  lemma RowAdded(m: Memory, sp: Space, i: nat, f: nat)
    requires Consistent(sp) && i !in sp.l1 && f in m && m[f] == Words(ZeroTable())
    ensures L1Row(m, AddL1(sp, i, f), i)
  {
    assert forall j :: Page(i, j) !in sp.leaf;
    hide Consistent;
  }

  lemma L2Parts(m: Memory, sp: Space)
    requires Represents(m, sp) && sp.l2.Some?
    ensures TableAt(m, sp.l2.value) && OwnedPages(m, sp) && L2Row(m, sp)
  {
    hide L1Row, OwnedPages;
  }

  // The parts of a tree that do not depend on its level-2 table.
  lemma PartsKept(m: Memory, sp: Space, sp': Space)
    requires sp'.low == sp.low && sp'.l2 == sp.l2 && sp'.leaf == sp.leaf
    requires LowRow(m, sp) && OwnedPages(m, sp)
    ensures LowRow(m, sp') && OwnedPages(m, sp')
    ensures forall k :: k in sp.l1 && k in sp'.l1 && sp'.l1[k] == sp.l1[k] && L1Row(m, sp, k) ==> L1Row(m, sp', k)
  {
    forall k | k in sp.l1 && k in sp'.l1 && sp'.l1[k] == sp.l1[k] && L1Row(m, sp, k) ensures L1Row(m, sp', k) {
      RowKept(m, m, sp, sp', k);
    }
  }

  lemma AddL1Represents(m: Memory, sp: Space, i: nat, f: nat, e: Pte)
    requires Consistent(sp) && Represents(m, sp) && m[f := Words(ZeroTable())] == m
    requires sp.l2.Some? && i < ENTRIES && i !in sp.l1 && f !in sp.own && Links(e, f)
    ensures TableAt(m, sp.l2.value) && Represents(Write(m, sp.l2.value, i, e), AddL1(sp, i, f))
  {
    hide Consistent, Represents, L2Row, L1Row, LowRow, OwnedPages, Links, ZeroTable, LeafOr;
    var sp' := AddL1(sp, i, f);
    var w := sp.l2.value;
    TopRoles(sp);
    L2Parts(m, sp);
    var m' := Write(m, w, i, e);
    OtherTop(m, m', sp, w, L2);
    OtherRows(m, m', sp, w, L2);
    PagesStay(m, sp, w, i, e);
    L2RowAdded(m, sp, i, f, e);
    assert m[f] == Words(ZeroTable()) && f != w;
    RowAdded(m', sp, i, f);
    PartsKept(m', sp, sp');
    RepresentsParts(m', sp');
  }

  lemma AddLeafConsistent(sp: Space, p: Page, e: Pte)
    requires Consistent(sp) && p.i in sp.l1 && p.j < ENTRIES && p !in sp.leaf && e.present
    requires e.owned ==> e.addr !in sp.own
    ensures Consistent(AddLeaf(sp, p, e))
  {
    hide Consistent;
    var sp' := AddLeaf(sp, p, e);
    TopRoles(sp);
    L1Role(sp, p.i);
    forall k | k in sp'.l1 ensures k < ENTRIES && Has(sp', sp'.l1[k], L1(k)) {
      L1Role(sp, k);
    }
    forall q | q in sp'.leaf
      ensures q.i in sp'.l1 && q.j < ENTRIES && sp'.leaf[q].present
      ensures sp'.leaf[q].owned ==> Has(sp', sp'.leaf[q].addr, Leaf(q))
    {
      if q != p { LeafRole(sp, q); }
    }
    forall g | g in sp'.own ensures Plays(sp', g, sp'.own[g]) {
      if g in sp.own { OwnPlays(sp, g); }
    }
    ConsistentParts(sp');
  }

  lemma DropLeafConsistent(sp: Space, p: Page)
    requires Consistent(sp) && p in sp.leaf
    ensures Consistent(DropLeaf(sp, p))
  {
    hide Consistent;
    var sp' := DropLeaf(sp, p);
    TopRoles(sp);
    LeafRole(sp, p);
    L1Role(sp, p.i);
    forall k | k in sp'.l1 ensures k < ENTRIES && Has(sp', sp'.l1[k], L1(k)) {
      L1Role(sp, k);
    }
    forall q | q in sp'.leaf
      ensures q.i in sp'.l1 && q.j < ENTRIES && sp'.leaf[q].present
      ensures sp'.leaf[q].owned ==> Has(sp', sp'.leaf[q].addr, Leaf(q))
    {
      LeafRole(sp, q);
    }
    forall g | g in sp'.own ensures Plays(sp', g, sp'.own[g]) {
      OwnPlays(sp, g);
    }
    ConsistentParts(sp');
  }

  lemma RowWritten(m: Memory, sp: Space, p: Page, e: Pte, sp': Space)
    requires p.i in sp.l1 && L1Row(m, sp, p.i) && p.j < ENTRIES && sp'.l1 == sp.l1
    requires forall q :: q != p ==> LeafOr(sp', q) == LeafOr(sp, q)
    requires LeafOr(sp', p) == e
    ensures L1Row(Write(m, sp.l1[p.i], p.j, e), sp', p.i)
  {
    hide LeafOr;
    forall j | 0 <= j < ENTRIES
      ensures Write(m, sp.l1[p.i], p.j, e)[sp.l1[p.i]].table[j] == LeafOr(sp', Page(p.i, j))
    {
      assert j == p.j || LeafOr(sp', Page(p.i, j)) == LeafOr(sp, Page(p.i, j));
    }
  }

  lemma L1Parts(m: Memory, sp: Space, i: nat)
    requires Represents(m, sp) && i in sp.l1
    ensures L1Row(m, sp, i) && OwnedPages(m, sp) && TableAt(m, sp.l1[i])
  {
    hide L2Row, LowRow, OwnedPages;
  }

  lemma RowsKept(m: Memory, sp: Space, p: Page, sp': Space)
    requires p.i in sp.l1 && sp'.low == sp.low && sp'.l2 == sp.l2 && sp'.l1 == sp.l1
    requires forall q :: q != p ==> LeafOr(sp', q) == LeafOr(sp, q)
    requires LowRow(m, sp) && L2Row(m, sp) && forall k :: k in sp.l1 && k != p.i ==> L1Row(m, sp, k)
    ensures LowRow(m, sp') && L2Row(m, sp') && forall k :: k in sp.l1 && k != p.i ==> L1Row(m, sp', k)
  {
    hide LeafOr;
    forall k | k in sp'.l1 && k != p.i ensures L1Row(m, sp', k) {
      RowKept(m, m, sp, sp', k);
    }
  }

  // Writing one level-1 entry changes that page's leaf and no other.
  lemma LeafWriteRepresents(m: Memory, sp: Space, p: Page, e: Pte, sp': Space)
    requires Consistent(sp) && Represents(m, sp) && p.i in sp.l1 && p.j < ENTRIES
    requires sp'.root == sp.root && sp'.low == sp.low && sp'.l2 == sp.l2 && sp'.l1 == sp.l1
    requires forall q :: q != p ==> LeafOr(sp', q) == LeafOr(sp, q)
    requires LeafOr(sp', p) == e
    requires e.owned ==> e.addr in m && m[e.addr].Bytes?
    ensures L1Row(m, sp, p.i)
    ensures TableAt(m, sp.l1[p.i]) && Represents(Write(m, sp.l1[p.i], p.j, e), sp')
  {
    hide Consistent, Represents, L2Row, L1Row, LowRow, OwnedPages, Links, LeafOr;
    var w := sp.l1[p.i];
    L1Role(sp, p.i);
    L1Parts(m, sp, p.i);
    var m' := Write(m, w, p.j, e);
    OtherTop(m, m', sp, w, L1(p.i));
    OtherRows(m, m', sp, w, L1(p.i));
    RowWritten(m, sp, p, e, sp');
    PagesWritten(m, sp, w, p, e, sp');
    RowsKept(m', sp, p, sp');
    RepresentsParts(m', sp');
  }

  lemma PagesWritten(m: Memory, sp: Space, w: nat, p: Page, e: Pte, sp': Space)
    requires OwnedPages(m, sp) && TableAt(m, w) && p.j < ENTRIES
    requires forall q :: q != p ==> LeafOr(sp', q) == LeafOr(sp, q)
    requires LeafOr(sp', p) == e && (e.owned ==> e.addr in m && m[e.addr].Bytes?)
    ensures OwnedPages(Write(m, w, p.j, e), sp')
  {
    forall q | q in sp'.leaf && sp'.leaf[q].owned
      ensures sp'.leaf[q].addr in m && m[sp'.leaf[q].addr].Bytes?
    {
      assert q == p || LeafOr(sp', q) == LeafOr(sp, q);
    }
  }

  lemma AddLeafRepresents(m: Memory, sp: Space, p: Page, e: Pte)
    requires Consistent(sp) && Represents(m, sp)
    requires p.i in sp.l1 && p.j < ENTRIES && p !in sp.leaf && e.present
    requires e.owned ==> e.addr !in sp.own && e.addr in m && m[e.addr].Bytes?
    ensures L1Row(m, sp, p.i)
    ensures Consistent(AddLeaf(sp, p, e))
    ensures Represents(Write(m, sp.l1[p.i], p.j, e), AddLeaf(sp, p, e))
  {
    hide Consistent, Represents;
    AddLeafConsistent(sp, p, e);
    LeafWriteRepresents(m, sp, p, e, AddLeaf(sp, p, e));
  }

  lemma DropLeafRepresents(m: Memory, sp: Space, p: Page)
    requires Consistent(sp) && Represents(m, sp) && p in sp.leaf
    ensures L1Row(m, sp, p.i)
    ensures Consistent(DropLeaf(sp, p))
    ensures Represents(Write(m, sp.l1[p.i], p.j, UNUSED), DropLeaf(sp, p))
  {
    hide Represents;
    DropLeafConsistent(sp, p);
    LeafWriteRepresents(m, sp, p, UNUSED, DropLeaf(sp, p));
  }

  lemma L2RowCut(m: Memory, sp: Space, i: nat)
    requires L2Row(m, sp) && sp.l2.Some? && i in sp.l1 && i < ENTRIES
    ensures L2Row(Write(m, sp.l2.value, i, UNUSED), DropL1(sp, i))
  {
  }

  lemma DropL1Represents(m: Memory, sp: Space, i: nat)
    requires Consistent(sp) && Represents(m, sp) && i in sp.l1
    requires forall p :: p in sp.leaf ==> p.i != i
    ensures var sp' := DropL1(sp, i);
            Consistent(sp') && sp.l2.Some? && TableAt(m, sp.l2.value) && i < ENTRIES
            && Represents(Write(m, sp.l2.value, i, UNUSED), sp')
  {
    hide Consistent, Represents, L2Row, L1Row, LowRow, OwnedPages, Links, LeafOr;
    var sp' := DropL1(sp, i);
    L1Role(sp, i);
    TopRoles(sp);
    DropL1Consistent(sp, i);
    L2Parts(m, sp);
    var w := sp.l2.value;
    var m' := Write(m, w, i, UNUSED);
    OtherTop(m, m', sp, w, L2);
    OtherRows(m, m', sp, w, L2);
    PagesStay(m, sp, w, i, UNUSED);
    L2RowCut(m, sp, i);
    PartsKept(m', sp, sp');
    RepresentsParts(m', sp');
  }

  lemma DropL1Consistent(sp: Space, i: nat)
    requires Consistent(sp) && i in sp.l1 && forall p :: p in sp.leaf ==> p.i != i
    ensures Consistent(DropL1(sp, i))
  {
    hide Consistent;
    var sp' := DropL1(sp, i);
    TopRoles(sp);
    L1Role(sp, i);
    forall k | k in sp'.l1 ensures k < ENTRIES && Has(sp', sp'.l1[k], L1(k)) {
      L1Role(sp, k);
    }
    forall q | q in sp'.leaf
      ensures q.i in sp'.l1 && q.j < ENTRIES && sp'.leaf[q].present
      ensures sp'.leaf[q].owned ==> Has(sp', sp'.leaf[q].addr, Leaf(q))
    {
      LeafRole(sp, q);
    }
    forall g | g in sp'.own ensures Plays(sp', g, sp'.own[g]) {
      OwnPlays(sp, g);
    }
    ConsistentParts(sp');
  }

  lemma DropL2Represents(m: Memory, sp: Space)
    requires Consistent(sp) && Represents(m, sp) && sp.l2.Some? && sp.l1 == map[]
    ensures var sp' := DropL2(sp);
            Consistent(sp') && Represents(Write(m, sp.low, 1, UNUSED), sp')
  {
    assert Has(sp, sp.root, Root) && Has(sp, sp.low, Low) && Has(sp, sp.l2.value, L2);
    var sp' := DropL2(sp);
    forall g | g in sp'.own ensures Plays(sp', g, sp'.own[g]) {
      assert Plays(sp, g, sp.own[g]);
    }
    assert sp.leaf.Keys == {};
  }

  // `next` is `sp` with possibly more tables.
  ghost predicate Grows(sp: Space, next: Space) {
    && next.root == sp.root && next.low == sp.low
    && (sp.l2.Some? ==> next.l2 == sp.l2)
    && (forall i :: i in sp.l1 ==> i in next.l1 && next.l1[i] == sp.l1[i])
  }

  lemma GrowsSame(sp: Space)
    ensures Grows(sp, sp)
  {
  }

  lemma GrowsDrop(sp: Space, mid: Space, p: Page)
    requires Grows(sp, mid) && p in mid.leaf
    ensures Grows(sp, DropLeaf(mid, p))
  {
  }

  lemma GrowsTrans(sp: Space, mid: Space, next: Space)
    requires Grows(sp, mid) && Grows(mid, next)
    ensures Grows(sp, next)
  {
  }

  lemma GrowsLeaf(sp: Space, mid: Space, p: Page, e: Pte)
    requires Grows(sp, mid)
    ensures Grows(sp, AddLeaf(mid, p, e))
  {
  }

  // ------------------------------------------------ the steps keep the tree

  lemma AddL2Holds(m: Memory, sp: Space, f: nat, e: Pte)
    requires Holds(m, sp.root, sp) && sp.l2.None? && f !in sp.own && Links(e, f)
    ensures TableAt(m, sp.low) && f != sp.low
    ensures Holds(Write(m[f := Words(ZeroTable())], sp.low, 1, e), sp.root, AddL2(sp, f))
  {
    assert Has(sp, sp.low, Low);
    AddL2Represents(m, sp, f, e);
  }

  lemma AddL1Holds(m: Memory, sp: Space, i: nat, f: nat, e: Pte)
    requires Holds(m, sp.root, sp)
    requires sp.l2.Some? && i < ENTRIES && i !in sp.l1 && f !in sp.own && Links(e, f)
    ensures TableAt(m, sp.l2.value) && f != sp.l2.value
    ensures Holds(Write(m[f := Words(ZeroTable())], sp.l2.value, i, e), sp.root, AddL1(sp, i, f))
  {
    TopRoles(sp);
    var m' := m[f := Words(ZeroTable())];
    assert Holds(m', sp.root, sp) by { RepresentsDependsOnOwn(m, m', sp); }
    assert TableAt(m, sp.l2.value) by { hide Consistent, L1Row, OwnedPages; }
    AddL1Consistent(sp, i, f);
    hide Consistent, Represents;
    assert m'[f := Words(ZeroTable())] == m';
    AddL1Represents(m', sp, i, f, e);
  }

  lemma AddLeafHolds(m: Memory, sp: Space, p: Page, e: Pte)
    requires Holds(m, sp.root, sp)
    requires p.i in sp.l1 && p.j < ENTRIES && p !in sp.leaf && e.present
    requires e.owned ==> e.addr !in sp.own && e.addr in m && m[e.addr].Bytes?
    ensures L1Row(m, sp, p.i)
    ensures Holds(Write(m, sp.l1[p.i], p.j, e), sp.root, AddLeaf(sp, p, e))
  {
    AddLeafRepresents(m, sp, p, e);
  }

  lemma DropLeafHolds(m: Memory, sp: Space, p: Page)
    requires Holds(m, sp.root, sp) && p in sp.leaf
    ensures L1Row(m, sp, p.i)
    ensures Holds(Write(m, sp.l1[p.i], p.j, UNUSED), sp.root, DropLeaf(sp, p))
  {
    DropLeafRepresents(m, sp, p);
  }

  lemma DropL1Holds(m: Memory, sp: Space, i: nat)
    requires Holds(m, sp.root, sp) && i in sp.l1
    requires forall p :: p in sp.leaf ==> p.i != i
    ensures TableAt(m, sp.l2.value)
    ensures Holds(Write(m, sp.l2.value, i, UNUSED), sp.root, DropL1(sp, i))
  {
    DropL1Represents(m, sp, i);
  }

  lemma DropL2Holds(m: Memory, sp: Space)
    requires Holds(m, sp.root, sp) && sp.l2.Some? && sp.l1 == map[]
    ensures TableAt(m, sp.low)
    ensures Holds(Write(m, sp.low, 1, UNUSED), sp.root, DropL2(sp))
  {
    DropL2Represents(m, sp);
  }

  // The flags that a mapping adds to an interior entry on its way down.
  function Relaxed(e: Pte): Pte {
    e.(present := true, writable := true, user := true)
  }

  // Relaxing an interior entry leaves the tree as it is.
  lemma RelaxHolds(m: Memory, sp: Space, f: nat, k: nat)
    requires Holds(m, sp.root, sp) && Interior(sp, f, k)
    ensures TableAt(m, f) && k < ENTRIES && f in sp.own
    ensures Holds(Write(m, f, k, Relaxed(m[f].table[k])), sp.root, sp)
  {
    assert Has(sp, sp.root, Root) && Has(sp, sp.low, Low);
    RelaxRepresents(m, sp, f, k);
  }

  // Entry `k` of table `f` links another table of the tree.
  ghost predicate Interior(sp: Space, f: nat, k: nat) {
    || (f == sp.root && k == 0)
    || (f == sp.low && k == 1 && sp.l2.Some?)
    || (sp.l2 == Some(f) && k in sp.l1)
  }

  lemma RelaxRepresents(m: Memory, sp: Space, f: nat, k: nat)
    requires Consistent(sp) && Represents(m, sp) && Interior(sp, f, k)
    ensures TableAt(m, f) && k < ENTRIES
    ensures Represents(Write(m, f, k, Relaxed(m[f].table[k])), sp)
  {
    TopRoles(sp);
    if k in sp.l1 { L1Role(sp, k); }
    assert TableAt(m, f) by { hide Consistent, L1Row, OwnedPages; }
    var m' := Write(m, f, k, Relaxed(m[f].table[k]));
    var role := sp.own[f];
    assert role == Root || role == Low || role == L2;
    OtherTop(m, m', sp, f, role);
    OtherRows(m, m', sp, f, role);
    assert OwnedPages(m', sp) by { PagesStay(m, sp, f, k, Relaxed(m[f].table[k])); }
    hide Consistent, L1Row, OwnedPages;
    RelaxedRow(m, sp, f, k);
    hide Represents, L2Row, LowRow, Links, TableAt;
    RepresentsParts(m', sp);
  }

  // The row of the entry that is relaxed.
  lemma RelaxedRow(m: Memory, sp: Space, f: nat, k: nat)
    requires Represents(m, sp) && Interior(sp, f, k) && TableAt(m, f) && k < ENTRIES
    ensures var m' := Write(m, f, k, Relaxed(m[f].table[k]));
            && (f == sp.root ==> TableAt(m', sp.root) && Links(m'[sp.root].table[0], sp.low))
            && (f == sp.low && f != sp.root ==> LowRow(m', sp))
            && (sp.l2 == Some(f) && f != sp.low && f != sp.root ==> L2Row(m', sp))
  {
    hide L1Row, OwnedPages;
  }

  // ----------------------------------------------------------------- pruning

  ghost function Used(sp: Space): set<nat> {
    set p | p in sp.leaf :: p.i
  }

  // Empty level-1 tables below index `k` removed.
  ghost predicate KeptBelow(sp: Space, k: nat, role: Role) {
    match role
    case L1(i) => i >= k || i in Used(sp)
    case _ => true
  }

  ghost function PrunedBelow(sp: Space, k: nat): Space {
    sp.(l1 := map i | i in sp.l1 && (i >= k || i in Used(sp)) :: sp.l1[i],
        own := map f | f in sp.own && KeptBelow(sp, k, sp.own[f]) :: sp.own[f])
  }

  // All empty tables removed.
  ghost function Pruned(sp: Space): Space {
    var cut := PrunedBelow(sp, ENTRIES);
    if cut.l2.Some? && cut.l1 == map[] then DropL2(cut) else cut
  }

  lemma PrunedBelowStart(sp: Space)
    ensures PrunedBelow(sp, 0) == sp
  {
    assert PrunedBelow(sp, 0).l1 == sp.l1;
    assert PrunedBelow(sp, 0).own == sp.own;
  }

  // Pruning at index `k` removes that table exactly when no page is in it.
  lemma PrunedBelowStep(sp: Space, k: nat)
    requires Consistent(sp)
    ensures PrunedBelow(sp, k + 1) ==
      if k in sp.l1 && k !in Used(sp) then DropL1(PrunedBelow(sp, k), k) else PrunedBelow(sp, k)
  {
    PrunedL1Step(sp, k);
    PrunedOwnStep(sp, k);
    hide Consistent, Used, KeptBelow;
  }

  lemma PrunedL1Step(sp: Space, k: nat)
    ensures PrunedBelow(sp, k + 1).l1 == PrunedBelow(sp, k).l1 - if k in Used(sp) then {} else {k}
  {
    hide Used, KeptBelow;
  }

  lemma PrunedOwnStep(sp: Space, k: nat)
    requires Consistent(sp)
    ensures PrunedBelow(sp, k + 1).own ==
      PrunedBelow(sp, k).own - if k in sp.l1 && k !in Used(sp) then {sp.l1[k]} else {}
  {
    forall f | f in sp.own && sp.own[f].L1? ensures Plays(sp, f, sp.own[f]) {
    }
    if k in sp.l1 { L1Role(sp, k); }
    hide Used, Consistent;
  }

  lemma PrunedWithoutL2(m: Memory, sp: Space)
    requires Holds(m, sp.root, sp) && sp.l2.None?
    ensures Pruned(sp) == sp
  {
    TightIsPruned(sp);
  }

  lemma PrunedBelowParts(sp: Space, k: nat)
    ensures PrunedBelow(sp, k).root == sp.root && PrunedBelow(sp, k).low == sp.low
    ensures PrunedBelow(sp, k).l2 == sp.l2 && PrunedBelow(sp, k).leaf == sp.leaf
    ensures k in PrunedBelow(sp, k).l1 <==> k in sp.l1
    ensures Used(PrunedBelow(sp, k)) == Used(sp)
  {
  }

  // A level-1 table reads as all unused exactly when no page is mapped in it.
  lemma EmptyRow(m: Memory, sp: Space, i: nat)
    requires Holds(m, sp.root, sp) && i in sp.l1
    ensures TableAt(m, sp.l1[i])
    ensures (forall j :: 0 <= j < ENTRIES ==> m[sp.l1[i]].table[j] == UNUSED) <==> i !in Used(sp)
    ensures i !in Used(sp) <==> forall p :: p in sp.leaf ==> p.i != i
  {
    L1Table(m, sp, i);
    if i in Used(sp) {
      var p :| p in sp.leaf && p.i == i;
      LeafEntry(m, sp, p);
      assert m[sp.l1[i]].table[p.j] == LeafOr(sp, Page(i, p.j)) == sp.leaf[p];
    } else {
      forall j | 0 <= j < ENTRIES ensures m[sp.l1[i]].table[j] == UNUSED {
        assert forall p :: p in sp.leaf ==> p.i in Used(sp);
        assert m[sp.l1[i]].table[j] == LeafOr(sp, Page(i, j));
      }
      assert forall p :: p in sp.leaf ==> p.i in Used(sp);
    }
  }

  lemma EmptyL2(m: Memory, sp: Space)
    requires Holds(m, sp.root, sp) && sp.l2.Some?
    ensures TableAt(m, sp.l2.value)
    ensures (forall i :: 0 <= i < ENTRIES ==> m[sp.l2.value].table[i] == UNUSED) <==> sp.l1 == map[]
  {
    if sp.l1 != map[] {
      var i :| i in sp.l1;
      L2Table(m, sp, i);
    }
  }

  lemma HoldsConsistent(m: Memory, sp: Space)
    requires Holds(m, sp.root, sp)
    ensures Consistent(sp)
  {
  }

  lemma PrunedConsistent(sp: Space)
    requires Consistent(sp)
    ensures Consistent(Pruned(sp))
  {
    PrunedTables(sp);
    var sp' := Pruned(sp);
    assert Has(sp, sp.root, Root) && Has(sp, sp.low, Low);
    assert sp.l2.Some? ==> Has(sp, sp.l2.value, L2);
    forall i | i in sp'.l1 ensures i < ENTRIES && Has(sp', sp'.l1[i], L1(i)) {
      assert Has(sp, sp.l1[i], L1(i));
    }
    forall p | p in sp.leaf ensures p.i in sp'.l1 {
      assert p.i in Used(sp);
    }
    forall p | p in sp.leaf && sp.leaf[p].owned ensures Has(sp', sp.leaf[p].addr, Leaf(p)) {
      assert Has(sp, sp.leaf[p].addr, Leaf(p));
    }
    forall f | f in sp'.own ensures Plays(sp', f, sp'.own[f]) {
      assert Plays(sp, f, sp.own[f]);
    }
  }

  // No table of the tree is empty.
  ghost predicate Tight(sp: Space) {
    && (forall i :: i in sp.l1 ==> i in Used(sp))
    && (sp.l2.Some? ==> sp.l1 != map[])
  }

  lemma TightIsPruned(sp: Space)
    requires Consistent(sp) && Tight(sp)
    ensures Pruned(sp) == sp
  {
    var cut := PrunedBelow(sp, ENTRIES);
    assert cut.l1 == sp.l1;
    forall f | f in sp.own ensures KeptBelow(sp, ENTRIES, sp.own[f]) {
      assert Plays(sp, f, sp.own[f]);
    }
    assert cut.own == sp.own;
  }

  // Mapping a page, with tables created for that page only, keeps a tree tight.
  lemma MappingKeepsTight(sp: Space, next: Space, p: Page, e: Pte)
    requires Tight(sp) && Consistent(next) && Grows(sp, next)
    requires next.l1.Keys <= sp.l1.Keys + {p.i} && next.leaf == sp.leaf[p := e]
    ensures Tight(next)
  {
    assert p in next.leaf && p.i in Used(next);
    forall i | i in next.l1 ensures i in Used(next) {
      if i in sp.l1 {
        assert i in Used(sp);
        var q :| q in sp.leaf && q.i == i;
        assert q in next.leaf;
      }
    }
    assert p.i in next.l1;
  }

  lemma PrunedIsTight(sp: Space)
    requires Consistent(sp)
    ensures Tight(Pruned(sp)) && Pruned(sp).leaf == sp.leaf && Used(Pruned(sp)) == Used(sp)
  {
    forall i | i in Pruned(sp).l1 ensures i in Used(sp) {
      assert i < ENTRIES;
    }
  }

  // The owned frames are determined by the tree.
  lemma OwnIsDetermined(sp: Space, sp': Space)
    requires Consistent(sp) && Consistent(sp')
    requires sp.root == sp'.root && sp.low == sp'.low && sp.l2 == sp'.l2 && sp.l1 == sp'.l1 && sp.leaf == sp'.leaf
    ensures sp == sp'
  {
    hide Consistent;
    forall f | f in sp.own ensures f in sp'.own && sp'.own[f] == sp.own[f] {
      OwnRole(sp, sp', f);
    }
    forall f | f in sp'.own ensures f in sp.own {
      OwnRole(sp', sp, f);
    }
    assert sp.own == sp'.own;
  }

  lemma OwnRole(sp: Space, sp': Space, f: nat)
    requires Consistent(sp) && Consistent(sp') && f in sp.own
    requires sp.root == sp'.root && sp.low == sp'.low && sp.l2 == sp'.l2 && sp.l1 == sp'.l1 && sp.leaf == sp'.leaf
    ensures Has(sp', f, sp.own[f])
  {
    assert Plays(sp, f, sp.own[f]);
    TopRoles(sp');
    match sp.own[f] {
      case L1(i) => L1Role(sp', i);
      case Leaf(p) => LeafRole(sp', p);
      case _ =>
    }
  }

  // Tables added on top of a tree without a page in them do not survive pruning.
  lemma PrunedForgetsEmptyTables(sp: Space, sp': Space)
    requires Consistent(sp) && Consistent(sp')
    requires Consistent(Pruned(sp)) && Consistent(Pruned(sp'))
    requires sp.root == sp'.root && sp.low == sp'.low && sp.leaf == sp'.leaf
    requires sp.l2.Some? ==> sp'.l2 == sp.l2
    requires forall i :: i in sp.l1 ==> i in sp'.l1 && sp'.l1[i] == sp.l1[i]
    ensures Pruned(sp') == Pruned(sp)
  {
    PrunedTables(sp);
    PrunedTables(sp');
    UsedHaveTables(sp);
    assert Used(sp) == Used(sp');
    SameUsedTables(sp.l1, sp'.l1, Used(sp));
    hide *;
    OwnIsDetermined(Pruned(sp), Pruned(sp'));
  }

  lemma SameUsedTables(some: map<nat, nat>, more: map<nat, nat>, used: set<nat>)
    requires used <= some.Keys && forall i :: i in some ==> i in more && more[i] == some[i]
    ensures (map i | i in some && i in used :: some[i]) == (map i | i in more && i in used :: more[i])
  {
  }

  lemma UsedHaveTables(sp: Space)
    requires Consistent(sp)
    ensures Used(sp) <= sp.l1.Keys
    ensures Used(sp) != {} ==> sp.l2.Some?
  {
    forall i | i in Used(sp) ensures i in sp.l1 {
      var p :| p in sp.leaf && p.i == i;
    }
  }

  lemma PrunedTables(sp: Space)
    requires Consistent(sp)
    ensures Pruned(sp).l1 == map i | i in sp.l1 && i in Used(sp) :: sp.l1[i]
    ensures Pruned(sp).l2 == if Used(sp) == {} then None else sp.l2
    ensures Pruned(sp).root == sp.root && Pruned(sp).low == sp.low && Pruned(sp).leaf == sp.leaf
  {
    UsedHaveTables(sp);
    forall i | i in sp.l1 ensures i < ENTRIES { L1Role(sp, i); }
    assert sp.l2.None? ==> sp.l1 == map[];
    hide Consistent, Used;
    CutTables(sp);
    var cut := PrunedBelow(sp, ENTRIES);
    assert cut.l1 == map[] <==> Used(sp) == {} by {
      if Used(sp) != {} {
        var i :| i in Used(sp);
        assert i in cut.l1;
      } else {
        assert cut.l1.Keys == {};
      }
    }
    hide PrunedBelow;
  }

  lemma CutTables(sp: Space)
    requires forall i :: i in sp.l1 ==> i < ENTRIES
    ensures var cut := PrunedBelow(sp, ENTRIES);
            && cut.l1 == (map i | i in sp.l1 && i in Used(sp) :: sp.l1[i])
            && cut.l2 == sp.l2 && cut.root == sp.root && cut.low == sp.low && cut.leaf == sp.leaf
  {
    hide Used, KeptBelow;
  }

}
