// The IOMMU's root, context and second-level tables (kernel/src/iommu.rs).
module Iommu {
  import opened Wrappers
  import FP = FramePool

  // Second-level translation covers 48-bit addresses: this many pages.
  const PAGES: nat := 0x10_0000_0000

  type Table = t: seq<nat> | |t| == 512 witness seq(512, _ => 0)

  function ZeroTable(): Table {
    seq(512, _ => 0)
  }

  // ------------------------------------------------------------------ entries

  // An address with the read and write bits set.
  function Entry(addr: nat): nat {
    addr - addr % 4 + 3
  }

  predicate Present(e: nat) {
    e % 4 != 0
  }

  function Address(e: nat): nat {
    e - e % 4096
  }

  lemma EntryReadsBack(addr: nat)
    ensures Present(Entry(addr)) && Address(Entry(addr)) == Address(addr)
    ensures Entry(addr) % 2 == 1 && Entry(addr) / 2 % 2 == 1
  {
    var k := addr / 4;
    assert Entry(addr) == 4 * k + 3;
    SamePageOfFour(k);
    assert addr == 4 * k + addr % 4;
    OffsetInFour(k, addr % 4);
  }

  // Addresses in one group of four lie on one page.
  lemma OffsetInFour(k: nat, r: nat)
    requires r < 4
    ensures Address(4 * k + r) == 4 * (k - k % 1024)
  {
    var q, m := k / 1024, k % 1024;
    assert 4 * k + r == 4096 * q + (4 * m + r);
  }

  lemma SamePageOfFour(k: nat)
    ensures Address(4 * k + 3) == 4 * (k - k % 1024) && (4 * k + 3) % 4 == 3
    ensures (4 * k + 3) % 2 == 1 && (4 * k + 3) / 2 % 2 == 1
  {
    OffsetInFour(k, 3);
    LastOfFour(k);
    hide Address;
  }

  lemma LastOfFour(k: nat)
    ensures (4 * k + 3) % 4 == 3 && (4 * k + 3) % 2 == 1 && (4 * k + 3) / 2 % 2 == 1
  {
    assert 4 * k + 3 == 2 * (2 * k + 1) + 1;
    assert (4 * k + 3) / 2 == 2 * k + 1;
  }

  // --------------------------------------------------------------------- walk

  type Memory = map<nat, Table>

  // A frame that the device reaches, and what the entries on the way to it permit.
  datatype Access = Access(frame: nat, read: bool, write: bool)

  // All that can be permitted.
  function Open(frame: nat): Access {
    Access(frame, true, true)
  }

  // Where an entry leads: bit 0 of it permits reading, bit 1 writing, and neither
  // permits what an entry above it does not.
  function Step(mem: Memory, at: Option<Access>, i: nat): Option<Access>
    requires i < 512
  {
    if at.None? || at.value.frame !in mem then None
    else
      var e := mem[at.value.frame][i];
      if Present(e) then Some(Access(Address(e), at.value.read && e % 2 == 1, at.value.write && e / 2 % 2 == 1))
      else None
  }

  // What the hardware makes of page `u`.
  function Walk(mem: Memory, root: nat, u: nat): Option<Access>
    requires u < PAGES
  {
    var t3 := Step(mem, Some(Open(root)), u / 512 / 512 / 512);
    var t2 := Step(mem, t3, u / 512 / 512 % 512);
    var t1 := Step(mem, t2, u / 512 % 512);
    Step(mem, t1, u % 512)
  }

  // ------------------------------------------------------------ table forest

  // A table by its level (4 is the root) and the page number bits above it.
  datatype Key = Key(level: nat, prefix: nat)

  function Up(k: Key): Key {
    Key(k.level + 1, k.prefix / 512)
  }

  function Down(k: Key, i: nat): Key
    requires k.level > 0
  {
    Key(k.level - 1, k.prefix * 512 + i)
  }

  const TOP: Key := Key(4, 0)

  // A table other than the root hangs in one entry of the table above it.
  ghost predicate Hangs(mem: Memory, tab: map<Key, nat>, k: Key)
    requires k in tab
  {
    k == TOP ||
      (Up(k) in tab && tab[Up(k)] in mem && mem[tab[Up(k)]][k.prefix % 512] == Entry(tab[k]))
  }

  // Entries that lead to no table are not present.
  ghost predicate Bare(mem: Memory, tab: map<Key, nat>, k: Key)
    requires k in tab && tab[k] in mem
  {
    k.level == 1 || (k.level > 1 && forall i :: 0 <= i < 512 && Down(k, i) !in tab ==> !Present(mem[tab[k]][i]))
  }

  ghost predicate Sits(mem: Memory, tab: map<Key, nat>, k: Key)
    requires k in tab
  {
    && 1 <= k.level <= 4 && (k.level == 4 ==> k == TOP)
    && tab[k] % 4096 == 0 && tab[k] in mem
    && Hangs(mem, tab, k) && Bare(mem, tab, k)
  }

  ghost predicate Apart(tab: map<Key, nat>) {
    forall j, k :: j in tab && k in tab && j != k ==> tab[j] != tab[k]
  }

  // The tables form a tree below the root and no two share a frame.
  ghost predicate Tree(mem: Memory, root: nat, tab: map<Key, nat>) {
    && TOP in tab && tab[TOP] == root
    && (forall k :: k in tab ==> Sits(mem, tab, k))
    && Apart(tab)
  }

  // One level of the walk, seen from the tree.
  lemma StepIsChild(mem: Memory, root: nat, tab: map<Key, nat>, k: Key, i: nat)
    requires Tree(mem, root, tab) && k in tab && k.level > 1 && i < 512
    ensures Step(mem, Some(Open(tab[k])), i) == if Down(k, i) in tab then Some(Open(tab[Down(k, i)])) else None
  {
    UpDown(k, i);
    assert Sits(mem, tab, k);
    if Down(k, i) in tab {
      assert Sits(mem, tab, Down(k, i));
      EntryReadsBack(tab[Down(k, i)]);
    }
    hide Entry, Present, Address, Up;
  }

  lemma UpDown(k: Key, i: nat)
    requires k.level > 0 && i < 512
    ensures Up(Down(k, i)) == k && Down(k, i).prefix % 512 == i
  {
  }

  function LastTable(u: nat): Key {
    Key(1, u / 512)
  }

  // A page is translated by the last table over it, if there is one.
  lemma WalkIsLeaf(mem: Memory, root: nat, tab: map<Key, nat>, u: nat)
    requires Tree(mem, root, tab) && u < PAGES
    ensures Walk(mem, root, u) ==
      if LastTable(u) in tab then Step(mem, Some(Open(tab[LastTable(u)])), u % 512) else None
  {
    var k1, k2, k3 := Key(1, u / 512), Key(2, u / 512 / 512), Key(3, u / 512 / 512 / 512);
    assert k3 == Down(TOP, k3.prefix) && k3.prefix < 512;
    assert k2 == Down(k3, k2.prefix % 512) && Up(k2) == k3;
    assert k1 == Down(k2, k1.prefix % 512) && Up(k1) == k2;
    assert k1 in tab ==> Sits(mem, tab, k1);
    assert k2 in tab ==> Sits(mem, tab, k2);
    StepIsChild(mem, root, tab, TOP, k3.prefix);
    if k3 in tab {
      StepIsChild(mem, root, tab, k3, k2.prefix % 512);
      if k2 in tab {
        StepIsChild(mem, root, tab, k2, k1.prefix % 512);
      }
    }
  }

  // The memory after an empty table has been hung into entry i.
  function Hung(mem: Memory, tab: map<Key, nat>, k: Key, i: nat, f: nat): Memory
    requires k in tab && tab[k] in mem && i < 512
  {
    mem[f := ZeroTable()][tab[k] := mem[tab[k]][i := Entry(f)]]
  }

  lemma HangKeepsTree(mem: Memory, root: nat, tab: map<Key, nat>, k: Key, i: nat, f: nat)
    requires Tree(mem, root, tab) && k in tab && 1 < k.level && i < 512 && Down(k, i) !in tab
    requires f % 4096 == 0 && f !in tab.Values
    ensures tab[k] in mem && Tree(Hung(mem, tab, k, i, f), root, tab[Down(k, i) := f])
  {
    var c := Down(k, i);
    assert Sits(mem, tab, k);
    HungSits(mem, tab, k, i, f);
    var mem', tab' := Hung(mem, tab, k, i, f), tab[c := f];
    forall j | j in tab'
      ensures Sits(mem', tab', j)
    {
      if j != c {
        hide Sits, Hung;
        HangKeepsOne(mem, root, tab, k, i, f, j);
      }
    }
    assert c != TOP;
    StaysApart(tab, c, f);
    hide Sits, Hung, Apart, Down;
  }

  lemma StaysApart(tab: map<Key, nat>, c: Key, f: nat)
    requires f !in tab.Values && Apart(tab)
    ensures Apart(tab[c := f])
  {
  }

  lemma HungSits(mem: Memory, tab: map<Key, nat>, k: Key, i: nat, f: nat)
    requires k in tab && Sits(mem, tab, k) && 1 < k.level && i < 512 && f % 4096 == 0 && Down(k, i) !in tab
    requires f != tab[k]
    ensures Sits(Hung(mem, tab, k, i, f), tab[Down(k, i) := f], Down(k, i))
  {
    var c := Down(k, i);
    UpDown(k, i);
    assert c.level == k.level - 1 && c != TOP && c != k;
    assert Hung(mem, tab, k, i, f)[f] == ZeroTable() by { hide Entry; }
    HungDomain(mem, tab, k, i, f);
    assert !Present(0);
    hide Entry, Present, Hung, Up, Down;
  }

  lemma HangKeepsOne(mem: Memory, root: nat, tab: map<Key, nat>, k: Key, i: nat, f: nat, j: Key)
    requires Tree(mem, root, tab) && k in tab && 1 < k.level && i < 512 && Down(k, i) !in tab
    requires f !in tab.Values && j in tab
    ensures tab[k] in mem && Sits(Hung(mem, tab, k, i, f), tab[Down(k, i) := f], j)
  {
    assert Sits(mem, tab, k) && Sits(mem, tab, j);
    assert tab[j] != f && tab[k] != f && (tab[j] == tab[k] ==> j == k);
    hide Tree, Up, Down, Entry, Present, Hung;
    HangKeepsHanging(mem, tab, k, i, f, j);
    HangKeepsBare(mem, tab, k, i, f, j);
    HungDomain(mem, tab, k, i, f);
    hide Hangs, Bare;
  }

  lemma HungDomain(mem: Memory, tab: map<Key, nat>, k: Key, i: nat, f: nat)
    requires k in tab && tab[k] in mem && i < 512 && f != tab[k]
    ensures Hung(mem, tab, k, i, f).Keys == mem.Keys + {f}
    ensures Hung(mem, tab, k, i, f)[tab[k]] == mem[tab[k]][i := Entry(f)]
    ensures forall t :: t in mem && t != f && t != tab[k] ==> Hung(mem, tab, k, i, f)[t] == mem[t]
  {
    hide Entry;
  }

  lemma HangKeepsHanging(mem: Memory, tab: map<Key, nat>, k: Key, i: nat, f: nat, j: Key)
    requires k in tab && tab[k] in mem && k.level > 0 && i < 512 && Down(k, i) !in tab
    requires f !in tab.Values && j in tab && Hangs(mem, tab, j)
    requires Up(j) in tab && tab[Up(j)] == tab[k] ==> Up(j) == k
    ensures Hangs(Hung(mem, tab, k, i, f), tab[Down(k, i) := f], j)
  {
    if j != TOP {
      assert tab[Up(j)] != f && tab[k] != f;
      HungDomain(mem, tab, k, i, f);
      assert Up(j) == k ==> j.prefix % 512 != i by { if Up(j) == k { UpDownAgain(j); } }
      hide Up, Down, Entry, Hung;
    }
  }

  lemma UpDownAgain(j: Key)
    ensures Up(j).level > 0 && Down(Up(j), j.prefix % 512) == j
  {
  }

  lemma HangKeepsBare(mem: Memory, tab: map<Key, nat>, k: Key, i: nat, f: nat, j: Key)
    requires k in tab && tab[k] in mem && k.level > 0 && i < 512 && Down(k, i) !in tab
    requires f !in tab.Values && j in tab && tab[j] in mem && Bare(mem, tab, j) && (tab[j] == tab[k] ==> j == k)
    ensures tab[j] in Hung(mem, tab, k, i, f) && Bare(Hung(mem, tab, k, i, f), tab[Down(k, i) := f], j)
  {
    assert tab[j] != f && tab[k] != f;
    HungDomain(mem, tab, k, i, f);
    hide Entry, Hung, Present;
    var mem', tab' := Hung(mem, tab, k, i, f), tab[Down(k, i) := f];
    if j.level > 1 {
      forall x | 0 <= x < 512 && Down(j, x) !in tab'
        ensures !Present(mem'[tab[j]][x])
      {
        assert j != k || x != i;
      }
    }
  }

  // An empty table changes no translation.
  lemma HangKeepsWalk(mem: Memory, root: nat, tab: map<Key, nat>, k: Key, i: nat, f: nat, u: nat)
    requires Tree(mem, root, tab) && k in tab && 1 < k.level && i < 512 && Down(k, i) !in tab
    requires f % 4096 == 0 && f !in tab.Values && u < PAGES
    ensures tab[k] in mem && Walk(Hung(mem, tab, k, i, f), root, u) == Walk(mem, root, u)
  {
    HangKeepsTree(mem, root, tab, k, i, f);
    WalkIsLeaf(mem, root, tab, u);
    WalkIsLeaf(Hung(mem, tab, k, i, f), root, tab[Down(k, i) := f], u);
    var l := LastTable(u);
    if l in tab { assert tab[l] != f && tab[l] != tab[k]; }
    StepAfterHang(mem, tab, k, i, f, u % 512);
    if l in tab { StepElsewhere(mem, tab, k, i, f, tab[l], u % 512); }
    hide Walk, Tree, Step, LastTable, Hung, Down;
  }

  lemma StepAfterHang(mem: Memory, tab: map<Key, nat>, k: Key, i: nat, f: nat, x: nat)
    requires k in tab && tab[k] in mem && i < 512 && x < 512 && f != tab[k]
    ensures Step(Hung(mem, tab, k, i, f), Some(Open(f)), x) == None
  {
    assert Hung(mem, tab, k, i, f)[f] == ZeroTable();
  }

  lemma StepElsewhere(mem: Memory, tab: map<Key, nat>, k: Key, i: nat, f: nat, t: nat, x: nat)
    requires k in tab && tab[k] in mem && i < 512 && x < 512 && t != f && t != tab[k]
    ensures Step(Hung(mem, tab, k, i, f), Some(Open(t)), x) == Step(mem, Some(Open(t)), x)
  {
  }

  // The memory after a leaf entry has been written.
  function LeafSet(mem: Memory, table: nat, i: nat, page: nat): Memory
    requires table in mem && i < 512
  {
    mem[table := mem[table][i := Entry(page)]]
  }

  // Writing a leaf entry translates one page and no other.
  lemma LeafSetWalk(mem: Memory, root: nat, tab: map<Key, nat>, u: nat, page: nat, v: nat)
    requires Tree(mem, root, tab) && u < PAGES && LastTable(u) in tab && v < PAGES
    ensures tab[LastTable(u)] in mem && Tree(LeafSet(mem, tab[LastTable(u)], u % 512, page), root, tab)
    ensures Walk(LeafSet(mem, tab[LastTable(u)], u % 512, page), root, v)
         == if v == u then Some(Open(Address(page))) else Walk(mem, root, v)
  {
    var k := LastTable(u);
    LeafSetKeepsTree(mem, root, tab, k, u % 512, page);
    WalkIsLeaf(mem, root, tab, v);
    WalkIsLeaf(LeafSet(mem, tab[k], u % 512, page), root, tab, v);
    assert LastTable(v) in tab ==> tab[LastTable(v)] in mem by {
      if LastTable(v) in tab { assert Sits(mem, tab, LastTable(v)); }
    }
    assert LastTable(v) in tab && LastTable(v) != k ==> tab[LastTable(v)] != tab[k];
    SamePage(u, v);
    if LastTable(v) in tab { StepAfterSet(mem, tab[k], u % 512, page, tab[LastTable(v)], v % 512); }
    hide *;
  }

  lemma SamePage(u: nat, v: nat)
    ensures LastTable(u) == LastTable(v) && u % 512 == v % 512 ==> u == v
  {
  }

  lemma StepAfterSet(mem: Memory, table: nat, i: nat, page: nat, t: nat, x: nat)
    requires table in mem && t in mem && i < 512 && x < 512
    ensures Step(LeafSet(mem, table, i, page), Some(Open(t)), x)
         == if t == table && x == i then Some(Open(Address(page))) else Step(mem, Some(Open(t)), x)
  {
    EntryReadsBack(page);
    hide Entry, Present, Address;
  }

  lemma LeafSetKeepsTree(mem: Memory, root: nat, tab: map<Key, nat>, k: Key, i: nat, page: nat)
    requires Tree(mem, root, tab) && k in tab && k.level == 1 && i < 512
    ensures tab[k] in mem && Tree(LeafSet(mem, tab[k], i, page), root, tab)
  {
    assert Sits(mem, tab, k);
    hide Sits, LeafSet, Apart;
    forall j | j in tab
      ensures Sits(LeafSet(mem, tab[k], i, page), tab, j)
    {
      LeafSetKeepsOne(mem, root, tab, k, i, page, j);
    }
  }

  lemma LeafSetKeepsOne(mem: Memory, root: nat, tab: map<Key, nat>, k: Key, i: nat, page: nat, j: Key)
    requires Tree(mem, root, tab) && k in tab && k.level == 1 && i < 512 && tab[k] in mem && j in tab
    ensures Sits(LeafSet(mem, tab[k], i, page), tab, j)
  {
    assert Sits(mem, tab, j) && Sits(mem, tab, k);
    assert tab[j] == tab[k] ==> j == k;
    if j != TOP {
      assert Up(j) in tab && Up(j).level > 1;
      assert tab[Up(j)] != tab[k];
    }
    hide Tree, Up, Down, Entry, Present;
    if j != TOP {
      assert Hangs(LeafSet(mem, tab[k], i, page), tab, j) by { hide Bare; }
    }
    LeafSetKeepsBare(mem, tab, tab[k], i, page, j, k);
    hide Bare;
  }

  lemma LeafSetKeepsBare(mem: Memory, tab: map<Key, nat>, table: nat, i: nat, page: nat, j: Key, k: Key)
    requires j in tab && k in tab && tab[j] in mem && table in mem && i < 512 && Bare(mem, tab, j)
    requires k.level == 1 && table == tab[k] && (tab[j] == table ==> j == k)
    ensures Bare(LeafSet(mem, table, i, page), tab, j)
  {
    hide Entry, Present, Down;
  }
}
