// Reading and writing user memory of an address space through its page tables
// (kernel/src/memory.rs, write_user_region_in_cr3).
module UserMemory {
  import opened Bytes
  import opened Wrappers
  import opened AddressSpace
  import opened M = Memory

  // The byte a process sees at a user address, if a page is mapped there.
  ghost function ByteAt(m: AddressSpace.Memory, sp: Space, virt: nat): Option<byte> {
    var p := PageOf(virt);
    if p in sp.leaf && sp.leaf[p].addr in m && m[sp.leaf[p].addr].Bytes? then
      Some(m[sp.leaf[p].addr].bytes[virt % PAGE])
    else
      None
  }

  // The byte that the hardware lets a process read at a user address.
  ghost function UserByte(m: AddressSpace.Memory, root: nat, virt: nat): Option<byte> {
    var a := Reach(m, root, virt);
    if a.Some? && a.value.user && a.value.frame in m && m[a.value.frame].Bytes? then
      Some(m[a.value.frame].bytes[virt % PAGE])
    else
      None
  }

  // Where ring 3 may read, it reads the byte of the mapped page.
  lemma ReadsByte(v: View, cr3: nat, virt: nat, writable: bool)
    requires Good(v) && cr3 in v.spaces && Opens(v.mem, cr3, virt, writable)
    ensures UserByte(v.mem, cr3, virt) == ByteAt(v.mem, v.spaces[cr3], virt)
  {
    hide Good, Reach, PageOf;
    Seen(v, cr3, virt);
  }

  // `virt` lies in a page that the address space owns.
  ghost predicate InOwnPage(sp: Space, virt: nat) {
    InUser(virt) && PageOf(virt) in sp.leaf && sp.leaf[PageOf(virt)].owned
  }

  // No page of somebody else is mapped at `virt`.
  ghost predicate OwnOrUnmapped(sp: Space, virt: nat) {
    InUser(virt) && (PageOf(virt) in sp.leaf ==> sp.leaf[PageOf(virt)].owned)
  }

  // What write_user_region promises: `bytes` first, zeros after.
  function Padded(bytes: seq<byte>, k: nat): byte {
    if k < |bytes| then bytes[k] else 0
  }

  // From `m` to `m'`, every address in an owned page took the padded byte if it
  // lies in the range and kept its byte if not.
  ghost predicate Wrote(m: AddressSpace.Memory, m': AddressSpace.Memory, sp: Space, virt: nat, n: nat,
                        bytes: seq<byte>) {
    && (forall v :: virt <= v < virt + n && InOwnPage(sp, v) ==> ByteAt(m', sp, v) == Some(Padded(bytes, v - virt)))
    && (forall v: nat :: InOwnPage(sp, v) && !(virt <= v < virt + n) ==> ByteAt(m', sp, v) == ByteAt(m, sp, v))
  }

  function PaddedRun(bytes: seq<byte>, from: nat, n: nat): (r: seq<byte>)
    ensures |r| == n && forall k :: 0 <= k < n ==> r[k] == Padded(bytes, from + k)
  {
    if n == 0 then [] else PaddedRun(bytes, from, n - 1) + [Padded(bytes, from + n - 1)]
  }

  // The page content after zeroing `chunk` bytes at `off` and copying into them
  // as many bytes as there are left from `from` on.
  function Patched(page: PageBytes, off: nat, chunk: nat, bytes: seq<byte>, from: nat): PageBytes
    requires off + chunk <= 4096
  {
    page[..off] + PaddedRun(bytes, from, chunk) + page[off + chunk..]
  }

  lemma OwnPageBytes(mc: Machine, cr3: nat, virt: nat)
    requires mc.Valid() && cr3 in mc.spaces && InOwnPage(mc.spaces[cr3], virt)
    ensures var f := mc.spaces[cr3].leaf[PageOf(virt)].addr;
            f in mc.mem && mc.mem[f].Bytes? && f in mc.owners && mc.owners[f] == cr3
  {
    hide Good, Holds;
    GoodTree(mc.V(), cr3);
    LeafEntry(mc.mem, mc.spaces[cr3], PageOf(virt));
  }

  // Overwrite part of one owned page.
  method PatchPage(mc: Machine, cr3: nat, virt: nat, f: nat, chunk: nat, bytes: seq<byte>, from: nat)
    requires mc.Valid() && cr3 in mc.spaces && InOwnPage(mc.spaces[cr3], virt)
    requires f == mc.spaces[cr3].leaf[PageOf(virt)].addr && virt % PAGE + chunk <= PAGE
    requires f in mc.mem && mc.mem[f].Bytes?
    modifies mc
    ensures mc.Valid() && mc.spaces == old(mc.spaces) && mc.owners.Keys == old(mc.owners).Keys
    ensures mc.mem == old(mc.mem)[f := Bytes(Patched(old(mc.mem)[f].bytes, virt % PAGE, chunk, bytes, from))]
  {
    hide Good, Holds, Reowned;
    ghost var v, sp := mc.V(), mc.spaces[cr3];
    OwnPageBytes(mc, cr3, virt);
    GoodTree(v, cr3);
    var b := Patched(mc.mem[f].bytes, virt % PAGE, chunk, bytes, from);
    PageWriteHolds(mc.mem, sp, PageOf(virt), b);
    PoolWriteOk(mc.mem, mc.kernelRoot, mc.pool.universe, f, Bytes(b));
    mc.mem := mc.mem[f := Bytes(b)];
    GoodSame(v, mc.mem, cr3, sp);
    mc.Record(v, cr3, sp);
  }

  // One chunk in an owned page extends the written prefix.
  lemma ChunkWrote(m: AddressSpace.Memory, mid: AddressSpace.Memory, sp: Space, virt: nat, done: nat, chunk: nat,
                   bytes: seq<byte>)
    requires Consistent(sp) && Wrote(m, mid, sp, virt, done, bytes)
    requires InOwnPage(sp, virt + done) && (virt + done) % PAGE + chunk <= PAGE
    requires var f := sp.leaf[PageOf(virt + done)].addr; f in mid && mid[f].Bytes?
    ensures var f := sp.leaf[PageOf(virt + done)].addr;
            Wrote(m, mid[f := Bytes(Patched(mid[f].bytes, (virt + done) % PAGE, chunk, bytes, done))],
                  sp, virt, done + chunk, bytes)
  {
    var at := virt + done;
    var f := sp.leaf[PageOf(at)].addr;
    var m' := mid[f := Bytes(Patched(mid[f].bytes, at % PAGE, chunk, bytes, done))];
    hide Consistent, ByteAt, PageOf, Patched, Padded;
    forall v: nat | InOwnPage(sp, v)
      ensures ByteAt(m', sp, v) ==
        if at <= v < at + chunk then Some(Padded(bytes, v - virt)) else ByteAt(mid, sp, v)
    {
      ByteAfterPatch(mid, sp, at, chunk, bytes, done, v);
    }
    hide InOwnPage;
  }

  // A chunk in a page that is not mapped is skipped.
  lemma ChunkSkipped(m: AddressSpace.Memory, mid: AddressSpace.Memory, sp: Space, virt: nat, done: nat, chunk: nat,
                     bytes: seq<byte>)
    requires Wrote(m, mid, sp, virt, done, bytes)
    requires PageOf(virt + done) !in sp.leaf && (virt + done) % PAGE + chunk <= PAGE
    ensures Wrote(m, mid, sp, virt, done + chunk, bytes)
  {
    var at := virt + done;
    hide ByteAt, PageOf, Padded;
    forall v | at <= v < at + chunk ensures !InOwnPage(sp, v) {
      SamePage(at, v);
    }
  }

  lemma ByteAfterPatch(mid: AddressSpace.Memory, sp: Space, at: nat, chunk: nat, bytes: seq<byte>, done: nat, v: nat)
    requires Consistent(sp) && InOwnPage(sp, at) && at % PAGE + chunk <= PAGE && done <= at
    requires InOwnPage(sp, v)
    requires var f := sp.leaf[PageOf(at)].addr; f in mid && mid[f].Bytes?
    ensures var f := sp.leaf[PageOf(at)].addr;
            ByteAt(mid[f := Bytes(Patched(mid[f].bytes, at % PAGE, chunk, bytes, done))], sp, v) ==
            if at <= v < at + chunk then Some(Padded(bytes, v - (at - done))) else ByteAt(mid, sp, v)
  {
    if PageOf(v) == PageOf(at) {
      PageOfIsInjective(v, at);
      assert v - at == v % PAGE - at % PAGE;
    } else {
      OwnedPagesAreDistinct(sp, PageOf(v), PageOf(at));
      assert !(at <= v < at + chunk) by {
        if at <= v < at + chunk { SamePage(v, at); }
      }
    }
  }

  // Only frames that the space owns have changed.
  ghost predicate KeptOutside(m: AddressSpace.Memory, m': AddressSpace.Memory, sp: Space) {
    m'.Keys == m.Keys && forall f :: f in m && f !in sp.own ==> m'[f] == m[f]
  }

  // Write the part of the region that lies in one page, if that page is mapped.
  method WriteChunk(mc: Machine, cr3: nat, virt: nat, written: nat, chunk: nat, bytes: seq<byte>,
                    ghost m: AddressSpace.Memory)
    requires mc.Valid() && cr3 in mc.spaces && (virt + written) % PAGE + chunk <= PAGE
    requires OwnOrUnmapped(mc.spaces[cr3], virt + written)
    requires Wrote(m, mc.mem, mc.spaces[cr3], virt, written, bytes) && KeptOutside(m, mc.mem, mc.spaces[cr3])
    modifies mc
    ensures mc.Valid() && mc.spaces == old(mc.spaces) && mc.owners.Keys == old(mc.owners).Keys
    ensures Wrote(m, mc.mem, mc.spaces[cr3], virt, written + chunk, bytes)
    ensures KeptOutside(m, mc.mem, mc.spaces[cr3])
  {
    hide Good, Holds, Wrote, Consistent, ByteAt, MemoryOk, M.FP.FramePool.Valid, M.FP.FramePool.Free, PageOf, Patched;
    ghost var sp := mc.spaces[cr3];
    var at := virt + written;
    var f := mc.TranslatePage(cr3, at);
    if f.None? {
      ChunkSkipped(m, mc.mem, sp, virt, written, chunk, bytes);
      return;
    }
    OwnPageBytes(mc, cr3, at);
    OwnFrame(mc, cr3, at);
    ChunkWrote(m, mc.mem, sp, virt, written, chunk, bytes);
    PatchPage(mc, cr3, at, f.value, chunk, bytes, written);
  }

  // What was given, then zeros.
  lemma WroteBytes(m: AddressSpace.Memory, m': AddressSpace.Memory, sp: Space, virt: nat, len: nat, bytes: seq<byte>)
    requires Wrote(m, m', sp, virt, if len < |bytes| then |bytes| else len, bytes)
    ensures forall v :: virt <= v < virt + |bytes| && InOwnPage(sp, v) ==> ByteAt(m', sp, v) == Some(bytes[v - virt])
    ensures forall v :: virt + |bytes| <= v < virt + len && InOwnPage(sp, v) ==> ByteAt(m', sp, v) == Some(0)
  {
    hide InOwnPage, ByteAt;
  }


  // Write `bytes` and pad them with zeros up to `len`, into all of the region that
  // is mapped. The pages that are mapped must be owned.
  method WriteUserRegion(mc: Machine, cr3: nat, virt: nat, bytes: seq<byte>, len: nat)
    requires mc.Valid() && cr3 in mc.spaces
    requires forall v :: virt <= v < virt + len || virt <= v < virt + |bytes| ==> OwnOrUnmapped(mc.spaces[cr3], v)
    modifies mc
    ensures mc.Valid() && mc.spaces == old(mc.spaces) && mc.owners.Keys == old(mc.owners).Keys
    ensures Wrote(old(mc.mem), mc.mem, mc.spaces[cr3], virt, if len < |bytes| then |bytes| else len, bytes)
    ensures forall v :: virt <= v < virt + |bytes| && InOwnPage(mc.spaces[cr3], v) ==>
      ByteAt(mc.mem, mc.spaces[cr3], v) == Some(bytes[v - virt])
    ensures forall v :: virt + |bytes| <= v < virt + len && InOwnPage(mc.spaces[cr3], v) ==>
      ByteAt(mc.mem, mc.spaces[cr3], v) == Some(0)
    ensures KeptOutside(old(mc.mem), mc.mem, mc.spaces[cr3])
  {
    hide Good, Holds, Wrote, MemoryOk, PageOf, KeptOutside, M.FP.FramePool.Valid, InOwnPage, ByteAt;
    ghost var m := mc.mem;
    var total := if len < |bytes| then |bytes| else len;
    var written := 0;
    WroteNothing(m, mc.spaces[cr3], virt, bytes);
    while written < total
      invariant 0 <= written <= total && mc.Valid()
      invariant mc.spaces == old(mc.spaces) && mc.owners.Keys == old(mc.owners).Keys
      invariant Wrote(m, mc.mem, mc.spaces[cr3], virt, written, bytes) && KeptOutside(m, mc.mem, mc.spaces[cr3])
    {
      var room := PAGE - (virt + written) % PAGE;
      var chunk := if room < total - written then room else total - written;
      WriteChunk(mc, cr3, virt, written, chunk, bytes, m);
      written := written + chunk;
    }
    WroteBytes(m, mc.mem, mc.spaces[cr3], virt, len, bytes);
  }

  lemma WroteNothing(m: AddressSpace.Memory, sp: Space, virt: nat, bytes: seq<byte>)
    ensures Wrote(m, m, sp, virt, 0, bytes) && KeptOutside(m, m, sp)
  {
  }

  lemma OwnFrame(mc: Machine, cr3: nat, virt: nat)
    requires mc.Valid() && cr3 in mc.spaces && InOwnPage(mc.spaces[cr3], virt)
    ensures Consistent(mc.spaces[cr3]) && mc.spaces[cr3].leaf[PageOf(virt)].addr in mc.spaces[cr3].own
  {
    hide Good, Holds, Consistent;
    GoodTree(mc.V(), cr3);
    HoldsConsistent(mc.mem, mc.spaces[cr3]);
    LeafEntry(mc.mem, mc.spaces[cr3], PageOf(virt));
  }
}
