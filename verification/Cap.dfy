// The capability core as a transition system on values (kernel/src/cap.rs).
// Every operation of the kernel runs under one lock, so each is one atomic step.
module Cap {
  import opened Wrappers

  type Rights = bv32

  const ALL_RIGHTS: Rights := 0x3FF
  const MAX_CAP_SLOTS: nat := 2048
  const MAX_CAP_NODES: nat := 2048
  const MAX_CAP_OBJECTS: nat := 1024
  const EPOCH_MAX: nat := 0xFFFF_FFFF_FFFF_FFFF

  datatype CapError = Invalid | Revoked | NoRights | Exhausted

  datatype ObjectKind = Memory | Device | Endpoint | Generic | Fd | Process

  datatype Handle = Handle(slot: nat, generation: nat)

  datatype Slot = Slot(node: nat, obj: nat, rights: Rights, generation: nat, free: bool, isLent: bool)

  datatype Node = Node(parent: Option<nat>, epoch: nat)

  datatype Object = Object(kind: ObjectKind, refcount: nat, generation: nat, valid: bool)

  datatype Core = Core(slots: seq<Slot>, nodes: seq<Node>, objects: seq<Object>)

  predicate Contains(have: Rights, need: Rights) {
    have & need == need
  }

  function Meet(have: Rights, req: Rights): Rights {
    have & req
  }

  // What is asked for and contained is what is given.
  lemma MeetIsRequest(have: Rights, req: Rights)
    ensures Contains(have, req) ==> Meet(have, req) == req
    ensures Contains(have, Meet(have, req))
  {
  }

  lemma ContainsTransitive(a: Rights, b: Rights, c: Rights)
    requires Contains(a, b) && Contains(b, c)
    ensures Contains(a, c)
  {
  }

  // ------------------------------------------------------------ revocation

  // A parent index is always below its child's.
  predicate ParentsBelow(nodes: seq<Node>) {
    forall i :: 0 <= i < |nodes| && nodes[i].parent.Some? ==> nodes[i].parent.value < i
  }

  // Revoked itself, or below a revoked node.
  predicate Dead(nodes: seq<Node>, n: nat)
    requires ParentsBelow(nodes) && n < |nodes|
  {
    nodes[n].epoch > 0 || (nodes[n].parent.Some? && Dead(nodes, nodes[n].parent.value))
  }

  // `n` is `top` or was derived from it.
  predicate Descends(nodes: seq<Node>, n: nat, top: nat)
    requires ParentsBelow(nodes) && n < |nodes|
  {
    n == top || (nodes[n].parent.Some? && Descends(nodes, nodes[n].parent.value, top))
  }

  function Bump(epoch: nat): nat {
    if epoch < EPOCH_MAX then epoch + 1 else epoch
  }

  function RevokeNode(nodes: seq<Node>, n: nat): seq<Node>
    requires n < |nodes|
  {
    nodes[n := Node(nodes[n].parent, Bump(nodes[n].epoch))]
  }

  // ------------------------------------------------------------- operations

  // The first free slot, or one past the end.
  function FirstFree(slots: seq<Slot>): (i: nat)
    ensures i <= |slots|
    ensures i < |slots| ==> slots[i].free
    ensures forall k :: 0 <= k < i ==> !slots[k].free
  {
    if slots == [] || slots[0].free then 0 else 1 + FirstFree(slots[1..])
  }

  const EMPTY_SLOT: Slot := Slot(0, 0, 0, 1, true, false)

  // The slots after one has been found or pushed, if there is room.
  function WithFreeSlot(slots: seq<Slot>): Option<seq<Slot>> {
    if FirstFree(slots) < |slots| then Some(slots)
    else if |slots| >= MAX_CAP_SLOTS then None
    else Some(slots + [EMPTY_SLOT])
  }

  // A handle names a slot in use with the same generation.
  predicate Names(c: Core, h: Handle) {
    h.slot < |c.slots| && !c.slots[h.slot].free && c.slots[h.slot].generation == h.generation
  }

  // Append a node and put a capability for it into a free slot. Without a free
  // slot the node stays behind.
  function Issue(c: Core, node: Node, obj: nat, rights: Rights, lent: bool): (Core, Result<Handle, CapError>) {
    var nodes := c.nodes + [node];
    var room := WithFreeSlot(c.slots);
    if room.None? then (Core(c.slots, nodes, c.objects), Err(Exhausted))
    else
      var i := FirstFree(c.slots);
      var gen := room.value[i].generation;
      var slots := room.value[i := Slot(|c.nodes|, obj, rights, gen, false, lent)];
      (Core(slots, nodes, c.objects), Ok(Handle(i, gen)))
  }

  function CreateObject(c: Core, kind: ObjectKind): (Core, Result<Handle, CapError>) {
    if |c.objects| >= MAX_CAP_OBJECTS || |c.nodes| >= MAX_CAP_NODES then (c, Err(Exhausted))
    else
      Issue(Core(c.slots, c.nodes, c.objects + [Object(kind, 0, 1, true)]),
            Node(None, 0), |c.objects|, ALL_RIGHTS, false)
  }

  // The checks that every derivation makes on the handle it derives from.
  function DeriveError(c: Core, h: Handle, req: Rights): Option<CapError>
    requires Linked(c)
  {
    if !Names(c, h) then Some(Invalid)
    else
      var s := c.slots[h.slot];
      if !Contains(s.rights, req) || s.isLent then Some(NoRights)
      else if Dead(c.nodes, s.node) then Some(Revoked)
      else if |c.nodes| >= MAX_CAP_NODES then Some(Exhausted)
      else None
  }

  datatype How = Created | Granted | Lent | Transferred

  // A transferred capability starts a lineage of its own.
  function ChildNode(s: Slot, how: How): Node {
    Node(if how.Transferred? then None else Some(s.node), 0)
  }

  // What a derivation does once it is allowed; a transfer closes the handle it
  // came from.
  function Derived(c: Core, h: Handle, req: Rights, how: How): (Core, Result<Handle, CapError>)
    requires h.slot < |c.slots|
  {
    var s := c.slots[h.slot];
    var (d, r) := Issue(c, ChildNode(s, how), s.obj, Meet(s.rights, req), how.Lent?);
    if r.Ok? && how.Transferred? && h.slot < |d.slots| then (Core(CloseSlot(d.slots, h.slot), d.nodes, d.objects), r)
    else (d, r)
  }

  // grant, lend and transfer.
  function Derive(c: Core, h: Handle, req: Rights, how: How): (Core, Result<Handle, CapError>)
    requires Linked(c)
  {
    var e := DeriveError(c, h, req);
    if e.Some? then (c, Err(e.value)) else Derived(c, h, req, how)
  }

  function CloseSlot(slots: seq<Slot>, i: nat): seq<Slot>
    requires i < |slots|
  {
    var s := slots[i];
    slots[i := Slot(s.node, s.obj, s.rights, s.generation + 1, true, s.isLent)]
  }

  function Close(c: Core, h: Handle): (Core, Result<(), CapError>) {
    if !Names(c, h) then (c, Err(Invalid))
    else (Core(CloseSlot(c.slots, h.slot), c.nodes, c.objects), Ok(()))
  }

  function Revoke(c: Core, h: Handle): (Core, Result<(), CapError>)
    requires Linked(c)
  {
    if !Names(c, h) then (c, Err(Invalid))
    else (Core(c.slots, RevokeNode(c.nodes, c.slots[h.slot].node), c.objects), Ok(()))
  }

  // Passive check of a handle.
  function CheckRights(c: Core, h: Handle, needed: Rights): Result<(), CapError>
    requires Linked(c)
  {
    if !Names(c, h) then Err(Invalid)
    else
      var s := c.slots[h.slot];
      if !Contains(s.rights, needed) then Err(NoRights)
      else if Dead(c.nodes, s.node) then Err(Revoked)
      else if !c.objects[s.obj].valid then Err(Invalid)
      else Ok(())
  }

  function CheckRightsForObject(c: Core, h: Handle, target: Handle, needed: Rights): Result<(), CapError>
    requires Linked(c)
  {
    if !Names(c, h) || !Names(c, target) then Err(Invalid)
    else if c.slots[h.slot].obj != c.slots[target.slot].obj then Err(NoRights)
    else CheckRights(c, h, needed)
  }

  // An active access holds a reference on the object.
  function Deref(c: Core, h: Handle, flags: Rights): (Core, Result<nat, CapError>)
    requires Linked(c)
  {
    var r := CheckRights(c, h, flags);
    if r.Err? then (c, Err(r.error))
    else
      var o := c.slots[h.slot].obj;
      var x := c.objects[o];
      (Core(c.slots, c.nodes, c.objects[o := Object(x.kind, x.refcount + 1, x.generation, x.valid)]), Ok(o))
  }

  // The last access dropped frees the object.
  function DropAccess(c: Core, o: nat): Core
    requires o < |c.objects|
  {
    var x := c.objects[o];
    if !x.valid || x.refcount == 0 then c
    else if x.refcount == 1 then
      Core(c.slots, c.nodes, c.objects[o := Object(x.kind, 0, x.generation + 1, false)])
    else
      Core(c.slots, c.nodes, c.objects[o := Object(x.kind, x.refcount - 1, x.generation, true)])
  }

  // ------------------------------------------------------------- structure

  // Indices are in range, slots in use name distinct nodes.
  predicate Linked(c: Core) {
    && ParentsBelow(c.nodes)
    && |c.slots| <= |c.nodes| <= MAX_CAP_NODES
    && (forall i :: 0 <= i < |c.slots| && !c.slots[i].free ==>
         c.slots[i].node < |c.nodes| && c.slots[i].obj < |c.objects|)
    && (forall i, j :: 0 <= i < j < |c.slots| && !c.slots[i].free && !c.slots[j].free ==>
         c.slots[i].node != c.slots[j].node)
  }

  const START: Core := Core([], [], [])

  // ---------------------------------------------------------- dead is exact

  // Growing the node list changes nothing about the old nodes.
  lemma {:induction false} DeadInPrefix(nodes: seq<Node>, node: Node, n: nat)
    requires ParentsBelow(nodes) && ParentsBelow(nodes + [node]) && n < |nodes|
    ensures Dead(nodes + [node], n) == Dead(nodes, n)
  {
    assert (nodes + [node])[n] == nodes[n];
    if nodes[n].parent.Some? { DeadInPrefix(nodes, node, nodes[n].parent.value); }
  }

  // Revoking a node kills exactly that node and what was derived from it.
  lemma {:induction false} RevokeIsExact(nodes: seq<Node>, top: nat, n: nat)
    requires ParentsBelow(nodes) && top < |nodes| && n < |nodes|
    ensures ParentsBelow(RevokeNode(nodes, top))
    ensures Dead(RevokeNode(nodes, top), n) <==> Dead(nodes, n) || Descends(nodes, n, top)
  {
    var next := RevokeNode(nodes, top);
    assert forall i :: 0 <= i < |nodes| ==> next[i].parent == nodes[i].parent;
    if nodes[n].parent.Some? { RevokeIsExact(nodes, top, nodes[n].parent.value); }
  }
}
