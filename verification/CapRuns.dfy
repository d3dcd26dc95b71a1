// What every run of capability operations keeps (kernel/src/cap.rs).
module CapRuns {
  import opened Wrappers
  import opened Cap

  // How a node came to be, and what it stood for.
  datatype Birth = Birth(how: How, from: Option<nat>, rights: Rights, obj: nat)

  // The expiry registry maps a slot to the generation and deadline registered last.
  datatype Entry = Entry(generation: nat, deadline: nat)

  // Beside the kernel's state: how every node was born, the deadline every
  // registered handle was promised, the handles that an expiry pass has collected
  // and not yet revoked, and the objects of the accesses that are held. The registry has a lock of its own, so other
  // operations run between a lend and its registration, and between the two
  // phases of a pass.
  datatype World = World(
    core: Core,
    births: seq<Birth>,
    expiries: map<nat, Entry>,
    promised: map<Handle, nat>,
    pending: set<Handle>,
    held: multiset<nat>)

  datatype Op =
    | CreateOp(kind: ObjectKind)
    | DeriveOp(h: Handle, req: Rights, how: How)
    | CloseOp(h: Handle)
    | RevokeOp(h: Handle)
    | DerefOp(h: Handle, flags: Rights)
    | DropOp(obj: nat)
    | RegisterOp(h: Handle, deadline: nat)
    | CollectOp(tick: nat)
    | ExpireOp(h: Handle)

  // ------------------------------------------------------------------ steps

  function Undue(expiries: map<nat, Entry>, tick: nat): map<nat, Entry> {
    map s | s in expiries && expiries[s].deadline > tick :: expiries[s]
  }

  function Due(expiries: map<nat, Entry>, tick: nat): set<Handle> {
    set s | s in expiries && expiries[s].deadline <= tick :: Handle(s, expiries[s].generation)
  }

  // The handle was lent: it still is, or its slot has moved on for good.
  predicate LentOrGone(c: Core, h: Handle) {
    && h.slot < |c.slots|
    && (c.slots[h.slot].generation > h.generation || (Names(c, h) && c.slots[h.slot].isLent))
  }

  // What the callers inside the kernel guarantee: only an access that is held is
  // dropped, a lent handle is registered once, and a pass revokes what
  // it has collected.
  predicate Enabled(w: World, op: Op) {
    match op
    case DeriveOp(_, _, how) => !how.Created?
    case DropOp(o) => o in w.held && o < |w.core.objects|
    case RegisterOp(h, _) => LentOrGone(w.core, h) && h !in w.promised
    case ExpireOp(h) => h in w.pending
    case _ => true
  }

  function CoreStep(c: Core, op: Op): Core
    requires Linked(c) && (op.DropOp? ==> op.obj < |c.objects|)
  {
    match op
    case CreateOp(kind) => CreateObject(c, kind).0
    case DeriveOp(h, req, how) => Derive(c, h, req, how).0
    case CloseOp(h) => Close(c, h).0
    case RevokeOp(h) => Revoke(c, h).0
    case DerefOp(h, flags) => Deref(c, h, flags).0
    case DropOp(o) => DropAccess(c, o)
    case ExpireOp(h) => Revoke(c, h).0
    case RegisterOp(_, _) => c
    case CollectOp(_) => c
  }

  // The birth of the node that a step appends.
  function BirthOf(c: Core, op: Op): Birth {
    if op.DeriveOp? && op.h.slot < |c.slots| then
      var s := c.slots[op.h.slot];
      Birth(op.how, Some(s.node), Meet(s.rights, op.req), s.obj)
    else Birth(Created, None, ALL_RIGHTS, |c.objects|)
  }

  function BirthStep(births: seq<Birth>, c: Core, d: Core, op: Op): seq<Birth> {
    if |d.nodes| > |c.nodes| then births + [BirthOf(c, op)] else births
  }

  function Step(w: World, op: Op): World
    requires Linked(w.core) && Enabled(w, op)
  {
    var d := CoreStep(w.core, op);
    var births := BirthStep(w.births, w.core, d, op);
    match op
    case RegisterOp(h, deadline) =>
      World(d, births, w.expiries[h.slot := Entry(h.generation, deadline)], w.promised[h := deadline],
            w.pending, w.held)
    case CollectOp(tick) =>
      World(d, births, Undue(w.expiries, tick), w.promised, w.pending + Due(w.expiries, tick), w.held)
    case ExpireOp(h) => World(d, births, w.expiries, w.promised, w.pending - {h}, w.held)
    case DerefOp(h, flags) =>
      var r := Deref(w.core, h, flags).1;
      World(d, births, w.expiries, w.promised, w.pending,
            if r.Ok? then w.held + multiset{r.value} else w.held)
    case DropOp(o) => World(d, births, w.expiries, w.promised, w.pending, w.held - multiset{o})
    case _ => World(d, births, w.expiries, w.promised, w.pending, w.held)
  }

  const FIRST: World := World(START, [], map[], map[], {}, multiset{})

  // ------------------------------------------------------------- invariants

  // A node keeps what its birth says: only grants and lends have a parent, a
  // derivation is of the same object with no more rights, and never from a loan.
  predicate BirthOk(c: Core, births: seq<Birth>, i: nat)
    requires i < |births| == |c.nodes|
  {
    var b := births[i];
    && b.obj < |c.objects|
    && c.nodes[i].parent == (if b.how.Granted? || b.how.Lent? then b.from else None)
    && (b.how.Created? <==> b.from.None?)
    && (b.how.Created? ==> b.rights == ALL_RIGHTS)
    && (b.from.Some? ==>
          && b.from.value < i
          && births[b.from.value].obj == b.obj
          && Contains(births[b.from.value].rights, b.rights)
          && !births[b.from.value].how.Lent?)
  }

  // One object, one creation.
  predicate CreatedOnce(births: seq<Birth>) {
    forall i, j :: 0 <= i < j < |births| && births[i].how.Created? && births[j].how.Created? ==>
      births[i].obj != births[j].obj
  }

  // A slot in use stands for what its node was born with.
  predicate SlotOk(c: Core, births: seq<Birth>, i: nat)
    requires i < |c.slots|
  {
    var s := c.slots[i];
    s.free ||
      (s.node < |births| && births[s.node].rights == s.rights && births[s.node].obj == s.obj
       && births[s.node].how.Lent? == s.isLent)
  }

  predicate Lineages(c: Core, births: seq<Birth>) {
    && |births| == |c.nodes|
    && (forall i :: 0 <= i < |births| ==> BirthOk(c, births, i))
    && CreatedOnce(births)
    && (forall i :: 0 <= i < |c.slots| ==> SlotOk(c, births, i))
  }

  // Only loans are registered, and the registry holds what was promised.
  predicate Loans(w: World) {
    && (forall h :: h in w.promised ==> LentOrGone(w.core, h))
    && (forall s :: s in w.expiries ==>
         var h := Handle(s, w.expiries[s].generation);
         h in w.promised && w.promised[h] == w.expiries[s].deadline)
    && w.pending <= w.promised.Keys
  }

  // An object counts the accesses that are held on it, and lives while one is.
  predicate Accesses(c: Core, held: multiset<nat>) {
    && (forall o: nat :: o < |c.objects| ==>
         c.objects[o].refcount == held[o] && (held[o] > 0 ==> c.objects[o].valid))
    && (forall o :: o in held ==> o < |c.objects|)
  }

  predicate Inv(w: World) {
    Linked(w.core) && Lineages(w.core, w.births) && Loans(w) && Accesses(w.core, w.held)
  }

  // ----------------------------------------------------- one step, structure

  // A slot can always be found for a node that could be appended.
  lemma RoomForSlot(c: Core)
    requires Linked(c) && |c.nodes| < MAX_CAP_NODES
    ensures WithFreeSlot(c.slots).Some?
  {
  }

  // A new capability takes one slot that nobody was using, with the generation
  // that the slot had reached; the other slots stay.
  predicate FillsOne(before: seq<Slot>, after: seq<Slot>, i: nat, s: Slot) {
    && |before| <= |after| <= |before| + 1 && i < |after| && after[i] == s && !s.free
    && (i < |before| ==> |after| == |before| && before[i].free && before[i].generation == s.generation)
    && (i >= |before| ==> i == |before| && s.generation == 1)
    && forall k :: 0 <= k < |before| && k != i ==> after[k] == before[k]
  }

  lemma IssueEffect(c: Core, node: Node, obj: nat, rights: Rights, lent: bool)
    requires WithFreeSlot(c.slots).Some?
    ensures var (d, r) := Issue(c, node, obj, rights, lent);
            && r.Ok? && d.nodes == c.nodes + [node] && d.objects == c.objects
            && FillsOne(c.slots, d.slots, r.value.slot, Slot(|c.nodes|, obj, rights, r.value.generation, false, lent))
  {
  }

  // Slots never disappear and generations never go back; a slot in use keeps its
  // capability until its generation moves on.
  ghost predicate SlotsAdvance(c: Core, d: Core) {
    && |c.slots| <= |d.slots|
    && forall k :: 0 <= k < |c.slots| ==>
         && c.slots[k].generation <= d.slots[k].generation
         && (!c.slots[k].free ==> d.slots[k] == c.slots[k] || c.slots[k].generation < d.slots[k].generation)
  }

  // Nodes keep their parent and never come back to life; objects stay dead.
  ghost predicate NodesAdvance(c: Core, d: Core) {
    && |c.nodes| <= |d.nodes| && |c.objects| <= |d.objects|
    && (forall k :: 0 <= k < |c.nodes| ==>
         d.nodes[k].parent == c.nodes[k].parent && (c.nodes[k].epoch > 0 ==> d.nodes[k].epoch > 0))
    && (forall k :: 0 <= k < |c.objects| && !c.objects[k].valid ==> !d.objects[k].valid)
  }

  lemma DeriveStarts(c: Core, h: Handle, req: Rights)
    requires Linked(c) && DeriveError(c, h, req).None?
    ensures Names(c, h) && !c.slots[h.slot].isLent && |c.nodes| < MAX_CAP_NODES
    ensures Contains(c.slots[h.slot].rights, req) && !Dead(c.nodes, c.slots[h.slot].node)
  {
  }

  // A derivation appends a node and fills a slot; a transfer then closes the
  // slot it came from.
  ghost predicate DeriveDid(c: Core, h: Handle, req: Rights, how: How, d: Core, got: Handle, mid: seq<Slot>)
    requires h.slot < |c.slots|
  {
    var s := c.slots[h.slot];
    && d.objects == c.objects && d.nodes == c.nodes + [ChildNode(s, how)]
    && FillsOne(c.slots, mid, got.slot, Slot(|c.nodes|, s.obj, Meet(s.rights, req), got.generation, false, how.Lent?))
    && h.slot != got.slot && h.slot < |mid|
    && d.slots == if how.Transferred? then CloseSlot(mid, h.slot) else mid
  }

  lemma DerivedEffect(c: Core, h: Handle, req: Rights, how: How) returns (mid: seq<Slot>)
    requires h.slot < |c.slots| && !c.slots[h.slot].free && WithFreeSlot(c.slots).Some?
    ensures var (d, r) := Derived(c, h, req, how);
            r.Ok? && DeriveDid(c, h, req, how, d, r.value, mid)
  {
    hide WithFreeSlot, Issue, Meet;
    var s := c.slots[h.slot];
    IssueEffect(c, ChildNode(s, how), s.obj, Meet(s.rights, req), how.Lent?);
    mid := Issue(c, ChildNode(s, how), s.obj, Meet(s.rights, req), how.Lent?).0.slots;
  }

  lemma DeriveEffect(c: Core, h: Handle, req: Rights, how: How) returns (mid: seq<Slot>)
    requires Linked(c) && DeriveError(c, h, req).None?
    ensures Names(c, h)
    ensures var (d, r) := Derive(c, h, req, how);
            r.Ok? && DeriveDid(c, h, req, how, d, r.value, mid)
  {
    DeriveStarts(c, h, req);
    RoomForSlot(c);
    hide Linked, DeriveError, WithFreeSlot, Derived, DeriveDid;
    mid := DerivedEffect(c, h, req, how);
  }

  // What a step does to slots and nodes, for the steps that append a node.
  ghost predicate Appends(c: Core, op: Op, d: Core, got: Handle, mid: seq<Slot>) {
    && (op.CreateOp? ==>
         && d.objects == c.objects + [Object(op.kind, 0, 1, true)] && d.nodes == c.nodes + [Node(None, 0)]
         && d.slots == mid
         && FillsOne(c.slots, mid, got.slot, Slot(|c.nodes|, |c.objects|, ALL_RIGHTS, got.generation, false, false)))
    && (op.DeriveOp? ==> Names(c, op.h) && DeriveDid(c, op.h, op.req, op.how, d, got, mid))
  }

  // A creation or derivation happens as a whole or changes nothing: running out
  // of slots after the node has been appended cannot occur.
  lemma AllOrNothing(c: Core, op: Op) returns (got: Handle, mid: seq<Slot>)
    requires Linked(c) && (op.CreateOp? || op.DeriveOp?)
    ensures var r := if op.CreateOp? then CreateObject(c, op.kind).1 else Derive(c, op.h, op.req, op.how).1;
            && (r.Err? ==> CoreStep(c, op) == c)
            && (r.Ok? ==> r.value == got && |c.nodes| < MAX_CAP_NODES && Appends(c, op, CoreStep(c, op), got, mid))
  {
    hide Issue, WithFreeSlot, Derived, DeriveDid;
    got, mid := Handle(0, 0), [];
    if op.CreateOp? {
      if |c.objects| < MAX_CAP_OBJECTS && |c.nodes| < MAX_CAP_NODES {
        var c' := Core(c.slots, c.nodes, c.objects + [Object(op.kind, 0, 1, true)]);
        RoomForSlot(c');
        IssueEffect(c', Node(None, 0), |c.objects|, ALL_RIGHTS, false);
        got, mid := CreateObject(c, op.kind).1.value, CreateObject(c, op.kind).0.slots;
      }
    } else if DeriveError(c, op.h, op.req).None? {
      mid := DeriveEffect(c, op.h, op.req, op.how);
      got := Derive(c, op.h, op.req, op.how).1.value;
      DeriveStarts(c, op.h, op.req);
    }
  }

  // ---------------------------------------------------- one step, invariants

  lemma FillAdvances(before: seq<Slot>, after: seq<Slot>, i: nat, s: Slot)
    requires FillsOne(before, after, i, s)
    ensures |before| <= |after|
    ensures forall k :: 0 <= k < |before| ==>
              && before[k].generation <= after[k].generation && (!before[k].free ==> after[k] == before[k])
  {
  }

  lemma AppendAdvances(c: Core, op: Op, d: Core, got: Handle, mid: seq<Slot>)
    requires (op.CreateOp? || op.DeriveOp?) && Appends(c, op, d, got, mid)
    ensures SlotsAdvance(c, d) && NodesAdvance(c, d)
  {
    hide FillsOne, Meet;
    if op.CreateOp? {
      FillAdvances(c.slots, mid, got.slot, Slot(|c.nodes|, |c.objects|, ALL_RIGHTS, got.generation, false, false));
    } else {
      var s := c.slots[op.h.slot];
      FillAdvances(c.slots, mid, got.slot,
                   Slot(|c.nodes|, s.obj, Meet(s.rights, op.req), got.generation, false, op.how.Lent?));
    }
  }

  lemma CoreAdvances(c: Core, op: Op)
    requires Linked(c) && (op.DropOp? ==> op.obj < |c.objects|)
    ensures SlotsAdvance(c, CoreStep(c, op)) && NodesAdvance(c, CoreStep(c, op))
  {
    hide Appends, CreateObject, Derive, Dead, Contains;
    if op.CreateOp? || op.DeriveOp? {
      var got, mid := AllOrNothing(c, op);
      if CoreStep(c, op) != c { AppendAdvances(c, op, CoreStep(c, op), got, mid); }
    }
  }

  // Slots in use name existing nodes and objects, and no node twice.
  predicate SlotsLinked(slots: seq<Slot>, nodes: nat, objects: nat) {
    && (forall i :: 0 <= i < |slots| && !slots[i].free ==> slots[i].node < nodes && slots[i].obj < objects)
    && (forall i, j :: 0 <= i < j < |slots| && !slots[i].free && !slots[j].free ==> slots[i].node != slots[j].node)
  }

  lemma FillKeepsLinked(before: seq<Slot>, after: seq<Slot>, i: nat, s: Slot, nodes: nat, objects: nat, more: nat)
    requires FillsOne(before, after, i, s) && SlotsLinked(before, nodes, objects) && objects <= more
    requires s.node == nodes && s.obj < more
    ensures SlotsLinked(after, nodes + 1, more)
  {
  }

  lemma CloseKeepsLinked(slots: seq<Slot>, i: nat, nodes: nat, objects: nat)
    requires i < |slots| && SlotsLinked(slots, nodes, objects)
    ensures SlotsLinked(CloseSlot(slots, i), nodes, objects)
  {
  }

  lemma AppendKeepsLinked(c: Core, op: Op, d: Core, got: Handle, mid: seq<Slot>)
    requires Linked(c) && (op.CreateOp? || op.DeriveOp?) && Appends(c, op, d, got, mid) && |c.nodes| < MAX_CAP_NODES
    ensures Linked(d)
  {
    assert SlotsLinked(c.slots, |c.nodes|, |c.objects|);
    assert |d.slots| <= |c.slots| + 1;
    hide FillsOne, Meet, SlotsLinked;
    if op.CreateOp? {
      var s := Slot(|c.nodes|, |c.objects|, ALL_RIGHTS, got.generation, false, false);
      FillKeepsLinked(c.slots, mid, got.slot, s, |c.nodes|, |c.objects|, |d.objects|);
    } else {
      var p := c.slots[op.h.slot];
      var s := Slot(|c.nodes|, p.obj, Meet(p.rights, op.req), got.generation, false, op.how.Lent?);
      FillKeepsLinked(c.slots, mid, got.slot, s, |c.nodes|, |c.objects|, |c.objects|);
      if op.how.Transferred? { CloseKeepsLinked(mid, op.h.slot, |d.nodes|, |d.objects|); }
    }
    LinkedParts(d);
  }

  lemma LinkedParts(d: Core)
    requires ParentsBelow(d.nodes) && |d.slots| <= |d.nodes| <= MAX_CAP_NODES
    requires SlotsLinked(d.slots, |d.nodes|, |d.objects|)
    ensures Linked(d)
  {
  }

  lemma CoreKeepsLinked(c: Core, op: Op)
    requires Linked(c) && (op.DropOp? ==> op.obj < |c.objects|)
    ensures Linked(CoreStep(c, op))
  {
    hide Appends, CreateObject, Derive, Dead, Contains;
    if op.CreateOp? || op.DeriveOp? {
      var got, mid := AllOrNothing(c, op);
      if CoreStep(c, op) != c { AppendKeepsLinked(c, op, CoreStep(c, op), got, mid); }
    }
  }

  lemma AppendKeepsBirths(c: Core, births: seq<Birth>, d: Core, b: Birth)
    requires Lineages(c, births) && Linked(c)
    requires |c.objects| <= |d.objects| && |d.nodes| == |c.nodes| + 1 && d.nodes[..|c.nodes|] == c.nodes
    requires b.how.Created? ==> b.obj == |c.objects|
    requires BirthOk(d, births + [b], |births|)
    ensures forall i :: 0 <= i < |births| + 1 ==> BirthOk(d, births + [b], i)
    ensures CreatedOnce(births + [b])
  {
    hide Contains, SlotOk, Linked;
    forall i | 0 <= i < |births|
      ensures BirthOk(d, births + [b], i) && births[i].obj < |c.objects|
    {
      assert BirthOk(c, births, i);
      assert c.nodes[i] == d.nodes[..|c.nodes|][i] == d.nodes[i];
    }
  }

  // The birth recorded for a new node is what the node and its slot stand for.
  lemma NewBirthOk(c: Core, births: seq<Birth>, op: Op, d: Core, got: Handle, mid: seq<Slot>)
    requires Linked(c) && Lineages(c, births) && (op.CreateOp? || op.DeriveOp?) && Appends(c, op, d, got, mid)
    requires op.DeriveOp? ==> !op.how.Created? && !c.slots[op.h.slot].isLent
    ensures |d.nodes| == |c.nodes| + 1
    ensures BirthOk(d, births + [BirthOf(c, op)], |births|)
  {
    hide Contains, Meet, FillsOne, CreatedOnce, ParentsBelow;
    if op.DeriveOp? {
      var p := c.slots[op.h.slot];
      MeetIsRequest(p.rights, op.req);
      assert SlotOk(c, births, op.h.slot);
    }
  }

  lemma AppendKeepsSlots(c: Core, births: seq<Birth>, op: Op, d: Core, got: Handle, mid: seq<Slot>)
    requires Linked(c) && Lineages(c, births) && (op.CreateOp? || op.DeriveOp?) && Appends(c, op, d, got, mid)
    ensures forall i :: 0 <= i < |d.slots| ==> SlotOk(d, births + [BirthOf(c, op)], i)
  {
    hide Contains, Meet, BirthOk, CreatedOnce, ParentsBelow, Linked;
    forall i | 0 <= i < |d.slots|
      ensures SlotOk(d, births + [BirthOf(c, op)], i)
    {
      if i < |c.slots| { assert SlotOk(c, births, i); }
    }
  }

  lemma AppendKeepsLineages(c: Core, births: seq<Birth>, op: Op, d: Core, got: Handle, mid: seq<Slot>)
    requires Linked(c) && Lineages(c, births) && (op.CreateOp? || op.DeriveOp?) && Appends(c, op, d, got, mid)
    requires op.DeriveOp? ==> !op.how.Created? && !c.slots[op.h.slot].isLent
    ensures |d.nodes| > |c.nodes| && Lineages(d, births + [BirthOf(c, op)])
  {
    NewBirthOk(c, births, op, d, got, mid);
    AppendKeepsSlots(c, births, op, d, got, mid);
    hide BirthOk, CreatedOnce, SlotOk, FillsOne, Linked;
    AppendKeepsBirths(c, births, d, BirthOf(c, op));
  }

  // Steps that append no node leave births alone.
  lemma OthersKeepLineages(c: Core, births: seq<Birth>, op: Op)
    requires Linked(c) && Lineages(c, births) && (op.DropOp? ==> op.obj < |c.objects|)
    requires !op.CreateOp? && !op.DeriveOp?
    ensures |CoreStep(c, op).nodes| == |c.nodes| && Lineages(CoreStep(c, op), births)
  {
    hide Contains, CreateObject, Derive, CreatedOnce, Dead, ParentsBelow;
    var d := CoreStep(c, op);
    forall i | 0 <= i < |births|
      ensures BirthOk(d, births, i)
    {
      assert BirthOk(c, births, i);
    }
    forall i | 0 <= i < |d.slots|
      ensures SlotOk(d, births, i)
    {
      assert SlotOk(c, births, i);
    }
  }

  lemma LineagesKept(w: World, op: Op)
    requires Linked(w.core) && Lineages(w.core, w.births) && Enabled(w, op)
    ensures Lineages(Step(w, op).core, Step(w, op).births)
  {
    hide Appends, Lineages, CreateObject, Derive;
    var c := w.core;
    if op.CreateOp? || op.DeriveOp? {
      var got, mid := AllOrNothing(c, op);
      if op.DeriveOp? && Derive(c, op.h, op.req, op.how).1.Ok? { DeriveAllowed(c, op.h, op.req, op.how); }
      if CoreStep(c, op) != c { AppendKeepsLineages(c, w.births, op, CoreStep(c, op), got, mid); }
    } else {
      OthersKeepLineages(c, w.births, op);
    }
  }

  // A derivation goes through exactly when its checks do.
  lemma DeriveAllowed(c: Core, h: Handle, req: Rights, how: How)
    requires Linked(c)
    ensures Derive(c, h, req, how).1.Ok?
       <==> Names(c, h) && Contains(c.slots[h.slot].rights, req) && !c.slots[h.slot].isLent
            && !Dead(c.nodes, c.slots[h.slot].node) && |c.nodes| < MAX_CAP_NODES
  {
    if DeriveError(c, h, req).None? {
      var mid := DeriveEffect(c, h, req, how);
    }
  }

  // What a step means for the objects and the accesses held on them.
  lemma StepHolds(w: World, op: Op)
    requires Linked(w.core) && Enabled(w, op)
    ensures Step(w, op).core == CoreStep(w.core, op)
    ensures op.DerefOp? ==>
      var r := Deref(w.core, op.h, op.flags).1;
      Step(w, op).held == if r.Ok? then w.held + multiset{r.value} else w.held
    ensures op.DropOp? ==> Step(w, op).held == w.held - multiset{op.obj}
    ensures !op.DerefOp? && !op.DropOp? ==> Step(w, op).held == w.held
  {
    hide CoreStep, BirthStep, Linked, Undue, Due, Deref;
  }

  lemma LentStays(c: Core, d: Core, h: Handle)
    requires LentOrGone(c, h) && SlotsAdvance(c, d)
    ensures LentOrGone(d, h)
  {
  }

  lemma PromisedWereLent(w: World, op: Op, h: Handle)
    requires Linked(w.core) && Loans(w) && Enabled(w, op) && h in Step(w, op).promised
    ensures LentOrGone(w.core, h)
  {
    hide Linked, CoreStep, BirthStep, Undue, Due, LentOrGone, Deref;
  }

  // The registry and what a pass has collected come from promises.
  lemma RegistryKept(w: World, op: Op)
    requires Linked(w.core) && Loans(w) && Enabled(w, op)
    ensures var v := Step(w, op);
            && v.pending <= v.promised.Keys
            && forall s :: s in v.expiries ==>
                 var h := Handle(s, v.expiries[s].generation);
                 h in v.promised && v.promised[h] == v.expiries[s].deadline
  {
    hide Linked, CoreStep, BirthStep, LentOrGone, Deref;
  }

  lemma LoansKept(w: World, op: Op)
    requires Linked(w.core) && Loans(w) && Enabled(w, op)
    ensures Loans(Step(w, op))
  {
    CoreAdvances(w.core, op);
    StepHolds(w, op);
    RegistryKept(w, op);
    hide Linked, Step, CoreStep, LentOrGone, SlotsAdvance, NodesAdvance;
    forall h | h in Step(w, op).promised
      ensures LentOrGone(Step(w, op).core, h)
    {
      PromisedWereLent(w, op, h);
      LentStays(w.core, CoreStep(w.core, op), h);
    }
  }

  // New objects have no access yet.
  lemma AppendKeepsAccesses(c: Core, d: Core, held: multiset<nat>, x: Object)
    requires Accesses(c, held) && x.refcount == 0 && (d.objects == c.objects || d.objects == c.objects + [x])
    ensures Accesses(d, held)
  {
  }

  lemma DerefKeepsAccesses(c: Core, h: Handle, flags: Rights, held: multiset<nat>)
    requires Linked(c) && Accesses(c, held)
    ensures var (d, r) := Deref(c, h, flags);
            Accesses(d, if r.Ok? then held + multiset{r.value} else held)
  {
    hide Dead, Contains, ParentsBelow, Linked;
    if CheckRights(c, h, flags).Ok? {
      CheckedIsLive(c, h, flags);
      hide CheckRights, Names;
      var o := c.slots[h.slot].obj;
      assert Deref(c, h, flags).1 == Ok(o);
    }
  }

  lemma CheckedIsLive(c: Core, h: Handle, flags: Rights)
    requires Linked(c) && CheckRights(c, h, flags).Ok?
    ensures Names(c, h) && c.slots[h.slot].obj < |c.objects| && c.objects[c.slots[h.slot].obj].valid
  {
    hide Dead, Contains, ParentsBelow;
  }

  lemma DropKeepsAccesses(c: Core, o: nat, held: multiset<nat>)
    requires o < |c.objects| && o in held && Accesses(c, held)
    ensures Accesses(DropAccess(c, o), held - multiset{o})
  {
  }

  lemma OthersKeepObjects(c: Core, op: Op)
    requires Linked(c) && !op.CreateOp? && !op.DeriveOp? && !op.DerefOp? && !op.DropOp?
    ensures CoreStep(c, op).objects == c.objects
  {
    hide Linked, Names, RevokeNode, CloseSlot;
  }

  lemma AccessesKept(w: World, op: Op)
    requires Linked(w.core) && Accesses(w.core, w.held) && Enabled(w, op)
    ensures Accesses(Step(w, op).core, Step(w, op).held)
  {
    var c := w.core;
    var d := CoreStep(c, op);
    StepHolds(w, op);
    hide Step, Appends, Linked, Accesses, BirthStep, Issue, Derived, Deref, DropAccess, Names, DeriveError;
    var none := Object(Memory, 0, 1, true);
    if op.CreateOp? || op.DeriveOp? {
      var got, mid := AllOrNothing(c, op);
      if d != c { AppendedObjects(c, op, d, got, mid); }
      AppendKeepsAccesses(c, d, w.held, if op.CreateOp? then Object(op.kind, 0, 1, true) else none);
    } else if op.DerefOp? {
      DerefKeepsAccesses(c, op.h, op.flags, w.held);
    } else if op.DropOp? {
      DropKeepsAccesses(c, op.obj, w.held);
    } else {
      OthersKeepObjects(c, op);
      AppendKeepsAccesses(c, d, w.held, none);
    }
  }

  lemma AppendedObjects(c: Core, op: Op, d: Core, got: Handle, mid: seq<Slot>)
    requires (op.CreateOp? || op.DeriveOp?) && Appends(c, op, d, got, mid)
    ensures d.objects == if op.CreateOp? then c.objects + [Object(op.kind, 0, 1, true)] else c.objects
  {
  }

  lemma StepKeepsInv(w: World, op: Op)
    requires Inv(w) && Enabled(w, op)
    ensures Inv(Step(w, op))
  {
    CoreKeepsLinked(w.core, op);
    LineagesKept(w, op);
    LoansKept(w, op);
    AccessesKept(w, op);
    hide Linked, Lineages, Loans, Accesses, Step;
  }
}
