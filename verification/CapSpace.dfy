// The capability core as the kernel keeps it: three growing tables changed in
// place, each operation proved to take the step that Cap describes
// (kernel/src/cap.rs).
module CapSpace {
  import opened Wrappers
  import opened Cap
  import opened CapRuns
  import opened CapLaws

  // destroy_owned: revoke, then close; only the second result is reported.
  function Destroy(c: Core, h: Handle): (r: (Core, Result<(), CapError>))
    requires Linked(c)
    ensures Linked(r.0)
  {
    var d := Revoke(c, h).0;
    CoreKeepsLinked(c, RevokeOp(h));
    CoreKeepsLinked(d, CloseOp(h));
    Close(d, h)
  }

  // The whole lineage below the handle dies with it and nothing else does.
  lemma DestroyIsExact(w: World, h: Handle, g: Handle, needed: Rights)
    requires Inv(w) && Names(w.core, h) && g != h
    ensures Destroy(w.core, h).1.Ok? && CheckRights(Destroy(w.core, h).0, h, needed) == Err(Invalid)
    ensures CheckRights(Destroy(w.core, h).0, g, needed).Ok?
       <==> CheckRights(w.core, g, needed).Ok?
            && !Descends(w.core.nodes, w.core.slots[g.slot].node, w.core.slots[h.slot].node)
  {
    RevokeIsExactForHandles(w, h, g, needed);
    hide Inv, Dead, Descends, Contains;
  }

  // Every handle of a list is revoked that is still valid.
  function RevokeAll(c: Core, hs: seq<Handle>): (d: Core)
    requires Linked(c)
    ensures Linked(d) && d.slots == c.slots
  {
    if hs == [] then c
    else
      var d := RevokeAll(c, hs[..|hs| - 1]);
      CoreKeepsLinked(d, RevokeOp(hs[|hs| - 1]));
      Revoke(d, hs[|hs| - 1]).0
  }

  lemma {:induction false} SameParents(c: Core, hs: seq<Handle>)
    requires Linked(c)
    ensures |RevokeAll(c, hs).nodes| == |c.nodes|
    ensures forall i :: 0 <= i < |c.nodes| ==> RevokeAll(c, hs).nodes[i].parent == c.nodes[i].parent
  {
    if hs != [] { SameParents(c, hs[..|hs| - 1]); }
  }

  lemma {:induction false} SameDescent(nodes: seq<Node>, others: seq<Node>, n: nat, top: nat)
    requires ParentsBelow(nodes) && ParentsBelow(others) && |nodes| == |others| && n < |nodes|
    requires forall i :: 0 <= i < |nodes| ==> nodes[i].parent == others[i].parent
    ensures Descends(nodes, n, top) == Descends(others, n, top)
  {
    if nodes[n].parent.Some? { SameDescent(nodes, others, nodes[n].parent.value, top); }
  }

  // The node descends from one of these handles, as long as they are valid.
  ghost predicate Below(c: Core, hs: seq<Handle>, n: nat)
    requires Linked(c) && n < |c.nodes|
  {
    exists k :: 0 <= k < |hs| && Names(c, hs[k]) && Descends(c.nodes, n, c.slots[hs[k].slot].node)
  }

  lemma BelowOneMore(c: Core, hs: seq<Handle>, h: Handle, n: nat)
    requires Linked(c) && n < |c.nodes|
    ensures Below(c, hs + [h], n)
       <==> Below(c, hs, n) || (Names(c, h) && Descends(c.nodes, n, c.slots[h.slot].node))
  {
    var more := hs + [h];
    if Below(c, hs, n) {
      var k :| 0 <= k < |hs| && Names(c, hs[k]) && Descends(c.nodes, n, c.slots[hs[k].slot].node);
      assert more[k] == hs[k];
    }
    if Names(c, h) && Descends(c.nodes, n, c.slots[h.slot].node) { assert more[|hs|] == h; }
  }

  // Revoking a list of handles kills exactly what descends from a valid one of them.
  lemma {:induction false} RevokeAllIsExact(c: Core, hs: seq<Handle>, n: nat)
    requires Linked(c) && n < |c.nodes|
    ensures |RevokeAll(c, hs).nodes| == |c.nodes|
    ensures Dead(RevokeAll(c, hs).nodes, n) <==> Dead(c.nodes, n) || Below(c, hs, n)
  {
    hide Dead, Descends;
    if hs != [] {
      hide Below;
      var rest, h := hs[..|hs| - 1], hs[|hs| - 1];
      var d := RevokeAll(c, rest);
      RevokeAllIsExact(c, rest, n);
      SameParents(c, rest);
      BelowOneMore(c, rest, h, n);
      assert hs == rest + [h];
      if Names(c, h) {
        SameDescent(c.nodes, d.nodes, n, c.slots[h.slot].node);
        RevokeIsExact(d.nodes, c.slots[h.slot].node, n);
      }
    } else {
      SameParents(c, hs);
    }
  }

  function CountNamed(c: Core, hs: seq<Handle>): nat {
    if hs == [] then 0
    else CountNamed(c, hs[..|hs| - 1]) + (if Names(c, hs[|hs| - 1]) then 1 else 0)
  }

  class Space {
    var slots: seq<Slot>
    var nodes: seq<Node>
    var objects: seq<Object>
    var expiries: map<nat, Entry>

    function State(): Core
      reads this
    {
      Core(slots, nodes, objects)
    }

    ghost predicate Valid()
      reads this
    {
      Linked(State())
    }

    constructor ()
      ensures Valid() && State() == START && expiries == map[]
    {
      slots, nodes, objects, expiries := [], [], [], map[];
    }

    // Walks up the lineage until a revoked node or the root.
    method IsRevoked(n: nat) returns (revoked: bool)
      requires ParentsBelow(nodes) && n < |nodes|
      ensures revoked == Dead(nodes, n)
    {
      var curr: nat := n;
      while true
        invariant curr < |nodes| && Dead(nodes, n) == Dead(nodes, curr)
        decreases curr
      {
        if nodes[curr].epoch > 0 {
          return true;
        }
        match nodes[curr].parent
        case Some(p) => curr := p;
        case None => break;
      }
      return false;
    }

    method AllocateSlot() returns (r: Result<nat, CapError>)
      modifies this`slots
      ensures r == if WithFreeSlot(old(slots)).Some? then Ok(FirstFree(old(slots))) else Err(Exhausted)
      ensures slots == if r.Ok? then WithFreeSlot(old(slots)).value else old(slots)
    {
      for i := 0 to |slots|
        invariant forall k :: 0 <= k < i ==> !slots[k].free
      {
        if slots[i].free {
          return Ok(i);
        }
      }
      if |slots| >= MAX_CAP_SLOTS {
        return Err(Exhausted);
      }
      var idx := |slots|;
      slots := slots + [EMPTY_SLOT];
      return Ok(idx);
    }

    // Puts a capability for the newest node into a slot.
    method Occupy(obj: nat, rights: Rights, lent: bool) returns (r: Result<Handle, CapError>)
      requires |nodes| > 0
      modifies this`slots
      ensures (State(), r)
           == Issue(Core(old(slots), nodes[..|nodes| - 1], objects), nodes[|nodes| - 1], obj, rights, lent)
    {
      assert nodes == nodes[..|nodes| - 1] + [nodes[|nodes| - 1]];
      var found := AllocateSlot();
      if found.Err? {
        return Err(Exhausted);
      }
      var i := found.value;
      var gen := slots[i].generation;
      slots := slots[i := Slot(|nodes| - 1, obj, rights, gen, false, lent)];
      return Ok(Handle(i, gen));
    }

    method CreateObject(kind: ObjectKind) returns (r: Result<Handle, CapError>)
      requires Valid()
      modifies this`slots, this`nodes, this`objects
      ensures Valid() && (State(), r) == Cap.CreateObject(old(State()), kind)
    {
      CoreKeepsLinked(State(), CreateOp(kind));
      if |objects| >= MAX_CAP_OBJECTS || |nodes| >= MAX_CAP_NODES {
        return Err(Exhausted);
      }
      var obj := |objects|;
      objects := objects + [Object(kind, 0, 1, true)];
      nodes := nodes + [Node(None, 0)];
      assert nodes[..|nodes| - 1] == old(nodes);
      r := Occupy(obj, ALL_RIGHTS, false);
    }

    // grant, lend and transfer share every step but the parent and the source.
    method Derive(h: Handle, req: Rights, how: How) returns (r: Result<Handle, CapError>)
      requires Valid() && !how.Created?
      modifies this`slots, this`nodes
      ensures Valid() && (State(), r) == Cap.Derive(old(State()), h, req, how)
    {
      hide Contains, Meet, Issue, Dead;
      CoreKeepsLinked(State(), DeriveOp(h, req, how));
      if h.slot >= |slots| {
        return Err(Invalid);
      }
      var s := slots[h.slot];
      if s.free || s.generation != h.generation {
        return Err(Invalid);
      }
      if !Contains(s.rights, req) || s.isLent {
        return Err(NoRights);
      }
      var revoked := IsRevoked(s.node);
      if revoked {
        return Err(Revoked);
      }
      if |nodes| >= MAX_CAP_NODES {
        return Err(Exhausted);
      }
      nodes := nodes + [ChildNode(s, how)];
      assert nodes[..|nodes| - 1] == old(nodes);
      r := Occupy(s.obj, Meet(s.rights, req), how.Lent?);
      if r.Ok? && how.Transferred? {
        DeriveAllowed(old(State()), h, req, how);
        ghost var mid := DeriveEffect(old(State()), h, req, how);
        slots := CloseSlot(slots, h.slot);
      }
    }

    method Grant(h: Handle, req: Rights) returns (r: Result<Handle, CapError>)
      requires Valid()
      modifies this`slots, this`nodes
      ensures Valid() && (State(), r) == Cap.Derive(old(State()), h, req, Granted)
    {
      r := Derive(h, req, Granted);
    }

    method Lend(h: Handle, req: Rights) returns (r: Result<Handle, CapError>)
      requires Valid()
      modifies this`slots, this`nodes
      ensures Valid() && (State(), r) == Cap.Derive(old(State()), h, req, Lent)
    {
      r := Derive(h, req, Lent);
    }

    method Transfer(h: Handle, req: Rights) returns (r: Result<Handle, CapError>)
      requires Valid()
      modifies this`slots, this`nodes
      ensures Valid() && (State(), r) == Cap.Derive(old(State()), h, req, Transferred)
    {
      r := Derive(h, req, Transferred);
    }

    method Close(h: Handle) returns (r: Result<(), CapError>)
      requires Valid()
      modifies this`slots
      ensures Valid() && (State(), r) == Cap.Close(old(State()), h)
    {
      CoreKeepsLinked(State(), CloseOp(h));
      if h.slot >= |slots| || slots[h.slot].free || slots[h.slot].generation != h.generation {
        return Err(Invalid);
      }
      slots := CloseSlot(slots, h.slot);
      return Ok(());
    }

    method Revoke(h: Handle) returns (r: Result<(), CapError>)
      requires Valid()
      modifies this`nodes
      ensures Valid() && (State(), r) == Cap.Revoke(old(State()), h)
    {
      CoreKeepsLinked(State(), RevokeOp(h));
      if h.slot >= |slots| || slots[h.slot].free || slots[h.slot].generation != h.generation {
        return Err(Invalid);
      }
      var n := slots[h.slot].node;
      nodes := nodes[n := Node(nodes[n].parent, Bump(nodes[n].epoch))];
      return Ok(());
    }

    method DestroyOwned(h: Handle) returns (r: Result<(), CapError>)
      requires Valid()
      modifies this`slots, this`nodes
      ensures Valid() && (State(), r) == Destroy(old(State()), h)
    {
      var revoked := Revoke(h);
      r := Close(h);
    }

    method CheckRights(h: Handle, needed: Rights) returns (r: Result<(), CapError>)
      requires Valid()
      ensures r == Cap.CheckRights(State(), h, needed)
    {
      if h.slot >= |slots| || slots[h.slot].free || slots[h.slot].generation != h.generation {
        return Err(Invalid);
      }
      var s := slots[h.slot];
      if !Contains(s.rights, needed) {
        return Err(NoRights);
      }
      var revoked := IsRevoked(s.node);
      if revoked {
        return Err(Revoked);
      }
      return if objects[s.obj].valid then Ok(()) else Err(Invalid);
    }

    method CheckRightsForObject(h: Handle, target: Handle, needed: Rights) returns (r: Result<(), CapError>)
      requires Valid()
      ensures r == Cap.CheckRightsForObject(State(), h, target, needed)
    {
      if h.slot >= |slots| || target.slot >= |slots| {
        return Err(Invalid);
      }
      var s, t := slots[h.slot], slots[target.slot];
      if s.free || s.generation != h.generation || t.free || t.generation != target.generation {
        return Err(Invalid);
      }
      if s.obj != t.obj {
        return Err(NoRights);
      }
      r := CheckRights(h, needed);
    }

    // Check and reference count in one critical section.
    method Deref(h: Handle, flags: Rights) returns (r: Result<nat, CapError>)
      requires Valid()
      modifies this`objects
      ensures Valid() && (State(), r) == Cap.Deref(old(State()), h, flags)
    {
      CoreKeepsLinked(State(), DerefOp(h, flags));
      hide Contains, Dead;
      var checked := CheckRights(h, flags);
      if checked.Err? {
        return Err(checked.error);
      }
      var o := slots[h.slot].obj;
      objects := objects[o := objects[o].(refcount := objects[o].refcount + 1)];
      return Ok(o);
    }

    method DropAccess(o: nat)
      requires Valid() && o < |objects|
      modifies this`objects
      ensures Valid() && State() == Cap.DropAccess(old(State()), o)
    {
      CoreKeepsLinked(State(), DropOp(o));
      if objects[o].valid && objects[o].refcount > 0 {
        objects := objects[o := objects[o].(refcount := objects[o].refcount - 1)];
        if objects[o].refcount == 0 {
          objects := objects[o := objects[o].(valid := false, generation := objects[o].generation + 1)];
        }
      }
    }

    // The second half of lend_with_expiry, under the registry's own lock.
    method Register(h: Handle, deadline: nat)
      modifies this`expiries
      ensures expiries == old(expiries)[h.slot := Entry(h.generation, deadline)]
    {
      expiries := expiries[h.slot := Entry(h.generation, deadline)];
    }

    // The first phase of an expiry pass takes what is due out of the registry.
    method CollectDue(tick: nat) returns (due: seq<Handle>)
      modifies this`expiries
      ensures expiries == Undue(old(expiries), tick)
      ensures forall h :: h in due <==> h in Due(old(expiries), tick)
      ensures forall i, j :: 0 <= i < j < |due| ==> due[i].slot != due[j].slot
    {
      due := [];
      var keys := set s | s in expiries && expiries[s].deadline <= tick;
      while keys != {}
        invariant keys <= expiries.Keys <= old(expiries).Keys
        invariant forall s :: s in expiries ==> expiries[s] == old(expiries)[s]
        invariant forall s :: s in keys <==> s in expiries && expiries[s].deadline <= tick
        invariant forall h :: h in due <==>
          h.slot in old(expiries) && h.slot !in expiries && old(expiries)[h.slot].generation == h.generation
        invariant forall s :: s in old(expiries) && s !in expiries ==> old(expiries)[s].deadline <= tick
        invariant forall i, j :: 0 <= i < j < |due| ==> due[i].slot != due[j].slot
        decreases |keys|
      {
        var slot :| slot in keys;
        assert forall k :: 0 <= k < |due| ==> due[k] in due && due[k].slot != slot;
        due := due + [Handle(slot, expiries[slot].generation)];
        expiries := expiries - {slot};
        keys := keys - {slot};
      }
    }

    // The second phase revokes what was collected; stale handles count for nothing.
    method RevokeDue(due: seq<Handle>) returns (count: nat)
      requires Valid()
      modifies this`nodes
      ensures Valid() && State() == RevokeAll(old(State()), due) && count == CountNamed(old(State()), due)
    {
      count := 0;
      for i := 0 to |due|
        invariant Valid() && State() == RevokeAll(old(State()), due[..i])
        invariant count == CountNamed(old(State()), due[..i])
      {
        assert due[..i + 1][..i] == due[..i];
        var r := Revoke(due[i]);
        if r.Ok? { count := count + 1; }
      }
      assert due[..|due|] == due;
    }
  }
}
