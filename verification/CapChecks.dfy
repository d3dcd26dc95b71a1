// When a check of a capability passes, at one moment and over whole runs
// (kernel/src/cap.rs).
module CapChecks {
  import opened Wrappers
  import opened Cap
  import opened CapRuns
  import opened CapLaws

  // ------------------------------------------------------------ rights as bits

  function Half(r: Rights): Rights { r >> 1 }

  predicate HasBit(r: Rights, k: nat) {
    if k == 0 then r & 1 == 1 else HasBit(Half(r), k - 1)
  }

  // Every bit that is needed is there.
  ghost predicate HasAll(have: Rights, need: Rights) {
    forall k: nat :: HasBit(need, k) ==> HasBit(have, k)
  }

  lemma {:induction false} NoBits(k: nat)
    ensures !HasBit(0, k)
  {
    if k > 0 {
      assert Half(0) == 0;
      NoBits(k - 1);
    }
  }

  lemma ContainsHalves(have: Rights, need: Rights)
    ensures Contains(have, need) <==> (need & 1 == 1 ==> have & 1 == 1) && Contains(Half(have), Half(need))
  {
    hide Contains, Half;
    if Contains(have, need) {
      LowBitKept(have, need);
      HalfContained(have, need);
    } else {
      PartMissing(have, need);
    }
  }

  lemma LowBitKept(have: Rights, need: Rights)
    requires Contains(have, need)
    ensures need & 1 == 1 ==> have & 1 == 1
  {
  }

  lemma HalfContained(have: Rights, need: Rights)
    requires Contains(have, need)
    ensures Contains(Half(have), Half(need))
  {
  }

  lemma PartMissing(have: Rights, need: Rights)
    requires !Contains(have, need)
    ensures (need & 1 == 1 && have & 1 != 1) || !Contains(Half(have), Half(need))
  {
  }

  lemma NoneContained(have: Rights)
    ensures Contains(have, 0)
  {
  }

  lemma HalfIsLess(r: Rights)
    requires r != 0
    ensures Half(r) < r
  {
  }

  lemma AllHalves(have: Rights, need: Rights)
    ensures HasAll(have, need) <==> (need & 1 == 1 ==> have & 1 == 1) && HasAll(Half(have), Half(need))
  {
    hide Half;
    if HasAll(have, need) {
      assert HasBit(need, 0) ==> HasBit(have, 0);
      var h, n := Half(have), Half(need);
      forall k: nat | HasBit(n, k) ensures HasBit(h, k) {
        assert HasBit(need, k + 1) ==> HasBit(have, k + 1);
      }
    } else {
      var k: nat :| HasBit(need, k) && !HasBit(have, k);
      if k > 0 { assert HasBit(Half(need), k - 1) && !HasBit(Half(have), k - 1); }
    }
  }

  // Rights contain others exactly if they have every bit of them.
  lemma {:induction false} ContainsIsBits(have: Rights, need: Rights)
    ensures Contains(have, need) <==> HasAll(have, need)
    decreases need
  {
    ContainsHalves(have, need);
    NoneContained(have);
    hide Contains, Half;
    if need == 0 {
      forall k: nat ensures !HasBit(need, k) {
        NoBits(k);
      }
    } else {
      HalfIsLess(need);
      AllHalves(have, need);
      hide HasAll;
      ContainsIsBits(Half(have), Half(need));
    }
  }

  // ------------------------------------------------------------------ one check

  // The handle names a slot in use with its generation.
  predicate InUse(c: Core, h: Handle) {
    h.slot < |c.slots| && !c.slots[h.slot].free && c.slots[h.slot].generation == h.generation
  }

  // Neither the node nor anything it was derived from has been revoked.
  predicate Unrevoked(nodes: seq<Node>, n: nat)
    requires ParentsBelow(nodes) && n < |nodes|
  {
    forall top :: 0 <= top < |nodes| && Descends(nodes, n, top) ==> nodes[top].epoch == 0
  }

  lemma {:induction false} DeadIsRevokedAbove(nodes: seq<Node>, n: nat)
    requires ParentsBelow(nodes) && n < |nodes|
    ensures Dead(nodes, n) <==> !Unrevoked(nodes, n)
  {
    assert Descends(nodes, n, n);
    if nodes[n].parent.Some? {
      var p := nodes[n].parent.value;
      DeadIsRevokedAbove(nodes, p);
      assert forall top :: 0 <= top < |nodes| ==> (Descends(nodes, n, top) <==> n == top || Descends(nodes, p, top));
    }
  }

  // The first check that fails, in the order of the code.
  ghost predicate CheckFault(c: Core, h: Handle, needed: Rights, e: CapError)
    requires Linked(c)
  {
    if !InUse(c, h) then e == Invalid
    else
      var s := c.slots[h.slot];
      match e
      case NoRights => !HasAll(s.rights, needed)
      case Revoked => HasAll(s.rights, needed) && !Unrevoked(c.nodes, s.node)
      case Invalid => HasAll(s.rights, needed) && Unrevoked(c.nodes, s.node) && !c.objects[s.obj].valid
      case Exhausted => false
  }

  // A check passes exactly for a handle in use that has the rights, with nothing
  // revoked above it and its object alive; otherwise it names what fails first.
  lemma CheckIsExact(c: Core, h: Handle, needed: Rights)
    requires Linked(c)
    ensures CheckRights(c, h, needed).Ok?
       <==> InUse(c, h) && var s := c.slots[h.slot];
            HasAll(s.rights, needed) && Unrevoked(c.nodes, s.node) && c.objects[s.obj].valid
    ensures forall e :: CheckRights(c, h, needed) == Err(e) <==> CheckFault(c, h, needed, e)
  {
    if InUse(c, h) {
      DeadIsRevokedAbove(c.nodes, c.slots[h.slot].node);
      ContainsIsBits(c.slots[h.slot].rights, needed);
    }
    hide Dead, Unrevoked, ParentsBelow, Contains, HasAll;
  }

  // The check against a target is the check of the handle, once both are in use
  // and stand for one object.
  lemma TargetCheckIsExact(c: Core, h: Handle, target: Handle, needed: Rights)
    requires Linked(c)
    ensures CheckRightsForObject(c, h, target, needed) ==
      if !InUse(c, h) || !InUse(c, target) then Err(Invalid)
      else if c.slots[h.slot].obj != c.slots[target.slot].obj then Err(NoRights)
      else CheckRights(c, h, needed)
  {
    hide Linked, CheckRights;
  }

  // An access is given exactly if the check passes. It is on the object that the
  // handle stands for, which counts one more; nothing else changes.
  lemma DerefIsExact(c: Core, h: Handle, flags: Rights)
    requires Linked(c)
    ensures var (d, r) := Deref(c, h, flags);
            && (forall e :: r == Err(e) <==> CheckFault(c, h, flags, e))
            && (r.Err? ==> d == c)
            && (r.Ok? ==>
                 && InUse(c, h) && r.value == c.slots[h.slot].obj < |c.objects|
                 && d.slots == c.slots && d.nodes == c.nodes && |d.objects| == |c.objects|
                 && forall o :: 0 <= o < |c.objects| ==>
                      d.objects[o] == if o == r.value then c.objects[o].(refcount := c.objects[o].refcount + 1)
                                      else c.objects[o])
  {
    CheckIsExact(c, h, flags);
    hide Unrevoked, ParentsBelow, CheckRights, CheckFault, HasAll;
  }

  // The first check of a derivation that fails.
  ghost predicate DeriveFault(c: Core, h: Handle, req: Rights, e: CapError)
    requires Linked(c)
  {
    if !InUse(c, h) then e == Invalid
    else
      var s := c.slots[h.slot];
      match e
      case Invalid => false
      case NoRights => !HasAll(s.rights, req) || s.isLent
      case Revoked => HasAll(s.rights, req) && !s.isLent && !Unrevoked(c.nodes, s.node)
      case Exhausted =>
        HasAll(s.rights, req) && !s.isLent && Unrevoked(c.nodes, s.node) && |c.nodes| >= 2048
  }

  lemma DeriveErrorIsExact(c: Core, h: Handle, req: Rights, how: How)
    requires Linked(c)
    ensures forall e :: Derive(c, h, req, how).1 == Err(e) <==> DeriveFault(c, h, req, e)
  {
    DeriveAllowed(c, h, req, how);
    if InUse(c, h) {
      DeadIsRevokedAbove(c.nodes, c.slots[h.slot].node);
      ContainsIsBits(c.slots[h.slot].rights, req);
    }
    hide Dead, Unrevoked, ParentsBelow, Derived, Contains, HasAll;
  }

  // Creation fails exactly when objects or nodes have run out.
  lemma CreateIsExact(c: Core, kind: ObjectKind)
    requires Linked(c)
    ensures CreateObject(c, kind).1.Ok? <==> |c.objects| < 1024 && |c.nodes| < 2048
    ensures CreateObject(c, kind).1.Err? ==> CreateObject(c, kind).1.error == Exhausted
    ensures CreateObject(c, kind).1.Ok? ==>
      CreateObject(c, kind).0.objects == c.objects + [Object(kind, 0, 1, true)]
  {
    var got, mid := AllOrNothing(c, CreateOp(kind));
    hide Appends, Linked;
  }

  // Handles not in use can neither be closed nor revoked.
  lemma CloseAndRevokeErrors(c: Core, h: Handle)
    requires Linked(c)
    ensures Close(c, h).1 == (if InUse(c, h) then Ok(()) else Err(Invalid))
    ensures Revoke(c, h).1 == (if InUse(c, h) then Ok(()) else Err(Invalid))
  {
    hide Linked;
  }

  // ------------------------------------------------------------- who is in use

  // The step takes the handle away: it is closed, or transferred to another.
  predicate TakesAway(c: Core, op: Op, h: Handle)
    requires Linked(c)
  {
    || op == CloseOp(h)
    || (op.DeriveOp? && op.h == h && op.how.Transferred? && Issued(c, op).Some?)
  }

  // After a step exactly those handles are in use that were and have not been
  // taken away, and the one that was issued. Nobody can make up a handle.
  lemma InUseExactly(w: World, op: Op, h: Handle)
    requires Inv(w) && Enabled(w, op)
    ensures InUse(After(w, op).core, h)
       <==> (InUse(w.core, h) && !TakesAway(w.core, op, h)) || Issued(w.core, op) == Some(h)
  {
    StepHolds(w, op);
    hide Inv, Step, BirthStep, Lineages, Loans, Accesses;
    assert After(w, op).core == CoreStep(w.core, op);
    CoreUse(w.core, op, h);
  }

  lemma CoreUse(c: Core, op: Op, h: Handle)
    requires Linked(c) && (op.DropOp? ==> op.obj < |c.objects|) && (op.DeriveOp? ==> !op.how.Created?)
    ensures InUse(CoreStep(c, op), h) <==> (InUse(c, h) && !TakesAway(c, op, h)) || Issued(c, op) == Some(h)
  {
    hide Linked, CreateObject, Derive, Dead, Contains, Meet, CheckRights, RevokeNode;
    if op.CreateOp? || op.DeriveOp? {
      var got, mid := AllOrNothing(c, op);
      if Issued(c, op).Some? { AppendedUse(c, op, CoreStep(c, op), got, mid, h); }
    }
  }

  lemma AppendedUse(c: Core, op: Op, d: Core, got: Handle, mid: seq<Slot>, h: Handle)
    requires Linked(c) && (op.CreateOp? || op.DeriveOp?) && Appends(c, op, d, got, mid)
    ensures InUse(d, h)
       <==> h == got || (InUse(c, h) && !(op.DeriveOp? && op.h == h && op.how.Transferred?))
  {
    hide Linked, Meet, Contains;
  }

  // ------------------------------------------------------------- what is issued

  // The rights that an issued handle is born with: all ten, or those asked for.
  function BornWith(op: Op): Rights {
    if op.DeriveOp? then op.req else 0x3FF
  }

  // Derivations do not ask whether the object is still alive.
  predicate BornAlive(c: Core, op: Op)
    requires Linked(c)
  {
    op.DeriveOp? ==> InUse(c, op.h) && c.objects[c.slots[op.h.slot].obj].valid
  }

  // An issued handle is in use, for a new object or for that of the handle it was
  // derived from. It passes a check exactly for the rights it was born with, unless
  // it was derived from a handle to an object that was dead already.
  lemma IssuedPasses(w: World, op: Op, h: Handle, needed: Rights)
    requires Inv(w) && Enabled(w, op) && Issued(w.core, op) == Some(h)
    ensures var d := After(w, op).core;
            && InUse(d, h)
            && d.slots[h.slot].obj == (if op.CreateOp? then |w.core.objects|
                                       else w.core.slots[op.h.slot].obj)
            && (CheckRights(d, h, needed).Ok? <==> HasAll(BornWith(op), needed) && BornAlive(w.core, op))
  {
    StepHolds(w, op);
    InUseExactly(w, op, h);
    assert After(w, op).core == CoreStep(w.core, op);
    hide Inv, Step, BirthStep, Lineages, Loans, Accesses, After, CoreStep, Contains, HasAll, CheckRights, Meet;
    BornAs(w.core, op, CoreStep(w.core, op), h);
    CheckIsExact(After(w, op).core, h, needed);
  }

  lemma BornAs(c: Core, op: Op, d: Core, h: Handle)
    requires Linked(c) && (op.CreateOp? || op.DeriveOp?) && (op.DeriveOp? ==> !op.how.Created?)
    requires Issued(c, op) == Some(h) && d == CoreStep(c, op) && Linked(d)
    ensures h.slot < |d.slots|
    ensures var s := d.slots[h.slot];
            && !s.free && s.rights == BornWith(op) && s.node == |c.nodes|
            && s.obj == (if op.CreateOp? then |c.objects| else c.slots[op.h.slot].obj)
            && (d.objects[s.obj].valid <==> BornAlive(c, op))
            && Unrevoked(d.nodes, s.node)
  {
    var got, mid := AllOrNothing(c, op);
    if op.DeriveOp? {
      DeriveAllowed(c, op.h, op.req, op.how);
      MeetIsRequest(c.slots[op.h.slot].rights, op.req);
    }
    hide CoreStep, CreateObject, Derive, Meet, Contains, Dead, Unrevoked, ParentsBelow;
    var node := if op.CreateOp? then Node(None, 0) else ChildNode(c.slots[op.h.slot], op.how);
    assert d.nodes == c.nodes + [node];
    NewNodeUnrevoked(c.nodes, node);
    hide FillsOne;
    AppendedSlot(c, op, d, got, mid);
  }

  lemma AppendedSlot(c: Core, op: Op, d: Core, got: Handle, mid: seq<Slot>)
    requires (op.CreateOp? || op.DeriveOp?) && Appends(c, op, d, got, mid)
    requires op.DeriveOp? ==> Meet(c.slots[op.h.slot].rights, op.req) == op.req
    ensures got.slot < |d.slots|
    ensures var s := d.slots[got.slot];
            && !s.free && s.rights == BornWith(op) && s.node == |c.nodes|
            && s.obj == (if op.CreateOp? then |c.objects| else c.slots[op.h.slot].obj)
  {
    hide Meet;
  }

  lemma NewNodeUnrevoked(nodes: seq<Node>, node: Node)
    requires ParentsBelow(nodes) && ParentsBelow(nodes + [node]) && node.epoch == 0
    requires node.parent.Some? ==> node.parent.value < |nodes| && !Dead(nodes, node.parent.value)
    ensures Unrevoked(nodes + [node], |nodes|)
  {
    var more := nodes + [node];
    assert more[|nodes|] == node;
    if node.parent.Some? { DeadInPrefix(nodes, node, node.parent.value); }
    DeadIsRevokedAbove(more, |nodes|);
  }

  // ------------------------------------------------------------- whole runs

  // The step ends the authority of a handle: it takes the handle away, revokes
  // something on its lineage, or drops the last access that is held on its object.
  predicate Ends(w: World, op: Op, h: Handle)
    requires Inv(w)
  {
    || TakesAway(w.core, op, h)
    || (InUse(w.core, h) && var s := w.core.slots[h.slot];
        || ((op.RevokeOp? || op.ExpireOp?) && InUse(w.core, op.h)
            && Descends(w.core.nodes, s.node, w.core.slots[op.h.slot].node))
        || (op == DropOp(s.obj) && w.held[s.obj] == 1))
  }

  lemma NotIssuedAgain(w: World, op: Op, h: Handle)
    requires Inv(w) && Enabled(w, op) && InUse(w.core, h)
    ensures Issued(w.core, op) != Some(h)
  {
    assert Run(w, []) == w && Permits(w, []);
    hide Inv, Run, Permits, Issued, Enabled;
    if Issued(w.core, op) == Some(h) { HandlesAreFresh(w, [], op); }
  }

  // A handle that passes a check passes it after a step exactly if the step does
  // not end its authority.
  lemma StepDecides(w: World, op: Op, h: Handle, needed: Rights)
    requires Inv(w) && Enabled(w, op) && Passes(w, h, needed)
    ensures Passes(After(w, op), h, needed) <==> !Ends(w, op, h)
  {
    var v := After(w, op);
    var s := PassingSlot(w, h, needed);
    StepAdvances(w, op);
    InUseExactly(w, op, h);
    NotIssuedAgain(w, op, h);
    StepKillsExactly(w, op, s.node);
    ObjectDiesByLastDrop(w, op, s.obj);
    hide Inv, After, Enabled, Dead, Descends, Issued, TakesAway, Contains;
    if InUse(v.core, h) { assert v.core.slots[h.slot] == s; }
  }

  lemma PassingSlot(w: World, h: Handle, needed: Rights) returns (s: Slot)
    requires Inv(w) && Passes(w, h, needed)
    ensures InUse(w.core, h) && s == w.core.slots[h.slot]
    ensures s.node < |w.core.nodes| && s.obj < |w.core.objects|
    ensures Contains(s.rights, needed) && !Dead(w.core.nodes, s.node) && w.core.objects[s.obj].valid
  {
    s := w.core.slots[h.slot];
    hide Dead, Contains, Lineages, Loans, Accesses;
  }

  // No step of a run ends the authority of the handle.
  predicate Undisturbed(w: World, ops: seq<Op>, h: Handle)
    requires Inv(w) && Permits(w, ops)
    decreases |ops|
  {
    ops == [] || (!Ends(w, ops[0], h) && Undisturbed(After(w, ops[0]), ops[1..], h))
  }

  // What a check of the handle needs can be lost in three ways, each for good.
  lemma LostForGood(w: World, v: World, ops: seq<Op>, h: Handle, needed: Rights)
    requires Inv(w) && Inv(v) && SlotsAdvance(w.core, v.core) && Passes(w, h, needed) && !Passes(v, h, needed)
    requires Permits(v, ops)
    ensures !Passes(Run(v, ops), h, needed)
  {
    RunAdvances(v, ops);
    var u := Run(v, ops);
    if InUse(u.core, h) {
      assert InUse(v.core, h) && v.core.slots[h.slot] == w.core.slots[h.slot] == u.core.slots[h.slot];
      var s := w.core.slots[h.slot];
      if Dead(v.core.nodes, s.node) { DeadForever(v, s.node, ops); }
    }
    hide Inv, Permits, Run, Contains, Dead;
  }

  // Whatever runs: a handle that passes a check still passes it at the end exactly
  // if no step has ended its authority.
  lemma {:induction false} RunDecides(w: World, ops: seq<Op>, h: Handle, needed: Rights)
    requires Inv(w) && Permits(w, ops) && Passes(w, h, needed)
    ensures Passes(Run(w, ops), h, needed) <==> Undisturbed(w, ops, h)
    decreases |ops|
  {
    hide Inv, Passes, Ends, After, Enabled;
    if ops != [] {
      var v := After(w, ops[0]);
      StepDecides(w, ops[0], h, needed);
      if Ends(w, ops[0], h) {
        StepAdvances(w, ops[0]);
        LostForGood(w, v, ops[1..], h, needed);
      } else {
        RunDecides(v, ops[1..], h, needed);
      }
    }
  }

  lemma StepAdvances(w: World, op: Op)
    requires Inv(w) && Enabled(w, op)
    ensures SlotsAdvance(w.core, After(w, op).core)
  {
    CoreAdvances(w.core, op);
    StepHolds(w, op);
    hide Inv, Step, CoreStep, SlotsAdvance;
  }

  // From its birth on, through every run, a handle passes exactly the checks for
  // the rights it was born with, as long as it has not been closed or transferred
  // away, nothing on its lineage has been revoked or expired, and the last access
  // to its object has not been dropped.
  lemma IssuedPassesUntilEnded(w: World, op: Op, h: Handle, ops: seq<Op>, needed: Rights)
    requires Inv(w) && Enabled(w, op) && Issued(w.core, op) == Some(h) && Permits(After(w, op), ops)
    ensures Passes(Run(After(w, op), ops), h, needed)
       <==> HasAll(BornWith(op), needed) && BornAlive(w.core, op) && Undisturbed(After(w, op), ops, h)
  {
    var v := After(w, op);
    IssuedPasses(w, op, h, needed);
    hide Inv, Ends, After, Enabled, Issued, HasAll, BornAlive, Undisturbed;
    if Passes(v, h, needed) {
      RunDecides(v, ops, h, needed);
    } else {
      NeverPasses(v, ops, h, needed);
    }
  }

  // A handle in use that fails a check fails it for good.
  lemma NeverPasses(v: World, ops: seq<Op>, h: Handle, needed: Rights)
    requires Inv(v) && Permits(v, ops) && InUse(v.core, h) && !Passes(v, h, needed)
    ensures !Passes(Run(v, ops), h, needed)
  {
    RunAdvances(v, ops);
    var u := Run(v, ops);
    if InUse(u.core, h) {
      var s := v.core.slots[h.slot];
      assert u.core.slots[h.slot] == s;
      if Dead(v.core.nodes, s.node) { DeadForever(v, s.node, ops); }
    }
    hide Inv, Permits, Run, Contains, Dead;
  }
}
