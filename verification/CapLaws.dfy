// The guarantees of the capability core over whole runs (kernel/src/cap.rs).
module CapLaws {
  import opened Wrappers
  import opened Cap
  import opened CapRuns

  // -------------------------------------------------------------------- runs

  function After(w: World, op: Op): (v: World)
    requires Inv(w) && Enabled(w, op)
    ensures Inv(v)
  {
    StepKeepsInv(w, op);
    Step(w, op)
  }

  predicate Permits(w: World, ops: seq<Op>)
    requires Inv(w)
    decreases |ops|
  {
    ops == [] || (Enabled(w, ops[0]) && Permits(After(w, ops[0]), ops[1..]))
  }

  // Every run keeps the invariant.
  function Run(w: World, ops: seq<Op>): (v: World)
    requires Inv(w) && Permits(w, ops)
    ensures Inv(v)
    decreases |ops|
  {
    if ops == [] then w else Run(After(w, ops[0]), ops[1..])
  }

  lemma FirstWorld()
    ensures Inv(FIRST)
  {
  }

  // The state in which every run begins.
  function Boot(): (w: World)
    ensures Inv(w)
  {
    FirstWorld();
    FIRST
  }

  lemma {:induction false} RunAdvances(w: World, ops: seq<Op>)
    requires Inv(w) && Permits(w, ops)
    ensures SlotsAdvance(w.core, Run(w, ops).core) && NodesAdvance(w.core, Run(w, ops).core)
    decreases |ops|
  {
    if ops == [] {
    } else {
      CoreAdvances(w.core, ops[0]);
      var v := After(w, ops[0]);
      RunAdvances(v, ops[1..]);
      AdvanceTransitive(w.core, v.core, Run(w, ops).core);
    }
  }

  lemma AdvanceTransitive(b: Core, c: Core, d: Core)
    requires SlotsAdvance(b, c) && NodesAdvance(b, c) && SlotsAdvance(c, d) && NodesAdvance(c, d)
    ensures SlotsAdvance(b, d) && NodesAdvance(b, d)
  {
  }

  // ----------------------------------------------------------------- handles

  // The slot has moved on past this handle.
  predicate Gone(c: Core, h: Handle) {
    h.slot < |c.slots| && c.slots[h.slot].generation > h.generation
  }

  lemma GoneForever(w: World, h: Handle, ops: seq<Op>)
    requires Inv(w) && Permits(w, ops) && Gone(w.core, h)
    ensures Gone(Run(w, ops).core, h) && !Names(Run(w, ops).core, h)
  {
    RunAdvances(w, ops);
  }

  // A closed handle never becomes valid again, whatever reuses its slot.
  lemma ClosedNeverReturns(w: World, h: Handle, ops: seq<Op>, needed: Rights)
    requires Inv(w) && Close(w.core, h).1.Ok?
    requires Permits(After(w, CloseOp(h)), ops)
    ensures CheckRights(Run(After(w, CloseOp(h)), ops).core, h, needed) == Err(Invalid)
  {
    GoneForever(After(w, CloseOp(h)), h, ops);
  }

  // Nor does the source of a transfer.
  lemma TransferredNeverReturns(w: World, h: Handle, req: Rights, ops: seq<Op>, needed: Rights)
    requires Inv(w) && Derive(w.core, h, req, Transferred).1.Ok?
    requires Permits(After(w, DeriveOp(h, req, Transferred)), ops)
    ensures CheckRights(Run(After(w, DeriveOp(h, req, Transferred)), ops).core, h, needed) == Err(Invalid)
  {
    var v := After(w, DeriveOp(h, req, Transferred));
    assert Gone(v.core, h) by {
      DeriveAllowed(w.core, h, req, Transferred);
      var mid := DeriveEffect(w.core, h, req, Transferred);
    }
    hide After, Derive;
    GoneForever(v, h, ops);
  }

  // As long as a handle is valid it stands for the same capability.
  lemma SameCapability(w: World, h: Handle, ops: seq<Op>)
    requires Inv(w) && Permits(w, ops) && Names(w.core, h) && Names(Run(w, ops).core, h)
    ensures Run(w, ops).core.slots[h.slot] == w.core.slots[h.slot]
  {
    RunAdvances(w, ops);
  }

  // The handle that an operation hands out.
  function Issued(c: Core, op: Op): Option<Handle>
    requires Linked(c)
  {
    if op.CreateOp? then CreateObject(c, op.kind).1.ToOption()
    else if op.DeriveOp? then Derive(c, op.h, op.req, op.how).1.ToOption()
    else None
  }

  // No handle is ever handed out twice: one that was valid at any earlier moment
  // cannot be issued again.
  lemma HandlesAreFresh(w: World, ops: seq<Op>, op: Op)
    requires Inv(w) && Permits(w, ops)
    requires Issued(Run(w, ops).core, op).Some?
    ensures !Names(w.core, Issued(Run(w, ops).core, op).value)
  {
    RunAdvances(w, ops);
    var c := Run(w, ops).core;
    hide Permits, Run, Inv, Derive, CreateObject;
    var got, mid := AllOrNothing(c, op);
  }

  lemma LiveHandlesNameDistinctNodes(w: World, g: Handle, h: Handle)
    requires Inv(w) && Names(w.core, g) && Names(w.core, h) && g != h
    ensures w.core.slots[g.slot].node != w.core.slots[h.slot].node
  {
  }

  // -------------------------------------------------------------- revocation

  // A node stays dead when nodes are added and epochs grow.
  lemma {:induction false} DeadStays(c: Core, d: Core, n: nat)
    requires ParentsBelow(c.nodes) && ParentsBelow(d.nodes) && NodesAdvance(c, d) && n < |c.nodes|
    requires Dead(c.nodes, n)
    ensures Dead(d.nodes, n)
  {
    if c.nodes[n].epoch == 0 { DeadStays(c, d, c.nodes[n].parent.value); }
  }

  lemma DeadForever(w: World, n: nat, ops: seq<Op>)
    requires Inv(w) && Permits(w, ops) && n < |w.core.nodes| && Dead(w.core.nodes, n)
    ensures n < |Run(w, ops).core.nodes| && Dead(Run(w, ops).core.nodes, n)
  {
    RunAdvances(w, ops);
    DeadStays(w.core, Run(w, ops).core, n);
  }

  // The node that a step revokes, if it revokes one.
  function Victim(c: Core, op: Op): Option<nat>
    requires Linked(c)
  {
    if (op.RevokeOp? || op.ExpireOp?) && Names(c, op.h) then Some(c.slots[op.h.slot].node) else None
  }

  // A step kills exactly the node it revokes and what was derived from it.
  lemma StepKillsExactly(w: World, op: Op, n: nat)
    requires Inv(w) && Enabled(w, op) && n < |w.core.nodes|
    ensures n < |After(w, op).core.nodes|
    ensures Dead(After(w, op).core.nodes, n)
       <==> Dead(w.core.nodes, n) || (Victim(w.core, op).Some? && Descends(w.core.nodes, n, Victim(w.core, op).value))
  {
    StepHolds(w, op);
    hide Step, Lineages, Loans, Accesses, BirthStep;
    assert After(w, op).core == CoreStep(w.core, op);
    CoreKillsExactly(w.core, op, n);
  }

  lemma CoreKillsExactly(c: Core, op: Op, n: nat)
    requires Linked(c) && (op.DropOp? ==> op.obj < |c.objects|) && Linked(CoreStep(c, op)) && n < |c.nodes|
    ensures n < |CoreStep(c, op).nodes|
    ensures Dead(CoreStep(c, op).nodes, n)
       <==> Dead(c.nodes, n) || (Victim(c, op).Some? && Descends(c.nodes, n, Victim(c, op).value))
  {
    hide CreateObject, Derive, FillsOne, Dead, Descends;
    if Victim(c, op).Some? {
      RevokeIsExact(c.nodes, Victim(c, op).value, n);
    } else if op.CreateOp? || op.DeriveOp? {
      var d := CoreStep(c, op);
      var got, mid := AllOrNothing(c, op);
      if d != c {
        var node := AppendedNode(c, op, d, got, mid);
        DeadInPrefix(c.nodes, node, n);
      }
    }
  }

  lemma AppendedNode(c: Core, op: Op, d: Core, got: Handle, mid: seq<Slot>) returns (node: Node)
    requires (op.CreateOp? || op.DeriveOp?) && Appends(c, op, d, got, mid)
    ensures d.nodes == c.nodes + [node] && node.epoch == 0
  {
    node := if op.CreateOp? then Node(None, 0) else ChildNode(c.slots[op.h.slot], op.how);
  }

  // For handles: after revoke(h) a check of g passes exactly when it passed
  // before and g was not derived from h.
  lemma RevokeIsExactForHandles(w: World, h: Handle, g: Handle, needed: Rights)
    requires Inv(w) && Revoke(w.core, h).1.Ok?
    ensures CheckRights(After(w, RevokeOp(h)).core, g, needed).Ok?
       <==> CheckRights(w.core, g, needed).Ok?
            && !Descends(w.core.nodes, w.core.slots[g.slot].node, w.core.slots[h.slot].node)
  {
    if Names(w.core, g) {
      StepKillsExactly(w, RevokeOp(h), w.core.slots[g.slot].node);
    }
  }

  // --------------------------------------------------------------- authority

  // The nodes that `n` was derived from, up to the one its object was created with.
  predicate Traces(births: seq<Birth>, path: seq<nat>, n: nat) {
    && path != [] && path[0] == n
    && (forall k :: 0 <= k < |path| ==> path[k] < |births|)
    && (forall k {:trigger path[k]} :: 0 <= k < |path| - 1 ==> births[path[k]].from == Some(path[k + 1]))
    && births[path[|path| - 1]].how.Created?
  }

  lemma {:induction false} Lineage(c: Core, births: seq<Birth>, n: nat, needed: Rights) returns (path: seq<nat>)
    requires Lineages(c, births) && n < |births| && Contains(births[n].rights, needed)
    ensures Traces(births, path, n)
    ensures forall k :: 0 <= k < |path| ==>
      births[path[k]].obj == births[n].obj && Contains(births[path[k]].rights, needed)
    ensures forall k :: 0 < k < |path| ==> !births[path[k]].how.Lent?
    decreases n
  {
    assert BirthOk(c, births, n);
    if births[n].how.Created? {
      path := [n];
    } else {
      var up := births[n].from.value;
      ContainsTransitive(births[up].rights, births[n].rights, needed);
      hide Contains, Lineages, CreatedOnce;
      var rest := Lineage(c, births, up, needed);
      path := [n] + rest;
    }
  }

  // No node on the way from `n` to its root has been revoked.
  lemma {:induction false} AliveUpwards(nodes: seq<Node>, n: nat, top: nat)
    requires ParentsBelow(nodes) && n < |nodes| && !Dead(nodes, n) && Descends(nodes, n, top)
    ensures top < |nodes| && nodes[top].epoch == 0
  {
    if n != top { AliveUpwards(nodes, nodes[n].parent.value, top); }
  }

  // Every handle that passes a check traces back to the one creation of its
  // object, through derivations that all held the needed rights, and nothing it
  // descends from has been revoked.
  lemma Authority(w: World, h: Handle, needed: Rights) returns (path: seq<nat>)
    requires Inv(w) && CheckRights(w.core, h, needed).Ok?
    ensures h.slot < |w.core.slots|
    ensures var s := w.core.slots[h.slot];
            && s.node < |w.core.nodes| && Traces(w.births, path, s.node)
            && (forall k :: 0 <= k < |path| ==>
                 w.births[path[k]].obj == s.obj && Contains(w.births[path[k]].rights, needed))
            && (forall top: nat :: Descends(w.core.nodes, s.node, top) ==>
                 top < |w.core.nodes| && w.core.nodes[top].epoch == 0)
            && (forall m :: 0 <= m < |w.births| && w.births[m].how.Created? && w.births[m].obj == s.obj ==>
                 m == path[|path| - 1])
  {
    var c := w.core;
    var s := c.slots[h.slot];
    assert SlotOk(c, w.births, h.slot);
    path := Lineage(c, w.births, s.node, needed);
    forall top: nat | Descends(c.nodes, s.node, top)
      ensures top < |c.nodes| && c.nodes[top].epoch == 0
    {
      AliveUpwards(c.nodes, s.node, top);
    }
    var last := path[|path| - 1];
    assert w.births[last].obj == s.obj && w.births[last].how.Created?;
    forall m | 0 <= m < |w.births| && w.births[m].how.Created? && w.births[m].obj == s.obj
      ensures m == last
    {
      assert CreatedOnce(w.births);
    }
  }

  // The check for a target passes only between capabilities of one creation.
  lemma SameCreation(w: World, h: Handle, target: Handle, needed: Rights)
    returns (path: seq<nat>, other: seq<nat>)
    requires Inv(w) && CheckRightsForObject(w.core, h, target, needed).Ok?
    ensures Names(w.core, h) && Names(w.core, target)
    ensures Traces(w.births, path, w.core.slots[h.slot].node)
    ensures Traces(w.births, other, w.core.slots[target.slot].node)
    ensures path[|path| - 1] == other[|other| - 1]
    ensures forall k :: 0 <= k < |path| ==> Contains(w.births[path[k]].rights, needed)
  {
    path := Authority(w, h, needed);
    var t := w.core.slots[target.slot];
    assert SlotOk(w.core, w.births, target.slot);
    NoRightsNeeded(t.rights);
    other := Lineage(w.core, w.births, t.node, 0);
  }

  lemma NoRightsNeeded(have: Rights)
    ensures Contains(have, 0)
  {
  }

  // ------------------------------------------------------------------- loans

  // Nothing is ever derived from a loan.
  lemma {:induction false} LoanHasNoChildren(w: World, loan: nat, n: nat)
    requires Inv(w) && loan < |w.births| && w.births[loan].how.Lent? && n < |w.births|
    requires Descends(w.core.nodes, n, loan)
    ensures n == loan
  {
    if n != loan {
      assert BirthOk(w.core, w.births, n);
      LoanHasNoChildren(w, loan, w.core.nodes[n].parent.value);
    }
  }

  // The expiry pass has dealt with this handle, or is about to.
  predicate Settled(w: World, h: Handle)
    requires Linked(w.core)
  {
    || Gone(w.core, h) || h in w.pending
    || (Names(w.core, h) && Dead(w.core.nodes, w.core.slots[h.slot].node))
  }

  predicate Registered(w: World, h: Handle) {
    h.slot in w.expiries && w.expiries[h.slot].generation == h.generation
  }

  // Every promise is still in the registry or has been settled.
  predicate PromisesKept(w: World)
    requires Linked(w.core)
  {
    forall h :: h in w.promised ==> Settled(w, h) || Registered(w, h)
  }

  lemma SettledStays(w: World, op: Op, h: Handle)
    requires Inv(w) && Enabled(w, op) && h in w.promised && Settled(w, h)
    ensures Settled(After(w, op), h)
  {
    if h in w.pending && op != ExpireOp(h) {
      assert h in After(w, op).pending by { hide CoreStep, BirthStep, Inv; }
    } else {
      if h in w.pending { assert LentOrGone(w.core, h); }
      OutStays(w, op, h);
    }
  }

  // A handle that has moved on or died never comes back, and one that a pass
  // revokes dies.
  lemma OutStays(w: World, op: Op, h: Handle)
    requires Inv(w) && Enabled(w, op)
    requires Gone(w.core, h)
          || (Names(w.core, h) && (Dead(w.core.nodes, w.core.slots[h.slot].node) || op == ExpireOp(h)))
    ensures var d := After(w, op).core;
            Gone(d, h) || (Names(d, h) && Dead(d.nodes, d.slots[h.slot].node))
  {
    CoreAdvances(w.core, op);
    assert After(w, op).core == CoreStep(w.core, op) by { StepHolds(w, op); }
    if !Gone(w.core, h) {
      StepKillsExactly(w, op, w.core.slots[h.slot].node);
    }
    hide After, CoreStep, Inv, Dead, NodesAdvance, Enabled;
  }

  // A registration loses a promise when it comes after its own loan has been
  // closed and somebody else's loan has been registered for the slot.
  predicate LosesPromise(w: World, op: Op)
    requires Linked(w.core)
  {
    && op.RegisterOp? && !Names(w.core, op.h) && op.h.slot in w.expiries
    && !Settled(w, Handle(op.h.slot, w.expiries[op.h.slot].generation))
  }

  lemma PromisesKeptExactly(w: World, op: Op)
    requires Inv(w) && Enabled(w, op) && PromisesKept(w)
    ensures PromisesKept(After(w, op)) <==> !LosesPromise(w, op)
  {
    var v := After(w, op);
    if LosesPromise(w, op) {
      var h := Handle(op.h.slot, w.expiries[op.h.slot].generation);
      assert h in v.promised && !Settled(v, h) && !Registered(v, h) by {
        assert LentOrGone(w.core, op.h);
      }
    } else {
      forall h | h in v.promised
        ensures Settled(v, h) || Registered(v, h)
      {
        PromiseKept(w, op, h);
      }
    }
  }

  lemma PromiseKept(w: World, op: Op, h: Handle)
    requires Inv(w) && Enabled(w, op) && PromisesKept(w) && !LosesPromise(w, op) && h in After(w, op).promised
    ensures Settled(After(w, op), h) || Registered(After(w, op), h)
  {
    if h in w.promised {
      if Settled(w, h) {
        SettledStays(w, op, h);
      } else {
        OpenPromiseKept(w, op, h);
      }
    }
  }

  lemma OpenPromiseKept(w: World, op: Op, h: Handle)
    requires Inv(w) && Enabled(w, op) && !LosesPromise(w, op)
    requires h in w.promised && !Settled(w, h) && Registered(w, h)
    ensures Settled(After(w, op), h) || Registered(After(w, op), h)
  {
    hide Dead, CoreStep, Linked, Lineages, Accesses;
    if op.RegisterOp? && op.h.slot == h.slot {
      assert LentOrGone(w.core, op.h) && LentOrGone(w.core, h);
    }
  }

  // No registration comes too late.
  predicate OnTime(w: World, ops: seq<Op>)
    requires Inv(w) && Permits(w, ops)
    decreases |ops|
  {
    ops == [] || (!LosesPromise(w, ops[0]) && OnTime(After(w, ops[0]), ops[1..]))
  }

  lemma {:induction false} PromisesKeptByRuns(w: World, ops: seq<Op>)
    requires Inv(w) && Permits(w, ops) && PromisesKept(w) && OnTime(w, ops)
    ensures PromisesKept(Run(w, ops))
    decreases |ops|
  {
    if ops == [] {
    } else {
      PromisesKeptExactly(w, ops[0]);
      PromisesKeptByRuns(After(w, ops[0]), ops[1..]);
    }
  }

  lemma {:induction false} SettledForever(w: World, ops: seq<Op>, h: Handle)
    requires Inv(w) && Permits(w, ops) && h in w.promised && Settled(w, h)
    ensures Settled(Run(w, ops), h)
    decreases |ops|
  {
    if ops == [] {
    } else {
      SettledStays(w, ops[0], h);
      SettledForever(After(w, ops[0]), ops[1..], h);
    }
  }

  predicate Passes(w: World, h: Handle, needed: Rights)
    requires Inv(w)
  {
    CheckRights(w.core, h, needed).Ok?
  }

  // A pass for a tick collects what is due; `ops` is all that runs from there on.
  predicate Follows(u: World, tick: nat, ops: seq<Op>)
    requires Inv(u)
  {
    Permits(After(u, CollectOp(tick)), ops)
  }

  function Collected(u: World, tick: nat, ops: seq<Op>): (v: World)
    requires Inv(u) && Follows(u, tick, ops)
    ensures Inv(v)
  {
    Run(After(u, CollectOp(tick)), ops)
  }

  // Once a pass for tick t has revoked what it collected, no handle registered
  // before it with a deadline of at most t passes a check, whatever ran before,
  // between collecting and revoking, and afterwards.
  lemma ExpiryPass(before: seq<Op>, tick: nat, after: seq<Op>, h: Handle, needed: Rights)
    requires Permits(Boot(), before) && OnTime(Boot(), before)
    requires var u := Run(Boot(), before);
             && Follows(u, tick, after) && h in u.promised && u.promised[h] <= tick
             && h !in Collected(u, tick, after).pending
    ensures !Passes(Collected(Run(Boot(), before), tick, after), h, needed)
  {
    var u := Run(Boot(), before);
    assert Settled(u, h) || Registered(u, h) by {
      assert PromisesKept(Boot());
      PromisesKeptByRuns(Boot(), before);
    }
    hide Run, Permits, OnTime, Boot, Settled, Registered;
    PassEnds(u, tick, after, h, needed);
  }

  lemma PassEnds(u: World, tick: nat, ops: seq<Op>, h: Handle, needed: Rights)
    requires Inv(u) && Follows(u, tick, ops) && h in u.promised && u.promised[h] <= tick
    requires (Settled(u, h) || Registered(u, h)) && h !in Collected(u, tick, ops).pending
    ensures !Passes(Collected(u, tick, ops), h, needed)
  {
    CollectSettles(u, tick, h);
    hide Settled, Registered;
    SettledStaysOut(After(u, CollectOp(tick)), ops, h, needed);
  }

  lemma CollectSettles(u: World, tick: nat, h: Handle)
    requires Inv(u) && (Settled(u, h) || Registered(u, h)) && h in u.promised && u.promised[h] <= tick
    ensures Settled(After(u, CollectOp(tick)), h)
  {
    var v := After(u, CollectOp(tick));
    if Settled(u, h) {
      SettledStays(u, CollectOp(tick), h);
    } else {
      assert Handle(h.slot, u.expiries[h.slot].generation) in Due(u.expiries, tick);
    }
  }

  lemma SettledStaysOut(w: World, ops: seq<Op>, h: Handle, needed: Rights)
    requires Inv(w) && Permits(w, ops) && h in w.promised && Settled(w, h) && h !in Run(w, ops).pending
    ensures !Passes(Run(w, ops), h, needed)
  {
    SettledForever(w, ops, h);
  }

  // The pass harms no other handle, even when slots were reused in between.
  lemma ExpirySpares(w: World, h: Handle, g: Handle, needed: Rights)
    requires Inv(w) && h in w.pending && g != h
    ensures CheckRights(After(w, ExpireOp(h)).core, g, needed) == CheckRights(w.core, g, needed)
  {
    hide Contains, Dead;
    if Names(w.core, g) && Names(w.core, h) {
      assert LentOrGone(w.core, h);
      assert SlotOk(w.core, w.births, h.slot);
      var n, loan := w.core.slots[g.slot].node, w.core.slots[h.slot].node;
      LiveHandlesNameDistinctNodes(w, g, h);
      StepKillsExactly(w, ExpireOp(h), n);
      if Descends(w.core.nodes, n, loan) { LoanHasNoChildren(w, loan, n); }
    }
  }

  // The second phase of a pass with nothing else in between.
  predicate OnlyExpires(ops: seq<Op>) {
    forall i :: 0 <= i < |ops| ==> ops[i].ExpireOp?
  }

  // A pass changes nothing for a handle that it has not collected.
  lemma {:induction false} PassSpares(w: World, ops: seq<Op>, h: Handle, needed: Rights)
    requires Inv(w) && Permits(w, ops) && OnlyExpires(ops) && h !in w.pending
    ensures Passes(Run(w, ops), h, needed) == Passes(w, h, needed)
    decreases |ops|
  {
    if ops == [] {
    } else {
      var v := After(w, ops[0]);
      ExpirySpares(w, ops[0].h, h, needed);
      assert h !in v.pending by { hide CoreStep, BirthStep, Inv; }
      assert Run(w, ops) == Run(v, ops[1..]);
      assert Passes(w, h, needed) == Passes(v, h, needed);
      hide After, Run, CheckRights, Inv, Enabled, Passes;
      PassSpares(v, ops[1..], h, needed);
    }
  }

  // In any state, also one in which promises have been lost: a registered handle
  // that is due passes a check after the pass exactly if it passed one before,
  // its entry is no longer in the registry, and no earlier pass has collected it.
  lemma PassIsExact(u: World, tick: nat, ops: seq<Op>, h: Handle, needed: Rights)
    requires Inv(u) && h in u.promised && u.promised[h] <= tick
    requires Follows(u, tick, ops) && OnlyExpires(ops) && Collected(u, tick, ops).pending == {}
    ensures Passes(Collected(u, tick, ops), h, needed)
       <==> Passes(u, h, needed) && !Registered(u, h) && h !in u.pending
  {
    if Registered(u, h) || h in u.pending {
      PassEnds(u, tick, ops, h, needed);
    } else {
      NotCollected(u, tick, h, needed);
      PassSpares(After(u, CollectOp(tick)), ops, h, needed);
    }
  }

  lemma NotCollected(u: World, tick: nat, h: Handle, needed: Rights)
    requires Inv(u) && !Registered(u, h) && h !in u.pending
    ensures h !in After(u, CollectOp(tick)).pending
    ensures Passes(After(u, CollectOp(tick)), h, needed) == Passes(u, h, needed)
  {
    hide Inv, BirthStep, CheckRights;
  }

  // A pass harms nothing before its time: a handle that was promised more than this
  // tick, or nothing, passes the checks that it passed before.
  lemma PassSparesUndue(u: World, tick: nat, ops: seq<Op>, h: Handle, needed: Rights)
    requires Inv(u) && Follows(u, tick, ops) && OnlyExpires(ops) && h !in u.pending
    requires h in u.promised ==> u.promised[h] > tick
    ensures Passes(Collected(u, tick, ops), h, needed) == Passes(u, h, needed)
  {
    UndueNotCollected(u, tick, h, needed);
    PassSpares(After(u, CollectOp(tick)), ops, h, needed);
  }

  lemma UndueNotCollected(u: World, tick: nat, h: Handle, needed: Rights)
    requires Inv(u) && h !in u.pending && (h in u.promised ==> u.promised[h] > tick)
    ensures h !in After(u, CollectOp(tick)).pending
    ensures Passes(After(u, CollectOp(tick)), h, needed) == Passes(u, h, needed)
  {
    hide Linked, Lineages, Accesses, BirthStep, CheckRights, LentOrGone;
  }

  // A pass keeps the promises of its tick exactly if every handle that is due is
  // in the registry, has been collected, or did not pass anyway.
  lemma PassKeepsPromises(u: World, tick: nat, ops: seq<Op>)
    requires Inv(u) && Follows(u, tick, ops) && OnlyExpires(ops) && Collected(u, tick, ops).pending == {}
    ensures (forall h :: h in u.promised && u.promised[h] <= tick ==> !Passes(Collected(u, tick, ops), h, 0))
       <==> (forall h :: h in u.promised && u.promised[h] <= tick ==>
               Registered(u, h) || h in u.pending || !Passes(u, h, 0))
  {
    hide *;
    forall h | h in u.promised && u.promised[h] <= tick
      ensures Passes(Collected(u, tick, ops), h, 0) <==> Passes(u, h, 0) && !Registered(u, h) && h !in u.pending
    {
      PassIsExact(u, tick, ops, h, 0);
    }
  }

  // The race that OnTime rules out: A is lent and closed, B is lent from the same
  // slot and registered, then the late registration of A overwrites B's.
  const ROOT: Handle := Handle(0, 1)
  const LOAN_A: Handle := Handle(1, 1)
  const LOAN_B: Handle := Handle(1, 2)
  const THING: Object := Object(Memory, 0, 1, true)
  const ROOT_SLOT: Slot := Slot(0, 0, ALL_RIGHTS, 1, false, false)
  const CREATED: Core := Core([ROOT_SLOT], [Node(None, 0)], [THING])
  const LENT_A: Core := Core([ROOT_SLOT, Slot(1, 0, 1, 1, false, true)], [Node(None, 0), Node(Some(0), 0)], [THING])
  const CLOSED_A: Core := Core([ROOT_SLOT, Slot(1, 0, 1, 2, true, true)], [Node(None, 0), Node(Some(0), 0)], [THING])
  const LENT_B: Core :=
    Core([ROOT_SLOT, Slot(2, 0, 1, 2, false, true)], [Node(None, 0), Node(Some(0), 0), Node(Some(0), 0)], [THING])

  lemma Creates()
    ensures CoreStep(START, CreateOp(Memory)) == CREATED
  {
  }

  lemma LendsA()
    ensures Linked(CREATED) && CoreStep(CREATED, DeriveOp(ROOT, 1, Lent)) == LENT_A
  {
    assert !Dead(CREATED.nodes, 0);
    assert DeriveError(CREATED, ROOT, 1).None?;
    var c := CREATED;
    assert FirstFree(c.slots) == 1;
  }

  lemma ClosesA()
    ensures Linked(LENT_A) && CoreStep(LENT_A, CloseOp(LOAN_A)) == CLOSED_A
  {
  }

  lemma LendsB()
    ensures Linked(CLOSED_A) && CoreStep(CLOSED_A, DeriveOp(ROOT, 1, Lent)) == LENT_B
  {
    assert !Dead(CLOSED_A.nodes, 0);
    assert DeriveError(CLOSED_A, ROOT, 1).None?;
    var c := CLOSED_A;
    assert c.slots[1..] == [c.slots[1]];
    assert FirstFree(c.slots) == 1;
  }

  ghost predicate Reachable(v: World) {
    exists ops :: Permits(Boot(), ops) && Run(Boot(), ops) == v
  }

  lemma {:induction false} RunOneMore(w: World, ops: seq<Op>, op: Op)
    requires Inv(w) && Permits(w, ops) && Enabled(Run(w, ops), op)
    ensures Permits(w, ops + [op]) && Run(w, ops + [op]) == After(Run(w, ops), op)
    decreases |ops|
  {
    hide After, Inv, Enabled;
    if ops == [] {
      assert Run(After(w, op), []) == After(w, op);
    } else {
      RunOneMore(After(w, ops[0]), ops[1..], op);
      assert (ops + [op])[1..] == ops[1..] + [op];
    }
  }

  lemma Reaches(w: World, op: Op)
    requires Reachable(w) && Inv(w) && Enabled(w, op)
    ensures Reachable(After(w, op))
  {
    var ops :| Permits(Boot(), ops) && Run(Boot(), ops) == w;
    hide Boot;
    RunOneMore(Boot(), ops, op);
  }

  lemma RaceBegins() returns (w: World)
    ensures Inv(w) && Reachable(w) && w.core == LENT_A && w.promised == map[] && w.expiries == map[] && w.pending == {}
  {
    assert Reachable(FIRST) by { assert Run(Boot(), []) == FIRST; }
    Creates();
    LendsA();
    hide CoreStep, Reachable, BirthStep, Linked, Lineages, Loans, Accesses;
    var v := After(FIRST, CreateOp(Memory));
    Reaches(FIRST, CreateOp(Memory));
    w := After(v, DeriveOp(ROOT, 1, Lent));
    Reaches(v, DeriveOp(ROOT, 1, Lent));
  }

  lemma RaceWorld() returns (w: World)
    ensures Inv(w) && Reachable(w) && w.core == LENT_B && w.promised == map[] && w.expiries == map[] && w.pending == {}
  {
    ClosesA();
    LendsB();
    hide CoreStep, Reachable, BirthStep, Linked, Lineages, Loans, Accesses;
    var u := RaceBegins();
    var v := After(u, CloseOp(LOAN_A));
    Reaches(u, CloseOp(LOAN_A));
    w := After(v, DeriveOp(ROOT, 1, Lent));
    Reaches(v, DeriveOp(ROOT, 1, Lent));
  }

  // A pass revokes all that it collected, and the handle still passes.
  predicate EscapesPass(u: World, tick: nat, ops: seq<Op>, h: Handle)
    requires Inv(u) && Follows(u, tick, ops)
  {
    OnlyExpires(ops) && Collected(u, tick, ops).pending == {} && Passes(Collected(u, tick, ops), h, 0)
  }

  lemma LateRegistrationLosesPromise() returns (u: World, h: Handle, ops: seq<Op>)
    ensures Inv(u) && Reachable(u) && h in u.promised && u.promised[h] <= 10
    ensures Follows(u, 10, ops) && EscapesPass(u, 10, ops, h)
  {
    var w := RaceWorld();
    hide Reachable, Lineages, Loans, Accesses, BirthStep, EscapesPass, Follows;
    h, ops := LOAN_B, [ExpireOp(LOAN_A)];
    var w1 := After(w, RegisterOp(LOAN_B, 10));
    Reaches(w, RegisterOp(LOAN_B, 10));
    u := After(w1, RegisterOp(LOAN_A, 5));
    Reaches(w1, RegisterOp(LOAN_A, 5));
    Survives(u);
  }

  lemma OneDue(expiries: map<nat, Entry>)
    requires expiries == map[1 := Entry(1, 5)]
    ensures Due(expiries, 10) == {LOAN_A}
  {
    assert 1 in expiries && expiries[1] == Entry(1, 5);
    assert LOAN_A in Due(expiries, 10);
  }

  lemma OnlyACollected(w: World)
    requires Inv(w) && w.core == LENT_B && w.expiries == map[1 := Entry(1, 5)] && w.pending == {}
    ensures After(w, CollectOp(10)).core == LENT_B && After(w, CollectOp(10)).pending == {LOAN_A}
  {
    OneDue(w.expiries);
    hide Inv, Linked, Due, BirthStep;
  }

  lemma OnlyARevoked(v: World)
    requires Inv(v) && v.core == LENT_B && v.pending == {LOAN_A}
    ensures After(v, ExpireOp(LOAN_A)).core == LENT_B && After(v, ExpireOp(LOAN_A)).pending == {}
  {
    LentBPasses();
    hide Inv, Linked, Revoke, BirthStep;
  }

  lemma Survives(w: World)
    requires Inv(w) && w.core == LENT_B && w.expiries == map[1 := Entry(1, 5)] && w.pending == {}
    ensures Follows(w, 10, [ExpireOp(LOAN_A)]) && EscapesPass(w, 10, [ExpireOp(LOAN_A)], LOAN_B)
  {
    OnlyACollected(w);
    var v := After(w, CollectOp(10));
    OnlyARevoked(v);
    LentBPasses();
    hide After, CheckRights, Revoke, Inv, Linked;
    var last := After(v, ExpireOp(LOAN_A));
    assert Enabled(v, ExpireOp(LOAN_A));
    assert Permits(last, []) && Run(last, []) == last;
    assert [ExpireOp(LOAN_A)][1..] == [];
  }

  lemma LentBPasses()
    ensures Linked(LENT_B) && CheckRights(LENT_B, LOAN_B, 0).Ok? && Revoke(LENT_B, LOAN_A).0 == LENT_B
  {
    assert LENT_B.nodes[2] == Node(Some(0), 0) && LENT_B.nodes[0] == Node(None, 0);
    assert !Dead(LENT_B.nodes, 0) && !Dead(LENT_B.nodes, 2);
  }

  // ---------------------------------------------------------------- transfer

  // A node that exists already is named by no other slot than before.
  lemma NoNodeRenamed(c: Core, op: Op, k: nat)
    requires Linked(c) && (op.DropOp? ==> op.obj < |c.objects|)
    requires k < |CoreStep(c, op).slots| && !CoreStep(c, op).slots[k].free && CoreStep(c, op).slots[k].node < |c.nodes|
    ensures k < |c.slots| && c.slots[k] == CoreStep(c, op).slots[k]
  {
    hide CreateObject, Derive, Dead, Contains, Meet;
    if op.CreateOp? || op.DeriveOp? {
      var got, mid := AllOrNothing(c, op);
    }
  }

  // Only this handle can name the node.
  predicate SoleName(c: Core, h: Handle, n: nat) {
    forall k :: 0 <= k < |c.slots| && !c.slots[k].free && c.slots[k].node == n ==> Handle(k, c.slots[k].generation) == h
  }

  lemma SoleNameStays(c: Core, op: Op, h: Handle, n: nat)
    requires Linked(c) && (op.DropOp? ==> op.obj < |c.objects|) && n < |c.nodes| && SoleName(c, h, n)
    ensures SoleName(CoreStep(c, op), h, n)
  {
    var d := CoreStep(c, op);
    hide CoreStep;
    forall k | 0 <= k < |d.slots| && !d.slots[k].free && d.slots[k].node == n
      ensures Handle(k, d.slots[k].generation) == h
    {
      NoNodeRenamed(c, op, k);
    }
  }

  lemma {:induction false} RootLives(w: World, g: Handle, n: nat, ops: seq<Op>)
    requires Inv(w) && Permits(w, ops) && RevokeOp(g) !in ops && ExpireOp(g) !in ops
    requires n < |w.core.nodes| && SoleName(w.core, g, n) && w.core.nodes[n] == Node(None, 0)
    ensures n < |Run(w, ops).core.nodes| && Run(w, ops).core.nodes[n] == Node(None, 0)
    decreases |ops|
  {
    if ops == [] {
    } else {
      var v := After(w, ops[0]);
      CoreAdvances(w.core, ops[0]);
      StepKillsExactly(w, ops[0], n);
      SoleNameStays(w.core, ops[0], g, n);
      assert v.core.nodes[n] == Node(None, 0);
      RootLives(v, g, n, ops[1..]);
    }
  }

  // A transferred capability survives every revocation except that of its own
  // handle: its grantors cannot take it back.
  lemma TransferOutlivesGrantors(w: World, h: Handle, req: Rights, ops: seq<Op>)
    requires Inv(w) && Derive(w.core, h, req, Transferred).1.Ok?
    requires Permits(After(w, DeriveOp(h, req, Transferred)), ops)
    requires var g := Derive(w.core, h, req, Transferred).1.value; RevokeOp(g) !in ops && ExpireOp(g) !in ops
    ensures var g := Derive(w.core, h, req, Transferred).1.value;
            var v := Run(After(w, DeriveOp(h, req, Transferred)), ops);
            Names(v.core, g) ==> !Dead(v.core.nodes, v.core.slots[g.slot].node)
  {
    var op := DeriveOp(h, req, Transferred);
    var u := After(w, op);
    var g := Derive(w.core, h, req, Transferred).1.value;
    var n := |w.core.nodes|;
    assert Names(u.core, g) && u.core.slots[g.slot].node == n;
    assert n < |u.core.nodes| && u.core.nodes[n] == Node(None, 0) by {
      DeriveAllowed(w.core, h, req, Transferred);
      var mid := DeriveEffect(w.core, h, req, Transferred);
    }
    var v := Run(u, ops);
    hide After, Derive, Run;
    RootLives(u, g, n, ops);
    if Names(v.core, g) { SameCapability(u, g, ops); }
  }

  // ----------------------------------------------------------------- objects

  lemma AppendsKeepObjects(c: Core, op: Op, o: nat)
    requires Linked(c) && (op.CreateOp? || op.DeriveOp?) && o < |c.objects|
    ensures o < |CoreStep(c, op).objects| && CoreStep(c, op).objects[o] == c.objects[o]
  {
    var got, mid := AllOrNothing(c, op);
    hide CoreStep, Appends;
    if CoreStep(c, op) != c { AppendedObjects(c, op, CoreStep(c, op), got, mid); }
  }

  // An object dies only when the last access that is held on it is dropped.
  lemma ObjectDiesByLastDrop(w: World, op: Op, o: nat)
    requires Inv(w) && Enabled(w, op) && o < |w.core.objects| && w.core.objects[o].valid
    ensures o < |After(w, op).core.objects|
    ensures !After(w, op).core.objects[o].valid <==> op == DropOp(o) && w.held[o] == 1
  {
    StepHolds(w, op);
    assert After(w, op).core == CoreStep(w.core, op);
    assert w.core.objects[o].refcount == w.held[o];
    hide After, Inv, Step, Linked, Names, DeriveError, Issue, Derived, DropAccess, Deref;
    if op.CreateOp? || op.DeriveOp? {
      AppendsKeepObjects(w.core, op, o);
      hide CoreStep;
    } else if op.DropOp? {
      DropDecides(w.core, op.obj, o);
    } else if op.DerefOp? {
      DerefKeepsValid(w.core, op.h, op.flags, o);
    } else {
      OthersKeepObjects(w.core, op);
      hide CoreStep;
    }
  }

  lemma DropDecides(c: Core, last: nat, o: nat)
    requires last < |c.objects| && o < |c.objects| && c.objects[o].valid
    ensures o < |DropAccess(c, last).objects|
    ensures !DropAccess(c, last).objects[o].valid <==> last == o && c.objects[o].refcount == 1
  {
  }

  lemma DerefKeepsValid(c: Core, h: Handle, flags: Rights, o: nat)
    requires Linked(c) && o < |c.objects|
    ensures o < |Deref(c, h, flags).0.objects| && Deref(c, h, flags).0.objects[o].valid == c.objects[o].valid
  {
    hide Dead, Contains, ParentsBelow;
  }

  // No handle to a dead object is ever accepted again.
  lemma DeadObjectForever(w: World, o: nat, ops: seq<Op>, h: Handle, needed: Rights)
    requires Inv(w) && Permits(w, ops) && o < |w.core.objects| && !w.core.objects[o].valid
    requires Names(Run(w, ops).core, h) && Run(w, ops).core.slots[h.slot].obj == o
    ensures CheckRights(Run(w, ops).core, h, needed).Err?
  {
    RunAdvances(w, ops);
  }

  // What an operation reports.
  function Outcome(c: Core, op: Op): Option<CapError>
    requires Linked(c)
  {
    match op
    case CreateOp(kind) => CreateObject(c, kind).1.Failure()
    case DeriveOp(h, req, how) => Derive(c, h, req, how).1.Failure()
    case CloseOp(h) => Close(c, h).1.Failure()
    case RevokeOp(h) => Revoke(c, h).1.Failure()
    case DerefOp(h, flags) => Deref(c, h, flags).1.Failure()
    case ExpireOp(h) => Revoke(c, h).1.Failure()
    case _ => None
  }

  // An operation that fails leaves the core as it was. The code appends a node
  // and an object before it looks for a slot, but it always finds one.
  lemma FailuresChangeNothing(w: World, op: Op)
    requires Inv(w) && Enabled(w, op) && Outcome(w.core, op).Some?
    ensures After(w, op).core == w.core
  {
    hide CreateObject, Derive, Dead, Contains, Meet, Lineages, Loans, FillsOne;
    if op.CreateOp? || op.DeriveOp? {
      var got, mid := AllOrNothing(w.core, op);
    }
  }
}
