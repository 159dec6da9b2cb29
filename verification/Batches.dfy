/** Batch node operations of the primary: maintenance, shutdown, decommission and unsafe
    removal, and the way back, with joins and keepalive removals published by others in
    between the steps (`ais/prxcycle.go`, `ais/rebmeta.go`). */
module Batches {

  import opened Basics
  import opened ClusterMap
  import opened Lifecycle
  import opened SmapOwner
  import opened Primary

  datatype Action = StartMaintenance | Shutdown | Decommission | RmUnsafe

  datatype RmResult = Refused | NothingToDo | Rebalancing | Finalized | Failed

  /** What happens around an operation: whether it is admitted; whether a rebalance is running
      when node `i` of the request is looked at, and when the selection is complete; whether
      nodes are unreachable, and whether the cluster can rebalance; whether a rebalance is
      running during the first and the last transaction, and whether each can be saved. */
  datatype Env = Env(
    busy: bool, rebAt: int -> bool, rebRunning: bool, unreachable: bool, cannot: bool,
    firstReb: bool, firstSaved: bool, lastReb: bool, lastSaved: bool, reb: RebEnv)

  // ----- which nodes are selected ------------------------------------------------------

  /** Already where start-maintenance would take it: a proxy in maintenance, or a target
      that is in maintenance and has been rebalanced away from. */
  ghost predicate Skips(v: Smap, action: Action, sid: NodeId)
    requires v.HasNode(sid)
  {
    var fl := v.FlagsOf(sid);
    action.StartMaintenance? && fl * MAINT_DECOMM != {} && (sid !in v.tmap || (Maint in fl && MaintPostReb in fl))
  }

  ghost predicate Selectable(v: Smap, self: NodeId, action: Action, sid: NodeId) {
    v.HasNode(sid) && sid != self && !(action.StartMaintenance? && Decomm in v.FlagsOf(sid))
  }

  ghost predicate AllSelectable(v: Smap, self: NodeId, action: Action, sids: seq<NodeId>, n: nat)
    requires n <= |sids|
  {
    forall i :: 0 <= i < n ==> Selectable(v, self, action, sids[i])
  }

  /** The nodes of the request that are not skipped, in the order of the request. */
  ghost function Selected(v: Smap, self: NodeId, action: Action, sids: seq<NodeId>, n: nat): (sel: seq<NodeId>)
    requires n <= |sids| && AllSelectable(v, self, action, sids, n)
    ensures forall id :: id in sel ==> id in sids && Selectable(v, self, action, id) && !Skips(v, action, id)
  {
    if n == 0 then []
    else
      Selected(v, self, action, sids, n - 1) + if Skips(v, action, sids[n - 1]) then [] else [sids[n - 1]]
  }

  ghost predicate AllDown(v: Smap, batch: seq<NodeId>) { forall id :: id in batch ==> !v.IsActiveNode(id) }

  ghost predicate HasTarget(v: Smap, batch: seq<NodeId>) { exists id :: id in batch && id in v.tmap }

  ghost predicate HasActive(v: Smap, batch: seq<NodeId>) { exists id :: id in batch && id in v.ActiveTargets() }

  lemma OneMore(v: Smap, batch: seq<NodeId>, sid: NodeId)
    ensures AllDown(v, batch + [sid]) <==> AllDown(v, batch) && !v.IsActiveNode(sid)
    ensures HasTarget(v, batch + [sid]) <==> HasTarget(v, batch) || sid in v.tmap
    ensures HasActive(v, batch + [sid]) <==> HasActive(v, batch) || sid in v.ActiveTargets()
  {
    assert forall id :: id in batch + [sid] <==> id in batch || id == sid;
  }

  datatype Selection = Refuse | Select(sids: seq<NodeId>, noPostReb: nat, active: nat, hasTarget: bool)

  /** Why a request is refused as a whole: a missing node, the primary itself, a node being
      decommissioned; or a running rebalance, when a node already in maintenance is taken
      further. */
  ghost predicate Refuses(v: Smap, self: NodeId, action: Action, sids: seq<NodeId>, rebAt: int -> bool) {
    || !AllSelectable(v, self, action, sids, |sids|)
    || (action != StartMaintenance && exists i :: 0 <= i < |sids| && !v.IsActiveNode(sids[i]) && rebAt(i))
  }

  /** Scans the request against one published map. */
  method SelectNodes(v: Smap, self: NodeId, action: Action, sids: seq<NodeId>, rebAt: int -> bool)
    returns (res: Selection)
    ensures res.Refuse? <==> Refuses(v, self, action, sids, rebAt)
    ensures res.Select? ==>
              && AllSelectable(v, self, action, sids, |sids|)
              && res.sids == Selected(v, self, action, sids, |sids|)
              && (res.sids != [] ==>
                    (res.noPostReb == |res.sids| <==> action == StartMaintenance && AllDown(v, res.sids)))
              && (res.hasTarget <==> HasTarget(v, res.sids))
              && (res.active > 0 <==> HasActive(v, res.sids))
  {
    var selected, noPostReb, active, hasTarget := [], 0, 0, false;
    for i := 0 to |sids|
      invariant AllSelectable(v, self, action, sids, i)
      invariant selected == Selected(v, self, action, sids, i)
      invariant noPostReb <= |selected| && active <= |selected|
      invariant noPostReb > 0 ==> action.StartMaintenance?
      invariant action.StartMaintenance? ==> (noPostReb == |selected| <==> AllDown(v, selected))
      invariant action.StartMaintenance? || forall k :: 0 <= k < i ==> v.IsActiveNode(sids[k]) || !rebAt(k)
      invariant hasTarget <==> HasTarget(v, selected)
      invariant active > 0 <==> HasActive(v, selected)
    {
      var sid := sids[i];
      if !v.HasNode(sid) { return Refuse; }
      if self == sid { return Refuse; }
      var flags := v.FlagsOf(sid);
      var inMaint := flags * MAINT_DECOMM != {};
      if inMaint && !action.StartMaintenance? {
        if rebAt(i) { return Refuse; }
      } else if inMaint {
        if Decomm in flags { return Refuse; }
        if sid !in v.tmap || (Maint in flags && MaintPostReb in flags) { continue; }
        noPostReb := noPostReb + 1;
      }
      assert action.StartMaintenance? && !inMaint ==> Decomm !in flags by {
        if Decomm in flags { assert Decomm in flags * MAINT_DECOMM; }
      }
      OneMore(v, selected, sid);
      selected := selected + [sid];
      assert sid in v.ActiveTargets() <==> sid in v.tmap && !inMaint;
      if sid in v.tmap {
        hasTarget := true;
        if !inMaint { active := active + 1; }
      }
    }
    res := Select(selected, noPostReb, active, hasTarget);
  }

  // ----- transactions of others ---------------------------------------------------------

  /** The batch transactions among the published ones. */
  ghost function BatchOps(txns: seq<Txn>): seq<Pre> {
    if txns == [] then []
    else
      var last := txns[|txns| - 1].pre;
      BatchOps(txns[..|txns| - 1]) + if last.Joined? || last.KeepaliveRemove? then [] else [last]
  }

  lemma BatchOpsMore(txns: seq<Txn>, t: Txn)
    ensures BatchOps(txns + [t]) == BatchOps(txns) + if t.pre.Joined? || t.pre.KeepaliveRemove? then [] else [t.pre]
  {
    assert (txns + [t])[..|txns|] == txns;
  }

  /** Any number of joins and keepalive removals, none of which waits for a batch. */
  method Others(o: Owner)
    requires o.Valid()
    modifies o
    ensures o.Valid() && old(o.rmd) <= o.rmd && old(o.txns) <= o.txns
    ensures BatchOps(o.txns) == BatchOps(old(o.txns))
  {
    var n: nat :| n >= 0;
    for i := 0 to n
      invariant o.Valid() && old(o.rmd) <= o.rmd && old(o.txns) <= o.txns
      invariant BatchOps(o.txns) == BatchOps(old(o.txns))
    {
      var pre := AnyOther(o.smap.primary);
      var rebRunning: bool, persists: bool, args: RebArgs := *, *, *;
      ghost var txns := o.txns;
      var res, _ := o.Modify(pre, rebRunning, persists, args);
      if res == Ok { BatchOpsMore(txns, Txn(pre, rebRunning, o.smap.View())); }
    }
  }

  method AnyOther(primary: NodeId) returns (pre: Pre)
    ensures pre.Joined? || (pre.KeepaliveRemove? && primary !in pre.sids)
  {
    var id: NodeId, isProxy: bool, flags: Flags, sids: seq<NodeId> := *, *, *, *;
    if primary !in sids { return KeepaliveRemove(sids); }
    return Joined(id, isProxy, flags);
  }

  // ----- removal -------------------------------------------------------------------------

  /** One batch transaction of an operation. */
  method Txn1(o: Owner, pre: Pre, rebRunning: bool, saved: bool, args: RebArgs) returns (ok: bool, started: bool)
    requires o.Valid() && !pre.Joined? && !pre.KeepaliveRemove? && SparesPrimary(pre, o.smap.View())
    modifies o
    ensures o.Valid() && old(o.txns) <= o.txns
    ensures BatchOps(o.txns) == BatchOps(old(o.txns)) + if ok then [pre] else []
    ensures ok <==> PreOk(pre, old(o.smap.View()), o.self, rebRunning) && saved
    ensures ok ==> PreStep(pre, old(o.smap.View()), o.smap.View())
    ensures started <==> ok && Starts(pre, args, old(o.smap.View()), o.smap.View())
    ensures o.rmd == old(o.rmd) + if started then 1 else 0
  {
    ghost var txns := o.txns;
    var res;
    res, started := o.Modify(pre, rebRunning, saved, args);
    ok := res == Ok;
    if ok { BatchOpsMore(txns, Txn(pre, rebRunning, o.smap.View())); }
  }

  /** Drops the nodes that are gone by now. */
  method StillPresent(v: Smap, sids: seq<NodeId>) returns (left: seq<NodeId>)
    ensures forall id :: id in left <==> id in sids && v.HasNode(id)
  {
    left := [];
    for i := 0 to |sids|
      invariant forall id :: id in left <==> id in sids[..i] && v.HasNode(id)
    {
      if v.HasNode(sids[i]) { left := left + [sids[i]]; }
    }
    assert sids[..|sids|] == sids;
  }

  method TargetsOf(v: Smap, sids: seq<NodeId>) returns (ts: seq<NodeId>)
    ensures forall id :: id in ts <==> id in sids && id in v.tmap
  {
    ts := [];
    for i := 0 to |sids|
      invariant forall id :: id in ts <==> id in sids[..i] && id in v.tmap
    {
      if sids[i] in v.tmap { ts := ts + [sids[i]]; }
    }
    assert sids[..|sids|] == sids;
  }

  ghost function Listed(op: Option<Pre>): seq<Pre> {
    match op
    case None => []
    case Some(pre) => [pre]
  }

  ghost predicate Removes(action: Action) { action.Decommission? || action.RmUnsafe? }

  /** The last step of an operation: what it tries to publish, on what map, and whether that
      succeeds. */
  datatype Last = Last(op: Option<Pre>, before: Smap, fin: Option<Pre>)

  /** There is something to publish in the end: nodes to remove, or targets that are done with
      the rebalance. */
  ghost predicate HasFinal(action: Action, batch: seq<NodeId>, rebalanced: bool, seen: Smap) {
    if Removes(action) then exists id :: id in batch && seen.HasNode(id)
    else rebalanced && HasTarget(seen, batch)
  }

  /** What it is; `seen` is the map that the last step has looked at: the removal of all nodes
      of the batch that are still there, or the completion mark for all targets among them. */
  ghost predicate FinalOp(action: Action, batch: seq<NodeId>, seen: Smap, op: Pre) {
    match op
    case Unreg(sids, isUnsafe) =>
      && Removes(action) && (isUnsafe <==> action == RmUnsafe)
      && forall id :: id in sids <==> id in batch && (id in seen.tmap || id in seen.pmap)
    case MarkMaintPostReb(sids) =>
      !Removes(action) && forall id :: id in sids <==> id in batch && id in seen.tmap
    case _ => false
  }

  ghost predicate LastStep(action: Action, batch: seq<NodeId>, rebalanced: bool, seen: Smap, self: NodeId, env: Env,
                           l: Last) {
    && (l.op.Some? <==> HasFinal(action, batch, rebalanced, seen))
    && (l.op.Some? ==> FinalOp(action, batch, seen, l.op.value))
    && l.fin == if l.op.Some? && env.lastSaved && PreOk(l.op.value, l.before, self, env.lastReb) then l.op else None
  }

  /** It succeeds unless it has something to publish and cannot; that others have removed all
      of the nodes meanwhile is as good. */
  ghost predicate Succeeds(l: Last, now: Smap) {
    l.op.Some? && l.fin == None ==> l.op.value.Unreg? && forall id :: id in l.op.value.sids ==> !now.HasNode(id)
  }

  /** The last step of an operation, right away or after the rebalance it has started:
      what remains of the batch is removed, or its targets are marked as done with the
      rebalance, or nothing is left to do; in one transaction at most. */
  method RmNodesFinal(o: Owner, action: Action, sids: seq<NodeId>, rebalanced: bool, env: Env)
    returns (ok: bool, ghost l: Last)
    requires o.Valid() && o.self !in sids && o.first.primary == o.self
    modifies o
    ensures o.Valid() && BatchOps(o.txns) == BatchOps(old(o.txns)) + Listed(l.fin)
    ensures LastStep(action, sids, rebalanced, old(o.smap.View()), o.self, env, l)
    ensures ok <==> Succeeds(l, o.smap.View())
  {
    var v := o.smap.View();
    ok, l := true, Last(None, v, None);
    var op := FinalPre(v, action, sids, rebalanced);
    Others(o);
    if op.None? { return; }
    l := Last(op, o.smap.View(), None);
    ok := FinalTxn(o, op.value, env);
    if ok { l := l.(fin := op); return; }
    if op.value.Unreg? { ok := AllGone(o.smap.View(), op.value.sids); }
  }

  /** What the last step is going to publish. */
  method FinalPre(v: Smap, action: Action, sids: seq<NodeId>, rebalanced: bool) returns (op: Option<Pre>)
    ensures op.Some? <==> HasFinal(action, sids, rebalanced, v)
    ensures op.Some? ==> FinalOp(action, sids, v, op.value)
  {
    var selected := StillPresent(v, sids);
    if |selected| == 0 { return None; }
    assert selected[0] in selected;
    if action.Decommission? || action.RmUnsafe? { return Some(Unreg(selected, action.RmUnsafe?)); }
    var targets := TargetsOf(v, selected);
    if !rebalanced || |targets| == 0 { return None; }
    assert targets[0] in targets;
    return Some(MarkMaintPostReb(targets));
  }

  method AllGone(v: Smap, sids: seq<NodeId>) returns (gone: bool)
    ensures gone <==> forall id :: id in sids ==> !v.HasNode(id)
  {
    var there := StillPresent(v, sids);
    assert |there| > 0 ==> there[0] in there;
    gone := |there| == 0;
  }

  method FinalTxn(o: Owner, pre: Pre, env: Env) returns (ok: bool)
    requires o.Valid() && o.first.primary == o.self
    requires pre.MarkMaintPostReb? || (pre.Unreg? && o.self !in pre.sids)
    modifies o
    ensures o.Valid() && BatchOps(o.txns) == BatchOps(old(o.txns)) + if ok then [pre] else []
    ensures ok <==> PreOk(pre, old(o.smap.View()), o.self, env.lastReb) && env.lastSaved
  {
    o.PublishedIsSound();
    var started;
    ok, started := Txn1(o, pre, env.lastReb, env.lastSaved, RebArgs(true, true, env.reb));
  }

  method MarkTxn(o: Owner, pre: Pre, reb: bool, env: Env) returns (ok: bool, started: bool, ghost prev: Smap)
    requires o.Valid() && pre.MarkMaint?
    modifies o
    ensures o.Valid() && BatchOps(o.txns) == BatchOps(old(o.txns)) + if ok then [pre] else []
    ensures ok <==> PreOk(pre, prev, o.self, env.firstReb) && env.firstSaved
    ensures ok ==> PreStep(pre, prev, o.smap.View())
    ensures started <==> ok && reb && ActiveChanged(env.reb, prev, o.smap.View())
  {
    Others(o);
    prev := o.smap.View();
    ok, started := Txn1(o, pre, env.firstReb, env.firstSaved, RebArgs(!reb, true, env.reb));
  }

  /** How an operation goes: whether it comes to the mark, which would take the map from `prev`
      to `cur`, and the last step, which looks at `at`. */
  datatype Trace = Trace(tried: bool, mark: Option<Pre>, prev: Smap, cur: Smap, at: Smap, last: Last)

  ghost function Nothing(m: Smap): Trace { Trace(false, None, m, m, m, Last(None, m, None)) }

  /** Nothing has been published. */
  ghost predicate Silent(t: Trace) { t.mark == None && t.last.fin == None }

  /** The mark is for the whole batch in one transaction. */
  ghost predicate Marks(action: Action, batch: seq<NodeId>, self: NodeId, env: Env, t: Trace) {
    var pre := MarkMaint(batch, action == Decommission);
    && t.tried && t.mark == (if PreOk(pre, t.prev, self, env.firstReb) && env.firstSaved then Some(pre) else None)
    && (t.mark.Some? ==> PreStep(pre, t.prev, t.cur))
  }

  ghost predicate Finishes(action: Action, batch: seq<NodeId>, self: NodeId, env: Env, t: Trace, now: Smap,
                           res: RmResult) {
    && LastStep(action, batch, false, t.at, self, env, t.last)
    && res == if Succeeds(t.last, now) then Finalized else Failed
  }

  /** The mark, and what follows: refusal, a rebalance exactly if one is wanted and the active
      targets have changed, or the last step right away. */
  ghost predicate MarksThenEnds(action: Action, batch: seq<NodeId>, reb: bool, self: NodeId, env: Env, t: Trace,
                                now: Smap, res: RmResult) {
    && Marks(action, batch, self, env, t)
    && if t.mark == None then res == Refused && Silent(t)
       else if reb && ActiveChanged(env.reb, t.prev, t.cur) then res == Rebalancing && t.last.fin == None
       else Finishes(action, batch, self, env, t, now, res)
  }

  method RmTargets(o: Owner, action: Action, batch: seq<NodeId>, reb: bool, env: Env)
    returns (res: RmResult, ghost t: Trace)
    requires o.Valid() && o.first.primary == o.self && o.self !in batch && !action.RmUnsafe?
    modifies o
    ensures o.Valid() && BatchOps(o.txns) == BatchOps(old(o.txns)) + Listed(t.mark) + Listed(t.last.fin)
    ensures MarksThenEnds(action, batch, reb, o.self, env, t, o.smap.View(), res)
  {
    var pre := MarkMaint(batch, action.Decommission?);
    ghost var prev;
    var ok, started;
    ok, started, prev := MarkTxn(o, pre, reb, env);
    var v := o.smap.View();
    t := Trace(true, if ok then Some(pre) else None, prev, v, v, Last(None, v, None));
    if !ok { return Refused, t; }
    if started { return Rebalancing, t; }
    ghost var l;
    ok, l := RmNodesFinal(o, action, batch, false, env);
    t := t.(last := l);
    res := if ok then Finalized else Failed;
  }

  /** A rebalance is wanted: not to be skipped, enabled, and the batch has an active target. */
  ghost predicate Wanted(seen: Smap, batch: seq<NodeId>, skipRebalance: bool, env: Env) {
    !skipRebalance && env.reb.enabled && HasActive(seen, batch)
  }

  /** How an operation on a selected batch ends. Batches with targets, and unsafe removals that
      are not to skip rebalancing, may be refused before anything happens; there is nothing to
      mark if the removal is unsafe or all nodes are in maintenance already. */
  ghost predicate Ends(action: Action, batch: seq<NodeId>, seen: Smap, skipRebalance: bool, self: NodeId, env: Env,
                       t: Trace, now: Smap, res: RmResult) {
    if batch == [] then res == NothingToDo && Silent(t)
    else if (HasTarget(seen, batch) && env.rebRunning) || (action == RmUnsafe && !skipRebalance) then
      res == Refused && Silent(t)
    else if action == RmUnsafe || (action == StartMaintenance && AllDown(seen, batch)) then
      t.mark == None && Finishes(action, batch, self, env, t, now, res)
    else if Wanted(seen, batch, skipRebalance, env) && env.cannot then res == Refused && Silent(t)
    else MarksThenEnds(action, batch, Wanted(seen, batch, skipRebalance, env), self, env, t, now, res)
  }

  /** A batch operation as a whole, interleaved with others at every step, and exactly how it
      ends. All or nothing: a refused request publishes nothing; otherwise the whole selection
      is marked in a single transaction, never with the primary in it, and at most one more
      follows. `seen` is the map against which the request is checked. */
  method RmNode(o: Owner, action: Action, sids: seq<NodeId>, skipRebalance: bool, env: Env)
    returns (res: RmResult, ghost seen: Smap, ghost t: Trace)
    requires o.Valid() && o.first.primary == o.self
    modifies o
    ensures o.Valid() && BatchOps(o.txns) == BatchOps(old(o.txns)) + Listed(t.mark) + Listed(t.last.fin)
    ensures if env.busy || Refuses(seen, o.self, action, sids, env.rebAt) then res == Refused && Silent(t)
            else Ends(action, Selected(seen, o.self, action, sids, |sids|), seen, skipRebalance, o.self, env, t,
                      o.smap.View(), res)
  {
    Others(o);
    var v := o.smap.View();
    seen, t := v, Nothing(v);
    if env.busy { return Refused, seen, t; }
    var sel := SelectNodes(v, o.self, action, sids, env.rebAt);
    if sel.Refuse? { return Refused, seen, t; }
    res, t := RmSelected(o, action, sel, v, skipRebalance, env);
  }

  method FinishOnly(o: Owner, action: Action, batch: seq<NodeId>, env: Env) returns (res: RmResult, ghost t: Trace)
    requires o.Valid() && o.first.primary == o.self && o.self !in batch
    modifies o
    ensures o.Valid() && BatchOps(o.txns) == BatchOps(old(o.txns)) + Listed(t.mark) + Listed(t.last.fin)
    ensures t.mark == None && Finishes(action, batch, o.self, env, t, o.smap.View(), res)
  {
    t := Nothing(o.smap.View());
    var ok;
    ghost var l;
    ok, l := RmNodesFinal(o, action, batch, false, env);
    t := t.(last := l);
    res := if ok then Finalized else Failed;
  }

  method RmSelected(o: Owner, action: Action, sel: Selection, ghost seen: Smap, skipRebalance: bool, env: Env)
    returns (res: RmResult, ghost t: Trace)
    requires o.Valid() && o.first.primary == o.self && sel.Select? && o.self !in sel.sids
    requires sel.sids != [] ==>
               (sel.noPostReb == |sel.sids| <==> action == StartMaintenance && AllDown(seen, sel.sids))
    requires sel.hasTarget <==> HasTarget(seen, sel.sids)
    requires sel.active > 0 <==> HasActive(seen, sel.sids)
    modifies o
    ensures o.Valid() && BatchOps(o.txns) == BatchOps(old(o.txns)) + Listed(t.mark) + Listed(t.last.fin)
    ensures Ends(action, sel.sids, seen, skipRebalance, o.self, env, t, o.smap.View(), res)
  {
    t, res := Nothing(o.smap.View()), Refused;
    assert BatchOps(o.txns) + Listed(t.mark) + Listed(t.last.fin) == BatchOps(o.txns);
    if |sel.sids| == 0 { res := NothingToDo; return; }
    if sel.hasTarget && env.rebRunning { return; }
    if action.RmUnsafe? && !skipRebalance { return; }
    if sel.noPostReb == |sel.sids| || action.RmUnsafe? {
      // nothing to mark: all are in maintenance already, or the removal is unsafe
      res, t := FinishOnly(o, action, sel.sids, env);
      return;
    }
    var reb := !skipRebalance && env.reb.enabled && sel.active > 0;
    if reb && env.cannot { return; }
    res, t := RmTargets(o, action, sel.sids, reb, env);
  }

  // ----- and back ------------------------------------------------------------------------

  ghost function InMaintenance(v: Smap, sids: seq<NodeId>, n: nat): (sel: seq<NodeId>)
    requires n <= |sids| && forall i :: 0 <= i < n ==> v.HasNode(sids[i])
    ensures forall id :: id in sel <==> id in sids[..n] && Maint in v.FlagsOf(id)
  {
    if n == 0 then []
    else
      assert sids[..n] == sids[..n - 1] + [sids[n - 1]];
      InMaintenance(v, sids, n - 1) + if Maint in v.FlagsOf(sids[n - 1]) then [sids[n - 1]] else []
  }

  ghost predicate Returnable(v: Smap, sids: seq<NodeId>) {
    forall i :: 0 <= i < |sids| ==> v.HasNode(sids[i]) && Decomm !in v.FlagsOf(sids[i])
  }

  /** How many of the nodes are targets, as often as they are listed. */
  ghost function CountTargets(v: Smap, sids: seq<NodeId>): nat {
    if sids == [] then 0
    else CountTargets(v, sids[..|sids| - 1]) + if sids[|sids| - 1] in v.tmap then 1 else 0
  }

  lemma {:induction false} NoTargets(v: Smap, sids: seq<NodeId>)
    ensures CountTargets(v, sids) > 0 <==> HasTarget(v, sids)
  {
    if sids != [] {
      var rest, last := sids[..|sids| - 1], sids[|sids| - 1];
      NoTargets(v, rest);
      assert sids == rest + [last];
      assert forall id :: id in sids <==> id in rest || id == last;
    }
  }

  /** The nodes of the request that are in maintenance; a missing node, or one that is being
      decommissioned, refuses the whole request. */
  method SelectReturning(v: Smap, sids: seq<NodeId>) returns (sel: Option<seq<NodeId>>, targets: nat)
    ensures sel.Some? <==> Returnable(v, sids)
    ensures sel.Some? ==> sel.value == InMaintenance(v, sids, |sids|) && targets == CountTargets(v, sel.value)
  {
    var selected := [];
    targets := 0;
    for i := 0 to |sids|
      invariant forall k :: 0 <= k < i ==> v.HasNode(sids[k]) && Decomm !in v.FlagsOf(sids[k])
      invariant selected == InMaintenance(v, sids, i) && targets == CountTargets(v, selected)
    {
      if !v.HasNode(sids[i]) { return None, 0; }
      var flags := v.FlagsOf(sids[i]);
      if Decomm in flags { return None, 0; }
      if Maint in flags {
        assert (selected + [sids[i]])[..|selected|] == selected;
        selected := selected + [sids[i]];
        if sids[i] in v.tmap { targets := targets + 1; }
      }
    }
    sel := Some(selected);
  }

  /** A rebalance is wanted and possible: the nodes that return are looked up in `seen`, and the
      active targets counted in `again`. */
  ghost predicate Rebalances(seen: Smap, batch: seq<NodeId>, skipRebalance: bool, env: Env, again: Smap) {
    && !skipRebalance && env.reb.enabled && !env.reb.stopping
    && HasTarget(seen, batch) && |again.ActiveTargets()| + CountTargets(seen, batch) >= 2
  }

  /** How the return of a batch ends: refused before the transaction or by it; or published,
      with a rebalance exactly if one is wanted and possible, a target has become active, and
      there are two at least. */
  ghost predicate ReturnEnds(batch: seq<NodeId>, seen: Smap, skipRebalance: bool, self: NodeId, env: Env,
                             again: Smap, prev: Smap, cur: Smap, op: Option<Pre>, res: RmResult) {
    var pre, reb := StopMaint(batch), Rebalances(seen, batch, skipRebalance, env, again);
    if batch == [] then res == NothingToDo && op == None
    else if (HasTarget(seen, batch) && env.rebRunning) || env.unreachable || (reb && env.cannot)
            || !PreOk(pre, prev, self, env.firstReb) || !env.firstSaved then res == Refused && op == None
    else
      && op == Some(pre) && PreStep(pre, prev, cur)
      && res == if reb && cur.ActiveTargets() != prev.ActiveTargets() && |cur.ActiveTargets()| >= 2 then Rebalancing
                else Finalized
  }

  /** Takes a batch out of maintenance, interleaved with others: all that the request names
      and that are in maintenance, in one transaction, or none; and exactly how it ends. */
  method StopMaintenance(o: Owner, sids: seq<NodeId>, skipRebalance: bool, env: Env)
    returns (res: RmResult, ghost seen: Smap, ghost again: Smap, ghost prev: Smap, ghost op: Option<Pre>)
    requires o.Valid()
    modifies o
    ensures o.Valid() && BatchOps(o.txns) == BatchOps(old(o.txns)) + Listed(op)
    ensures if env.busy || !Returnable(seen, sids) then res == Refused && op == None
            else ReturnEnds(InMaintenance(seen, sids, |sids|), seen, skipRebalance, o.self, env, again, prev,
                            o.smap.View(), op, res)
  {
    Others(o);
    var v := o.smap.View();
    seen, again, prev, op := v, v, v, None;
    if env.busy { return Refused, seen, again, prev, op; }
    var sel, targets := SelectReturning(v, sids);
    if sel.None? { return Refused, seen, again, prev, op; }
    if |sel.value| == 0 { return NothingToDo, seen, again, prev, op; }
    res, again, prev, op := ReturnSelected(o, sel.value, targets, v, skipRebalance, env);
  }

  method ReturnSelected(o: Owner, batch: seq<NodeId>, targets: nat, ghost seen: Smap, skipRebalance: bool, env: Env)
    returns (res: RmResult, ghost again: Smap, ghost prev: Smap, ghost op: Option<Pre>)
    requires o.Valid() && batch != [] && targets == CountTargets(seen, batch)
    modifies o
    ensures o.Valid() && BatchOps(o.txns) == BatchOps(old(o.txns)) + Listed(op)
    ensures ReturnEnds(batch, seen, skipRebalance, o.self, env, again, prev, o.smap.View(), op, res)
  {
    NoTargets(seen, batch);
    ghost var now := o.smap.View();
    res, again, prev, op := Refused, now, now, None;
    if targets > 0 && env.rebRunning { return; }
    if env.unreachable { return; }
    Others(o);
    var v := o.smap.View();
    again, prev := v, v;
    var reb := targets > 0 && !skipRebalance && env.reb.enabled && !env.reb.stopping
               && |v.ActiveTargets()| + targets >= 2;
    if reb && env.cannot { return; }
    var ok, started;
    ok, started, prev := ReturnTxn(o, StopMaint(batch), reb, env);
    if ok { op, res := Some(StopMaint(batch)), if started then Rebalancing else Finalized; }
  }

  method ReturnTxn(o: Owner, pre: Pre, reb: bool, env: Env) returns (ok: bool, started: bool, ghost prev: Smap)
    requires o.Valid() && pre.StopMaint? && (reb ==> env.reb.enabled && !env.reb.stopping)
    modifies o
    ensures o.Valid() && BatchOps(o.txns) == BatchOps(old(o.txns)) + if ok then [pre] else []
    ensures ok <==> PreOk(pre, prev, o.self, env.firstReb) && env.firstSaved
    ensures ok ==> PreStep(pre, prev, o.smap.View())
    ensures started <==>
            && ok && reb && o.smap.View().ActiveTargets() != prev.ActiveTargets()
            && |o.smap.View().ActiveTargets()| >= 2
  {
    Others(o);
    prev := o.smap.View();
    ok, started := Txn1(o, pre, env.firstReb, env.firstSaved, RebArgs(!reb, true, env.reb));
  }
}
