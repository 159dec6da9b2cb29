/** The update transactions of the cluster map: which of them proceed, what they make of
    the map, and what all of them keep (`ais/prxcycle.go`, `ais/pclupost.go`,
    `ais/kalive.go`). */
module Lifecycle {

  import opened ClusterMap

  /** The `pre` callback of an update transaction. */
  datatype Pre =
    | MarkMaint(sids: seq<NodeId>, decomm: bool)
    | MarkMaintPostReb(sids: seq<NodeId>)
    | StopMaint(sids: seq<NodeId>)
    | Unreg(sids: seq<NodeId>, isUnsafe: bool)
    | Joined(id: NodeId, isProxy: bool, nflags: Flags)
    | KeepaliveRemove(sids: seq<NodeId>)

  const POST_REB_FLAGS: Flags := {Maint, MaintPostReb}

  predicate AllPresent(m: Smap, sids: seq<NodeId>) { forall i :: 0 <= i < |sids| ==> m.HasNode(sids[i]) }
  predicate AnyPresent(m: Smap, sids: seq<NodeId>) { exists i :: 0 <= i < |sids| && m.HasNode(sids[i]) }
  predicate AnyTarget(m: Smap, sids: seq<NodeId>) { exists i :: 0 <= i < |sids| && sids[i] in m.tmap }
  predicate AnyProxy(m: Smap, sids: seq<NodeId>) { exists i :: 0 <= i < |sids| && sids[i] in m.pmap }

  /** Whether `pre` lets the transaction proceed; `rebRunning` says that a rebalance
      listener is running. A joining node that is already present with the other type
      is refused (`_joinKalive`), or else adding it would abort the process. */
  predicate PreOk(pre: Pre, m: Smap, self: NodeId, rebRunning: bool) {
    && m.primary == self
    && match pre
       case MarkMaint(sids, _) => AllPresent(m, sids) && !(AnyTarget(m, sids) && rebRunning)
       case MarkMaintPostReb(_) => true
       case StopMaint(sids) => AllPresent(m, sids) && !(AnyTarget(m, sids) && rebRunning)
       case Unreg(sids, isUnsafe) => AnyPresent(m, sids) && !(isUnsafe && AnyTarget(m, sids) && rebRunning)
       case Joined(id, isProxy, _) => if isProxy then id !in m.tmap else id !in m.pmap
       case KeepaliveRemove(sids) => AnyPresent(m, sids)
  }

  function EditOf(pre: Pre): Edit {
    match pre
    case MarkMaint(_, decomm) => Mark(if decomm then {Decomm} else {Maint})
    case MarkMaintPostReb(_) => MarkTarget(POST_REB_FLAGS)
    case StopMaint(_) => Unmark(POST_REB_FLAGS)
    case _ => Remove
  }

  ghost predicate StaffedIf(staff: bool, before: Smap, after: Smap) {
    if staff then exists count :: Staffed(before, after, count) else after == before
  }

  /** One keepalive removal: staffing follows every removed proxy. */
  ghost predicate DropOne(before: Smap, id: NodeId, after: Smap) {
    StaffedIf(id in before.pmap, before.Del(id), after)
  }

  ghost predicate DropRun(ms: seq<Smap>, sids: seq<NodeId>) {
    |ms| == |sids| + 1 && forall i :: 0 <= i < |sids| ==> DropOne(ms[i], sids[i], ms[i + 1])
  }

  ghost predicate DropAll(before: Smap, sids: seq<NodeId>, after: Smap) {
    exists ms :: DropRun(ms, sids) && ms[0] == before && ms[|sids|] == after
  }

  /** Whether the IC is staffed again at the end of the transaction. */
  ghost predicate Staffs(pre: Pre, m: Smap) {
    match pre
    case MarkMaint(_, _) => true
    case MarkMaintPostReb(_) => false
    case StopMaint(sids) => AnyProxy(m, sids)
    case Unreg(sids, _) => AnyProxy(m, sids)
    case Joined(_, isProxy, _) => isProxy
    case KeepaliveRemove(_) => false
  }

  /** What a successful `pre` makes of the clone. */
  ghost predicate PreStep(pre: Pre, before: Smap, after: Smap) {
    match pre
    case Joined(id, isProxy, flags) => StaffedIf(isProxy, before.Put(id, isProxy, flags), after)
    case KeepaliveRemove(sids) => DropAll(before, sids, after)
    case _ => StaffedIf(Staffs(pre, before), Apply(before, EditOf(pre), pre.sids, |pre.sids|), after)
  }

  /** The primary never removes itself: node removal and keepalive refuse or skip it. */
  ghost predicate SparesPrimary(pre: Pre, m: Smap) {
    (pre.Unreg? || pre.KeepaliveRemove?) ==> m.primary !in pre.sids
  }

  // ----- one transaction -------------------------------------------------------------

  /** No node turns from a proxy into a target or the other way around. */
  ghost predicate NoTypeChange(a: Smap, b: Smap) {
    a.tmap.Keys !! b.pmap.Keys && a.pmap.Keys !! b.tmap.Keys
  }

  /** What every transaction keeps. */
  ghost predicate Keeps(before: Smap, after: Smap) {
    && after.WellFormed() && after.IcOk() && (before.IcFull() ==> after.IcFull())
    && Versioned(before, after) && after.primary == before.primary
    && NoTypeChange(before, after)
  }

  lemma SeatsAtMost(before: Smap, after: Smap)
    requires before.IcOk() && after.primary == before.primary
    requires after.ICs() <= before.ICs()
    ensures |after.ICs() + {after.primary}| <= 3
  {
    assert after.ICs() + {after.primary} <= before.ICs();
    CardAtMost(after.ICs() + {after.primary}, before.ICs());
  }

  lemma EditedKeeps(m: Smap, e: Edit, ids: set<NodeId>, r: Smap)
    requires m.WellFormed() && m.IcOk() && Edited(m, e, ids, r)
    requires e.Mark? || e.MarkTarget? ==> IC !in e.flags
    requires e.Unmark? ==> IC !in e.flags
    requires e.Remove? ==> m.primary !in ids
    ensures r.WellFormed() && Versioned(m, r) && NoTypeChange(m, r)
    ensures r.ICs() <= m.ICs()
    ensures (forall id :: id in ids ==> id !in m.pmap) || e.Unmark? || e.MarkTarget? ==> r.ICs() == m.ICs()
  {
  }

  lemma StaffedKeeps(before: Smap, mid: Smap, after: Smap)
    requires mid.WellFormed() && StaffedIf(true, mid, after)
    requires |mid.ICs() + {mid.primary}| <= 4
    requires Versioned(before, mid) && NoTypeChange(before, mid) && mid.primary == before.primary
    ensures Keeps(before, after)
  {
  }

  lemma EditStepKeeps(pre: Pre, before: Smap, after: Smap)
    requires before.WellFormed() && before.IcOk() && SparesPrimary(pre, before)
    requires !pre.Joined? && !pre.KeepaliveRemove? && PreStep(pre, before, after)
    ensures Keeps(before, after)
  {
    var n := |pre.sids|;
    var mid := Apply(before, EditOf(pre), pre.sids, n);
    BatchIsSimultaneous(before, EditOf(pre), pre.sids, n);
    EditedKeeps(before, EditOf(pre), Batch(pre.sids), mid);
    SeatsAtMost(before, mid);
    if Staffs(pre, before) {
      StaffedKeeps(before, mid, after);
    } else if pre.Unreg? {
      assert forall id :: id in Batch(pre.sids) ==> id !in before.pmap;
    }
  }

  lemma JoinKeeps(pre: Pre, before: Smap, after: Smap)
    requires before.WellFormed() && before.IcOk() && pre.Joined?
    requires if pre.isProxy then pre.id !in before.tmap else pre.id !in before.pmap
    requires PreStep(pre, before, after)
    ensures Keeps(before, after)
  {
    var mid := before.Put(pre.id, pre.isProxy, pre.nflags);
    if pre.isProxy {
      assert mid.ICs() + {mid.primary} <= before.ICs() + {pre.id};
      CardPlus(before.ICs(), pre.id);
      CardAtMost(mid.ICs() + {mid.primary}, before.ICs() + {pre.id});
      StaffedKeeps(before, mid, after);
    } else {
      assert mid.ICs() == before.ICs();
    }
  }

  lemma DropKeeps(before: Smap, id: NodeId, after: Smap)
    requires before.WellFormed() && before.IcOk() && id != before.primary
    requires DropOne(before, id, after)
    ensures Keeps(before, after)
    ensures after.tmap == before.tmap - {id} && after.pmap.Keys == before.pmap.Keys - {id}
  {
    var mid := before.Del(id);
    assert mid.ICs() <= before.ICs();
    SeatsAtMost(before, mid);
    if id in before.pmap {
      StaffedKeeps(before, mid, after);
    } else {
      assert mid.ICs() == before.ICs();
    }
  }

  lemma {:induction false} DropRunKeeps(ms: seq<Smap>, sids: seq<NodeId>, n: nat)
    requires DropRun(ms, sids) && n <= |sids|
    requires ms[0].WellFormed() && ms[0].IcOk() && ms[0].primary !in sids
    ensures Keeps(ms[0], ms[n])
    ensures ms[n].tmap == ms[0].tmap - FirstN(sids, n) && ms[n].pmap.Keys == ms[0].pmap.Keys - FirstN(sids, n)
  {
    if n > 0 {
      DropRunKeeps(ms, sids, n - 1);
      assert DropOne(ms[n - 1], sids[n - 1], ms[n]);
      DropKeeps(ms[n - 1], sids[n - 1], ms[n]);
      assert FirstN(sids, n) == FirstN(sids, n - 1) + {sids[n - 1]};
    }
  }

  /** Every transaction, in every iteration order, keeps the map well formed and the IC
      staffed with the primary and at most three members, never decreases the version,
      changes content only together with the version, and changes no node's type. */
  lemma StepKeeps(pre: Pre, before: Smap, after: Smap, self: NodeId, rebRunning: bool)
    requires before.WellFormed() && before.IcOk() && SparesPrimary(pre, before)
    requires PreOk(pre, before, self, rebRunning) && PreStep(pre, before, after)
    ensures Keeps(before, after)
  {
    match pre
    case Joined(_, _, _) => JoinKeeps(pre, before, after);
    case KeepaliveRemove(sids) =>
      var ms :| DropRun(ms, sids) && ms[0] == before && ms[|sids|] == after;
      DropRunKeeps(ms, sids, |sids|);
    case _ => EditStepKeeps(pre, before, after);
  }

  /** The mark reaches every node of the batch, and outside of the batch nothing changes
      but IC membership. */
  lemma MarkReachesAll(sids: seq<NodeId>, decomm: bool, before: Smap, after: Smap, id: NodeId)
    requires before.WellFormed() && before.IcOk() && PreStep(MarkMaint(sids, decomm), before, after)
    requires before.HasNode(id)
    ensures after.HasNode(id)
    ensures id in sids ==> (if decomm then Decomm else Maint) in after.FlagsOf(id)
    ensures id !in sids ==> after.FlagsOf(id) - {IC} == before.FlagsOf(id) - {IC}
  {
    var e := EditOf(MarkMaint(sids, decomm));
    var mid := Apply(before, e, sids, |sids|);
    BatchIsSimultaneous(before, e, sids, |sids|);
    assert id in sids <==> id in Batch(sids);
    assert mid.HasNode(id);
    assert mid.FlagsOf(id) == if id in sids then NewFlags(e, before.FlagsOf(id)) else before.FlagsOf(id);
    assert after.HasNode(id) && after.FlagsOf(id) - {IC} == mid.FlagsOf(id) - {IC};
    var flag := if decomm then Decomm else Maint;
    assert flag in after.FlagsOf(id) <==> flag in after.FlagsOf(id) - {IC};
    assert flag in mid.FlagsOf(id) <==> flag in mid.FlagsOf(id) - {IC};
  }

  // ----- what becomes of the nodes -----------------------------------------------------

  /** The nodes and their flags after an edit: `gone` are removed, and the flags of the rest
      are changed for the batch only. */
  ghost predicate NodesAfter(before: map<NodeId, Flags>, after: map<NodeId, Flags>, sids: seq<NodeId>,
                             gone: bool, added: Flags, cleared: Flags) {
    && (forall id :: id in after <==> id in before && !(gone && id in sids))
    && (forall id :: id in after ==> after[id] == if id in sids then before[id] + added - cleared else before[id])
  }

  /** The same of proxies, of which staffing may change the IC flag. */
  ghost predicate ProxiesAfter(before: map<NodeId, Flags>, after: map<NodeId, Flags>, sids: seq<NodeId>,
                               gone: bool, added: Flags, cleared: Flags) {
    && (forall id :: id in after <==> id in before && !(gone && id in sids))
    && (forall id :: id in after ==>
          after[id] - {IC} == (if id in sids then before[id] + added - cleared else before[id]) - {IC})
  }

  /** What a transaction makes of the map, in terms of nodes and flags. */
  ghost predicate MapAfter(pre: Pre, before: Smap, after: Smap) {
    match pre
    case MarkMaint(sids, decomm) =>
      var flag := if decomm then Decomm else Maint;
      && NodesAfter(before.tmap, after.tmap, sids, false, {flag}, {IC})
      && ProxiesAfter(before.pmap, after.pmap, sids, false, {flag}, {IC})
    case MarkMaintPostReb(sids) =>
      && NodesAfter(before.tmap, after.tmap, sids, false, {Maint, MaintPostReb}, {IC})
      && after.pmap == before.pmap
    case StopMaint(sids) =>
      && NodesAfter(before.tmap, after.tmap, sids, false, {}, {Maint, MaintPostReb})
      && ProxiesAfter(before.pmap, after.pmap, sids, false, {}, {Maint, MaintPostReb})
    case Joined(id, isProxy, flags) =>
      if !isProxy then after.tmap == before.tmap[id := flags] && after.pmap == before.pmap
      else after.tmap == before.tmap && ProxiesAfter(before.pmap[id := flags], after.pmap, [], false, {}, {})
    case _ =>
      && NodesAfter(before.tmap, after.tmap, pre.sids, true, {}, {})
      && ProxiesAfter(before.pmap, after.pmap, pre.sids, true, {}, {})
  }

  lemma EditMeans(pre: Pre, before: Smap, mid: Smap)
    requires !pre.Joined? && !pre.KeepaliveRemove? && Edited(before, EditOf(pre), Batch(pre.sids), mid)
    ensures MapAfter(pre, before, mid)
  {
    assert forall id :: id in pre.sids <==> id in Batch(pre.sids);
    assert Maint in {Maint} * MAINT_DECOMM && Decomm in {Decomm} * MAINT_DECOMM;
    assert Maint in {Maint, MaintPostReb} * MAINT_DECOMM;
  }

  lemma StaffedMeans(pre: Pre, before: Smap, mid: Smap, after: Smap)
    requires !pre.MarkMaintPostReb? && !(pre.Joined? && !pre.isProxy)
    requires MapAfter(pre, before, mid) && SameButIC(mid, after)
    ensures MapAfter(pre, before, after)
  {
  }

  lemma DropsMean(sids: seq<NodeId>, before: Smap, ms: seq<Smap>, n: nat)
    requires DropRun(ms, sids) && n <= |sids| && ms[0] == before && before.WellFormed()
    ensures MapAfter(KeepaliveRemove(sids[..n]), before, ms[n]) && ms[n].primary == before.primary
  {
    if n > 0 {
      DropsMean(sids, before, ms, n - 1);
      assert DropOne(ms[n - 1], sids[n - 1], ms[n]);
      assert sids[..n] == sids[..n - 1] + [sids[n - 1]];
      DropMeans(sids[..n - 1], before, ms[n - 1], sids[n - 1], ms[n]);
    }
  }

  lemma DropMeans(sids: seq<NodeId>, before: Smap, mid: Smap, id: NodeId, after: Smap)
    requires before.WellFormed() && MapAfter(KeepaliveRemove(sids), before, mid) && DropOne(mid, id, after)
    ensures MapAfter(KeepaliveRemove(sids + [id]), before, after) && after.primary == mid.primary
  {
    assert mid.tmap.Keys <= before.tmap.Keys && mid.pmap.Keys <= before.pmap.Keys;
    assert forall x :: x in sids + [id] <==> x in sids || x == id;
  }

  /** Every transaction does to the nodes what it is for, and nothing else: marks, clears
      and removes exactly the batch, and adds the joining node with its flags. */
  lemma StepIs(pre: Pre, before: Smap, after: Smap)
    requires before.WellFormed() && PreStep(pre, before, after)
    ensures MapAfter(pre, before, after) && after.primary == before.primary
  {
    match pre
    case Joined(id, isProxy, flags) =>
    case KeepaliveRemove(sids) =>
      var ms :| DropRun(ms, sids) && ms[0] == before && ms[|sids|] == after;
      DropsMean(sids, before, ms, |sids|);
      assert sids[..|sids|] == sids;
    case _ =>
      var mid := Apply(before, EditOf(pre), pre.sids, |pre.sids|);
      BatchIsSimultaneous(before, EditOf(pre), pre.sids, |pre.sids|);
      EditMeans(pre, before, mid);
      if Staffs(pre, before) { StaffedMeans(pre, before, mid, after); }
  }

  /** When a transaction proceeds: on the primary; with all nodes that are to be marked or
      cleared, or some of those to be removed; without targets in the batch if a rebalance is
      running, unless it completes one, removes nodes after one, or is a keepalive's; and not
      for a node that is known as one of the other type. */
  lemma PreOkIs(pre: Pre, m: Smap, self: NodeId, rebRunning: bool)
    ensures PreOk(pre, m, self, rebRunning) <==>
            && m.primary == self
            && (pre.MarkMaint? || pre.StopMaint? ==> Batch(pre.sids) <= m.tmap.Keys + m.pmap.Keys)
            && (pre.Unreg? || pre.KeepaliveRemove? ==> Batch(pre.sids) * (m.tmap.Keys + m.pmap.Keys) != {})
            && (rebRunning && (pre.MarkMaint? || pre.StopMaint? || (pre.Unreg? && pre.isUnsafe)) ==>
                  Batch(pre.sids) !! m.tmap.Keys)
            && (pre.Joined? ==> pre.id !in if pre.isProxy then m.tmap.Keys else m.pmap.Keys)
  {
    if !pre.Joined? { BatchIn(m, pre.sids); }
  }

  lemma BatchIn(m: Smap, sids: seq<NodeId>)
    ensures AllPresent(m, sids) <==> Batch(sids) <= m.tmap.Keys + m.pmap.Keys
    ensures AnyPresent(m, sids) <==> Batch(sids) * (m.tmap.Keys + m.pmap.Keys) != {}
    ensures AnyTarget(m, sids) <==> !(Batch(sids) !! m.tmap.Keys)
  {
    assert forall i :: 0 <= i < |sids| ==> sids[i] in Batch(sids);
    if i :| 0 <= i < |sids| && m.HasNode(sids[i]) { assert sids[i] in Batch(sids) * (m.tmap.Keys + m.pmap.Keys); }
    if i :| 0 <= i < |sids| && sids[i] in m.tmap { assert sids[i] in m.tmap.Keys; }
  }

  // ----- active targets and rebalance --------------------------------------------------

  ghost function ActiveAfter(pre: Pre, m: Smap): set<NodeId> {
    match pre
    case StopMaint(sids) => m.ActiveTargets() + set id | id in Batch(sids) && id in m.tmap && Decomm !in m.tmap[id]
    case Joined(id, isProxy, flags) =>
      if isProxy then m.ActiveTargets()
      else if flags * MAINT_DECOMM == {} then m.ActiveTargets() + {id}
      else m.ActiveTargets() - {id}
    case _ => m.ActiveTargets() - Batch(pre.sids)
  }

  lemma EditActive(pre: Pre, m: Smap, r: Smap)
    requires !pre.Joined? && !pre.KeepaliveRemove? && Edited(m, EditOf(pre), Batch(pre.sids), r)
    ensures r.ActiveTargets() == ActiveAfter(pre, m)
  {
    var e := EditOf(pre);
    forall id | id in r.tmap
      ensures id in r.ActiveTargets() <==> id in ActiveAfter(pre, m)
    {
      if id in Batch(pre.sids) && !e.Remove? {
        assert r.tmap[id] == NewFlags(e, m.tmap[id]);
        if e.Unmark? {
          assert Decomm in r.tmap[id] <==> Decomm in m.tmap[id];
          assert Maint !in r.tmap[id];
        } else {
          assert (Maint in e.flags ==> Maint in r.tmap[id]) && (Decomm in e.flags ==> Decomm in r.tmap[id]);
        }
      }
    }
    forall id | id in ActiveAfter(pre, m) ensures id in r.tmap { }
  }

  /** Which targets are active after a transaction. */
  lemma StepActive(pre: Pre, before: Smap, after: Smap)
    requires before.WellFormed() && before.IcOk() && SparesPrimary(pre, before)
    requires PreStep(pre, before, after)
    ensures after.ActiveTargets() == ActiveAfter(pre, before)
  {
    match pre
    case Joined(_, _, _) =>
    case KeepaliveRemove(sids) =>
      var ms :| DropRun(ms, sids) && ms[0] == before && ms[|sids|] == after;
      DropRunKeeps(ms, sids, |sids|);
    case _ =>
      BatchIsSimultaneous(before, EditOf(pre), pre.sids, |pre.sids|);
      EditActive(pre, before, Apply(before, EditOf(pre), pre.sids, |pre.sids|));
  }

  /** What the decision to rebalance depends on besides the two maps. */
  datatype RebEnv = RebEnv(enabled: bool, stopping: bool, interrupted: bool, restarted: bool)

  /** Scans both maps for targets that have become active or stopped being active. */
  method MustRebalance(env: RebEnv, prev: Smap, cur: Smap) returns (must: bool)
    ensures must <==>
            && env.enabled && !env.stopping && prev.ActiveTargets() != {} && cur.ActiveTargets() != {}
            && (env.interrupted || env.restarted
                || (exists id :: id in cur.ActiveTargets() && !prev.IsActiveNode(id))
                || (exists id :: id in prev.ActiveTargets() && !cur.IsActiveNode(id)))
  {
    if !env.enabled { return false; }
    if env.stopping { return false; }
    if |prev.ActiveTargets()| == 0 || |cur.ActiveTargets()| == 0 { return false; }
    if env.interrupted || env.restarted { return true; }
    must := AnyNewlyActive(prev, cur);
    if !must { must := AnyNewlyActive(cur, prev); }
  }

  method AnyNewlyActive(prev: Smap, cur: Smap) returns (found: bool)
    ensures found <==> exists id :: id in cur.ActiveTargets() && !prev.IsActiveNode(id)
  {
    var left := cur.tmap.Keys;
    while left != {}
      invariant left <= cur.tmap.Keys
      invariant forall id :: id in cur.ActiveTargets() && id !in left ==> prev.IsActiveNode(id)
      decreases |left|
    {
      var id :| id in left;
      left := left - {id};
      if cur.tmap[id] * MAINT_DECOMM == {} && !prev.IsActiveNode(id) {
        assert id in cur.ActiveTargets();
        return true;
      }
    }
    return false;
  }

  /** A transaction must be followed by a rebalance exactly when it changes the set of
      active targets, given that rebalance is enabled, the process is not stopping, and
      there are active targets before and after. */
  lemma MustRebalanceIffActiveChanged(pre: Pre, prev: Smap, cur: Smap, self: NodeId, rebRunning: bool)
    requires prev.WellFormed() && prev.IcOk() && SparesPrimary(pre, prev)
    requires PreOk(pre, prev, self, rebRunning) && PreStep(pre, prev, cur)
    ensures cur.ActiveTargets() != prev.ActiveTargets() <==>
            (|| (exists id :: id in cur.ActiveTargets() && !prev.IsActiveNode(id))
             || (exists id :: id in prev.ActiveTargets() && !cur.IsActiveNode(id)))
  {
    StepKeeps(pre, prev, cur, self, rebRunning);
    assert forall id :: id in cur.ActiveTargets() ==> (prev.IsActiveNode(id) <==> id in prev.ActiveTargets());
    assert forall id :: id in prev.ActiveTargets() ==> (cur.IsActiveNode(id) <==> id in cur.ActiveTargets());
    if cur.ActiveTargets() != prev.ActiveTargets() {
      var id :| id in cur.ActiveTargets() - prev.ActiveTargets() || id in prev.ActiveTargets() - cur.ActiveTargets();
    }
  }

  /** Without that restriction on types the scan may miss a change: an ID that was an
      active proxy and becomes an active target goes unnoticed. */
  lemma TypeChangeGoesUnnoticed()
    ensures exists prev: Smap, cur: Smap ::
              && cur.ActiveTargets() != prev.ActiveTargets()
              && (forall id :: id in cur.ActiveTargets() ==> prev.IsActiveNode(id))
              && (forall id :: id in prev.ActiveTargets() ==> cur.IsActiveNode(id))
  {
    var prev := Smap(map["t" := {}], map["p" := {}, "x" := {}], "p", 1);
    var cur := Smap(map["t" := {}, "x" := {}], map["p" := {}], "p", 2);
    assert "x" in cur.ActiveTargets() && "x" !in prev.ActiveTargets();
  }

  /** The target-count test of stop-maintenance: it starts a rebalance. */
  predicate StopMaintRebalances(prev: Smap, cur: Smap) {
    |cur.ActiveTargets()| >= 2 && |cur.ActiveTargets()| > |prev.ActiveTargets()|
  }

  /** Counting is enough: stop-maintenance rebalances exactly when it activates a target
      and there are at least two active targets afterwards, even if there were none. */
  lemma StopMaintRebalancesIffActivated(sids: seq<NodeId>, prev: Smap, cur: Smap)
    requires prev.WellFormed() && prev.IcOk() && PreStep(StopMaint(sids), prev, cur)
    ensures StopMaintRebalances(prev, cur) <==>
            cur.ActiveTargets() != prev.ActiveTargets() && |cur.ActiveTargets()| >= 2
  {
    StepActive(StopMaint(sids), prev, cur);
    CardAtMost(prev.ActiveTargets(), cur.ActiveTargets());
  }

  // ----- maintenance and back ------------------------------------------------------------

  ghost predicate BatchTargetsWithout(m: Smap, sids: seq<NodeId>, flags: Flags) {
    forall id :: id in Batch(sids) && id in m.tmap ==> m.tmap[id] * flags == {}
  }

  lemma EditedTargets(pre: Pre, before: Smap, after: Smap)
    requires before.WellFormed() && before.IcOk() && SparesPrimary(pre, before)
    requires !pre.Joined? && !pre.KeepaliveRemove? && PreStep(pre, before, after)
    ensures after.tmap == EditedMap(before.tmap, EditOf(pre), Batch(pre.sids))
  {
    BatchIsSimultaneous(before, EditOf(pre), pre.sids, |pre.sids|);
  }

  lemma MaintenanceAndBackOnFlags(f: Flags)
    ensures var up := NewFlags(Mark({Maint}), f);
            && NewFlags(Unmark(POST_REB_FLAGS), up) == f - {IC} - POST_REB_FLAGS
            && NewFlags(Unmark(POST_REB_FLAGS), NewFlags(MarkTarget(POST_REB_FLAGS), up)) == f - {IC} - POST_REB_FLAGS
  {
    assert Maint in {Maint} * MAINT_DECOMM && Maint in POST_REB_FLAGS * MAINT_DECOMM;
    var up := NewFlags(Mark({Maint}), f);
    assert up == f + {Maint} - {IC};
    assert NewFlags(MarkTarget(POST_REB_FLAGS), up) == f + POST_REB_FLAGS - {IC};
  }

  /** Start-maintenance, with or without the mark that follows the rebalance, and then
      stop-maintenance of the same batch: the targets are back where they were, flags and
      all, exactly when none of the batch was already in maintenance. */
  lemma StopUndoesStart(sids: seq<NodeId>, m0: Smap, m1: Smap, m2: Smap, m3: Smap)
    requires m0.WellFormed() && m0.IcOk() && AllPresent(m0, sids)
    requires PreStep(MarkMaint(sids, false), m0, m1)
    requires m2 == m1 || PreStep(MarkMaintPostReb(sids), m1, m2)
    requires PreStep(StopMaint(sids), m2, m3)
    ensures m3.tmap == m0.tmap <==> BatchTargetsWithout(m0, sids, {IC} + POST_REB_FLAGS)
    ensures m3.ActiveTargets() == m0.ActiveTargets() <==>
            forall id :: id in Batch(sids) && id in m0.tmap && Maint in m0.tmap[id] ==> Decomm in m0.tmap[id]
  {
    var ids := Batch(sids);
    EditStepKeeps(MarkMaint(sids, false), m0, m1);
    EditedTargets(MarkMaint(sids, false), m0, m1);
    if m2 != m1 {
      EditStepKeeps(MarkMaintPostReb(sids), m1, m2);
      EditedTargets(MarkMaintPostReb(sids), m1, m2);
    }
    EditedTargets(StopMaint(sids), m2, m3);
    forall id | id in m0.tmap
      ensures id in m3.tmap && m3.tmap[id] == if id in ids then m0.tmap[id] - {IC} - POST_REB_FLAGS else m0.tmap[id]
    {
      MaintenanceAndBackOnFlags(m0.tmap[id]);
    }
    RestoredIff(sids, m0, m3);
  }

  lemma RestoredIff(sids: seq<NodeId>, m0: Smap, m3: Smap)
    requires m3.tmap.Keys == m0.tmap.Keys
    requires forall id :: id in m0.tmap ==>
               m3.tmap[id] == if id in Batch(sids) then m0.tmap[id] - {IC} - POST_REB_FLAGS else m0.tmap[id]
    ensures m3.tmap == m0.tmap <==> BatchTargetsWithout(m0, sids, {IC} + POST_REB_FLAGS)
    ensures m3.ActiveTargets() == m0.ActiveTargets() <==>
            forall id :: id in Batch(sids) && id in m0.tmap && Maint in m0.tmap[id] ==> Decomm in m0.tmap[id]
  {
    forall id | id in m0.tmap && id in Batch(sids)
      ensures m3.tmap[id] == m0.tmap[id] <==> m0.tmap[id] * ({IC} + POST_REB_FLAGS) == {}
      ensures (id in m3.ActiveTargets() <==> id in m0.ActiveTargets())
              <==> (Maint in m0.tmap[id] ==> Decomm in m0.tmap[id])
    {
      FlagsRestoredIff(m0.tmap[id]);
    }
    if BatchTargetsWithout(m0, sids, {IC} + POST_REB_FLAGS) {
      assert forall id :: id in m0.tmap ==> m3.tmap[id] == m0.tmap[id];
      assert m3.tmap == m0.tmap;
    }
    if m3.ActiveTargets() != m0.ActiveTargets() {
      var id :| id in m0.tmap && (id in m3.ActiveTargets() <==> id !in m0.ActiveTargets());
      assert id in Batch(sids);
    }
  }

  lemma FlagsRestoredIff(f: Flags)
    ensures var g := f - {IC} - POST_REB_FLAGS;
            && (g == f <==> f * ({IC} + POST_REB_FLAGS) == {})
            && ((g * MAINT_DECOMM == {} <==> f * MAINT_DECOMM == {}) <==> (Maint in f ==> Decomm in f))
  {
    var g := f - {IC} - POST_REB_FLAGS;
    assert g * MAINT_DECOMM == {} <==> Decomm !in f by {
      assert Maint !in g;
      if Decomm in f { assert Decomm in g * MAINT_DECOMM; }
    }
    assert f * MAINT_DECOMM == {} <==> Decomm !in f && Maint !in f by {
      if Decomm in f { assert Decomm in f * MAINT_DECOMM; }
      if Maint in f { assert Maint in f * MAINT_DECOMM; }
    }
    if g == f {
      assert forall x :: x in f * ({IC} + POST_REB_FLAGS) ==> x in f && x !in g;
    }
  }

  // ----- runs --------------------------------------------------------------------------------

  ghost predicate Step(pre: Pre, before: Smap, after: Smap, self: NodeId, rebRunning: bool) {
    PreOk(pre, before, self, rebRunning) && SparesPrimary(pre, before) && PreStep(pre, before, after)
  }

  datatype Txn = Txn(pre: Pre, rebRunning: bool, after: Smap)

  /** The map after the first `n` transactions. */
  ghost function At(first: Smap, txns: seq<Txn>, n: nat): Smap
    requires n <= |txns|
  {
    if n == 0 then first else txns[n - 1].after
  }

  ghost function Last(first: Smap, txns: seq<Txn>): Smap { At(first, txns, |txns|) }

  /** The maps that a primary publishes one after another, starting with a sound one. */
  ghost predicate Run(first: Smap, txns: seq<Txn>, self: NodeId) {
    && first.WellFormed() && first.IcOk()
    && forall i :: 0 <= i < |txns| ==> StepAt(first, txns, self, i)
  }

  ghost predicate StepAt(first: Smap, txns: seq<Txn>, self: NodeId, i: nat)
    requires i < |txns|
  {
    Step(txns[i].pre, At(first, txns, i), txns[i].after, self, txns[i].rebRunning)
  }

  lemma RunExtends(first: Smap, txns: seq<Txn>, self: NodeId, t: Txn)
    requires Run(first, txns, self) && Step(t.pre, Last(first, txns), t.after, self, t.rebRunning)
    ensures Run(first, txns + [t], self) && Last(first, txns + [t]) == t.after
  {
    var more := txns + [t];
    forall i | 0 <= i < |more| ensures StepAt(first, more, self, i) {
      assert At(first, more, i) == At(first, txns, i);
      if i < |txns| { assert more[i] == txns[i] && StepAt(first, txns, self, i); }
    }
  }

  /** Over every run the map stays well formed and the IC staffed, and versions order the
      published maps: an equal version is an equal map. */
  lemma {:induction false} RunKeeps(first: Smap, txns: seq<Txn>, self: NodeId, i: nat, j: nat)
    requires Run(first, txns, self) && i <= j <= |txns|
    ensures At(first, txns, j).WellFormed() && At(first, txns, j).IcOk() && At(first, txns, j).primary == first.primary
    ensures Versioned(At(first, txns, i), At(first, txns, j))
    decreases j
  {
    if 0 < j {
      RunKeeps(first, txns, self, if i < j then i else j - 1, j - 1);
      var t := txns[j - 1];
      assert StepAt(first, txns, self, j - 1);
      StepKeeps(t.pre, At(first, txns, j - 1), t.after, self, t.rebRunning);
    }
  }

  ghost predicate KeptAt(first: Smap, txns: seq<Txn>, n: nat)
    requires n < |txns|
  {
    Keeps(At(first, txns, n), txns[n].after)
  }

  lemma RunIsKept(first: Smap, txns: seq<Txn>, self: NodeId, n: nat)
    requires Run(first, txns, self) && n < |txns|
    ensures KeptAt(first, txns, n)
  {
    RunKeeps(first, txns, self, 0, n);
    assert StepAt(first, txns, self, n);
    StepKeeps(txns[n].pre, At(first, txns, n), txns[n].after, self, txns[n].rebRunning);
  }

  lemma {:induction false} KeptStaysFull(first: Smap, txns: seq<Txn>, n: nat)
    requires n <= |txns| && first.IcFull() && forall i :: 0 <= i < n ==> KeptAt(first, txns, i)
    ensures At(first, txns, n).IcFull()
  {
    if n > 0 {
      KeptStaysFull(first, txns, n - 1);
      assert KeptAt(first, txns, n - 1);
    }
  }

  /** Over every run the IC stays full, if it is full at the start: three members, or every
      proxy that can be elected. */
  lemma RunStaysFull(first: Smap, txns: seq<Txn>, self: NodeId)
    requires Run(first, txns, self) && first.IcFull()
    ensures Last(first, txns).IcFull()
  {
    forall i | 0 <= i < |txns| ensures KeptAt(first, txns, i) { RunIsKept(first, txns, self, i); }
    KeptStaysFull(first, txns, |txns|);
  }
}
