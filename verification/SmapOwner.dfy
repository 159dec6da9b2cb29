/** The cluster map as the primary holds it: objects updated in place, shared with readers
    once published, and therefore only ever updated on a clone (`ais/clustermap.go`). */
module SmapOwner {

  import opened ClusterMap
  import opened Lifecycle

  class Snode {
    const id: NodeId
    const isProxy: bool
    var flags: Flags

    constructor (id: NodeId, isProxy: bool, flags: Flags)
      ensures this.id == id && this.isProxy == isProxy && this.flags == flags
    {
      this.id, this.isProxy, this.flags := id, isProxy, flags;
    }
  }

  type NodeMap = map<NodeId, Snode>

  function FlagMap(nodes: NodeMap): map<NodeId, Flags>
    reads nodes.Values
  {
    map id | id in nodes :: nodes[id].flags
  }

  ghost predicate Keyed(nodes: NodeMap, isProxy: bool) {
    forall id :: id in nodes ==> nodes[id].id == id && nodes[id].isProxy == isProxy
  }

  lemma FlagMapUpdate(nodes: NodeMap, id: NodeId, si: Snode)
    ensures FlagMap(nodes[id := si]) == FlagMap(nodes)[id := si.flags]
    ensures nodes[id := si].Values <= nodes.Values + {si}
  {
  }

  lemma FlagMapRemove(nodes: NodeMap, id: NodeId)
    ensures FlagMap(nodes - {id}) == FlagMap(nodes) - {id}
    ensures (nodes - {id}).Values <= nodes.Values
  {
  }

  class SmapX {
    var tmap: NodeMap
    var pmap: NodeMap
    var primary: NodeId
    var version: nat

    constructor (tmap: NodeMap, pmap: NodeMap, primary: NodeId, version: nat)
      ensures this.tmap == tmap && this.pmap == pmap && this.primary == primary && this.version == version
    {
      this.tmap, this.pmap, this.primary, this.version := tmap, pmap, primary, version;
    }

    function Nodes(): set<Snode>
      reads this
    {
      tmap.Values + pmap.Values
    }

    ghost predicate Valid()
      reads this
    {
      && Keyed(tmap, false) && Keyed(pmap, true)
      && tmap.Keys !! pmap.Keys && primary in pmap
    }

    /** The map as a value. */
    function View(): Smap
      reads this, Nodes()
    {
      Smap(FlagMap(tmap), FlagMap(pmap), primary, version)
    }

    method ApplyFlags(si: Snode, flags: Flags)
      requires Valid() && si in Nodes()
      modifies this`version, si
      ensures Valid() && View() == old(View()).WithFlags(si.id, flags)
    {
      si.flags := flags;
      assert si.isProxy <==> si.id in pmap;
      assert FlagMap(tmap) == if si.isProxy then old(FlagMap(tmap)) else old(FlagMap(tmap))[si.id := flags];
      assert FlagMap(pmap) == if si.isProxy then old(FlagMap(pmap))[si.id := flags] else old(FlagMap(pmap));
      version := version + 1;
    }

    method SetNodeFlags(sid: NodeId, flags: Flags)
      requires Valid() && View().HasNode(sid)
      modifies this`version, Nodes()
      ensures Valid() && View() == old(View()).SetFlags(sid, flags)
    {
      var si := if sid in tmap then tmap[sid] else pmap[sid];
      var newFlags := si.flags + flags;
      if flags * MAINT_DECOMM != {} { newFlags := newFlags - {IC}; }
      assert newFlags == si.flags + flags - if flags * MAINT_DECOMM != {} then {IC} else {};
      ApplyFlags(si, newFlags);
    }

    method ClearNodeFlags(sid: NodeId, flags: Flags)
      requires Valid() && View().HasNode(sid)
      modifies this`version, Nodes()
      ensures Valid() && View() == old(View()).ClearFlags(sid, flags)
    {
      var si := if sid in tmap then tmap[sid] else pmap[sid];
      ApplyFlags(si, si.flags - flags);
    }

    method DelNode(sid: NodeId)
      requires Valid() && sid != primary
      modifies this
      ensures Valid() && Nodes() <= old(Nodes()) && View() == old(View()).Del(sid)
    {
      if sid in pmap {
        FlagMapRemove(pmap, sid);
        pmap := pmap - {sid};
        version := version + 1;
        assert FlagMap(tmap) == old(FlagMap(tmap)) && FlagMap(pmap) == old(FlagMap(pmap)) - {sid};
      } else if sid in tmap {
        FlagMapRemove(tmap, sid);
        tmap := tmap - {sid};
        version := version + 1;
        assert FlagMap(tmap) == old(FlagMap(tmap)) - {sid} && FlagMap(pmap) == old(FlagMap(pmap));
      }
    }

    method PutProxy(id: NodeId, flags: Flags)
      requires Valid() && id !in tmap
      modifies this
      ensures Valid() && fresh(Nodes() - old(Nodes())) && View() == old(View()).Put(id, true, flags)
    {
      var nsi := new Snode(id, true, flags);
      FlagMapUpdate(pmap, id, nsi);
      version := version + if id in pmap then 2 else 1;
      pmap := pmap[id := nsi];
      assert FlagMap(tmap) == old(FlagMap(tmap));
      assert FlagMap(pmap) == old(FlagMap(pmap))[id := flags];
    }

    method PutTarget(id: NodeId, flags: Flags)
      requires Valid() && id !in pmap
      modifies this
      ensures Valid() && fresh(Nodes() - old(Nodes())) && View() == old(View()).Put(id, false, flags)
    {
      var nsi := new Snode(id, false, flags);
      FlagMapUpdate(tmap, id, nsi);
      version := version + if id in tmap then 2 else 1;
      tmap := tmap[id := nsi];
      assert FlagMap(pmap) == old(FlagMap(pmap));
      assert FlagMap(tmap) == old(FlagMap(tmap))[id := flags];
    }

    static method CloneNodes(nodes: NodeMap) returns (copy: NodeMap)
      ensures copy.Keys == nodes.Keys
      ensures forall id :: id in nodes ==>
                fresh(copy[id]) && copy[id].id == nodes[id].id && copy[id].isProxy == nodes[id].isProxy
                && copy[id].flags == nodes[id].flags
    {
      copy := map[];
      var left := nodes.Keys;
      while left != {}
        invariant left <= nodes.Keys && copy.Keys == nodes.Keys - left
        invariant forall id :: id in copy ==>
                    fresh(copy[id]) && copy[id].id == nodes[id].id && copy[id].isProxy == nodes[id].isProxy
                    && copy[id].flags == nodes[id].flags
        decreases left
      {
        var id :| id in left;
        var node := new Snode(nodes[id].id, nodes[id].isProxy, nodes[id].flags);
        copy := copy[id := node];
        left := left - {id};
      }
    }

    /** A deep copy: nothing of it is shared with the original. */
    method Clone() returns (dst: SmapX)
      requires Valid()
      ensures dst.Valid() && fresh(dst) && fresh(dst.Nodes()) && dst.View() == View()
    {
      var t := CloneNodes(tmap);
      var p := CloneNodes(pmap);
      dst := new SmapX(t, p, primary, version);
    }

    // ----- Information Center

    /** Adds one IC member, unless it is one. */
    method SetIC(id: NodeId) returns (ok: bool)
      requires Valid() && id in pmap
      modifies this`version, Nodes()
      ensures Valid() && ok == (id !in old(View()).ICs())
      ensures View() == if ok then old(View()).SetFlags(id, {IC}) else old(View())
    {
      ok := IC !in pmap[id].flags;
      if ok { SetNodeFlags(id, {IC}); }
    }

    /** Removes one member that is not the primary, if there is any. */
    method UnstaffIC() returns (ok: bool)
      requires Valid()
      modifies this`version, Nodes()
      ensures Valid() && (ok <==> old(View()).ICs() - {primary} != {})
      ensures if ok then exists id :: id in old(View()).ICs() - {primary} && View() == old(View()).ClearFlags(id, {IC})
              else View() == old(View())
    {
      var left := pmap.Keys;
      while left != {}
        invariant left <= pmap.Keys && View() == old(View()) && Valid()
        invariant View().ICs() - {primary} <= left
        decreases left
      {
        var pid :| pid in left;
        left := left - {pid};
        if pid == primary || IC !in pmap[pid].flags { continue; }
        assert pid in View().ICs() - {primary};
        ClearNodeFlags(pid, {IC});
        return true;
      }
      return false;
    }

    method CountIC() returns (count: nat)
      requires Valid()
      ensures count == |View().ICs()|
    {
      var ics := set id | id in pmap && IC in pmap[id].flags;
      assert ics == View().ICs();
      count := |ics|;
    }

    /** Seats one more proxy if it is electable and not a member yet. */
    method TrySeat(pid: NodeId, ghost before: Smap, ghost left: set<NodeId>) returns (ok: bool)
      requires Valid() && pid in pmap && Staffing(before, View(), left)
      modifies this`version, Nodes()
      ensures Valid() && Staffing(before, View(), left - {pid})
      ensures |View().ICs()| == old(|View().ICs()|) + if ok then 1 else 0
    {
      ghost var now := View();
      if NonElectable in pmap[pid].flags {
        StaffingSkip(before, now, left, pid);
        return false;
      }
      ok := SetIC(pid);
      if ok {
        StaffingSeat(before, now, left, pid);
      } else {
        StaffingSkip(before, now, left, pid);
      }
    }

    method FillIC(have: nat, ghost before: Smap) returns (count: nat)
      requires Valid() && have < 3 && have == |View().ICs()|
      requires Staffing(before, View(), pmap.Keys)
      modifies this`version, Nodes()
      ensures Valid() && count == |View().ICs()| && count <= 3
      ensures exists left :: Staffing(before, View(), left) && (count == 3 || left == {})
    {
      count := have;
      var left := pmap.Keys;
      while left != {}
        invariant left <= pmap.Keys && Valid()
        invariant count == |View().ICs()| && count < DFLT_COUNT_IC
        invariant Staffing(before, View(), left)
        decreases left
      {
        var pid :| pid in left;
        var ok := TrySeat(pid, before, left);
        left := left - {pid};
        if !ok { continue; }
        count := count + 1;
        if count >= DFLT_COUNT_IC { return; }
      }
    }

    /** Keeps the primary in the IC and the IC at three members. */
    method StaffIC() returns (count: nat)
      requires Valid()
      modifies this`version, Nodes()
      ensures Valid() && Staffed(old(View()), View(), count)
    {
      ghost var before := View();
      var _ := SetIC(primary);
      ghost var seated := View();
      StaffingStarts(before, seated);
      count := CountIC();
      if count < DFLT_COUNT_IC {
        count := FillIC(count, before);
        ghost var left :| Staffing(before, View(), left) && (count == DFLT_COUNT_IC || left == {});
        StaffingEnds(before, View(), left);
      } else if count > DFLT_COUNT_IC {
        assert seated.ICs() - {primary} != {} by {
          if seated.ICs() - {primary} == {} { CardAtMost(seated.ICs(), {primary}); }
        }
        var ok := UnstaffIC();
        ghost var id :| id in seated.ICs() - {primary} && View() == seated.ClearFlags(id, {IC});
        OverstaffedEnds(before, seated, id);
        if ok { count := count - 1; }
      }
    }

    // ----- the `pre` callbacks, run on a clone

    method EditNode(e: Edit, sid: NodeId)
      requires Valid() && (e.Remove? ==> sid != primary)
      modifies this, Nodes()
      ensures Valid() && Nodes() <= old(Nodes()) && View() == ApplyOne(old(View()), e, sid)
    {
      match e
      case Mark(flags) => if sid in tmap || sid in pmap { SetNodeFlags(sid, flags); }
      case MarkTarget(flags) => if sid in tmap { SetNodeFlags(sid, flags); }
      case Unmark(flags) => if sid in tmap || sid in pmap { ClearNodeFlags(sid, flags); }
      case Remove => DelNode(sid);
    }

    method EditBatch(e: Edit, sids: seq<NodeId>)
      requires Valid() && (e.Remove? ==> primary !in sids)
      modifies this, Nodes()
      ensures Valid() && Nodes() <= old(Nodes()) && View() == Apply(old(View()), e, sids, |sids|)
    {
      ghost var before := View();
      for i := 0 to |sids|
        invariant Valid() && Nodes() <= old(Nodes()) && primary == before.primary
        invariant View() == Apply(before, e, sids, i)
      {
        EditNode(e, sids[i]);
      }
    }

    method DropOneNode(sid: NodeId)
      requires Valid() && sid != primary
      modifies this, Nodes()
      ensures Valid() && Nodes() <= old(Nodes()) && DropOne(old(View()), sid, View())
    {
      var wasProxy := sid in pmap;
      DelNode(sid);
      if wasProxy {
        ghost var mid := View();
        var count := StaffIC();
        assert Staffed(mid, View(), count);
      }
    }

    method DropNodes(sids: seq<NodeId>)
      requires Valid() && primary !in sids
      modifies this, Nodes()
      ensures Valid() && Nodes() <= old(Nodes()) && DropAll(old(View()), sids, View())
    {
      ghost var ms := [View()];
      for i := 0 to |sids|
        invariant Valid() && Nodes() <= old(Nodes()) && primary == old(primary)
        invariant |ms| == i + 1 && ms[0] == old(View()) && ms[i] == View()
        invariant forall k :: 0 <= k < i ==> DropOne(ms[k], sids[k], ms[k + 1])
      {
        DropOneNode(sids[i]);
        ms := ms + [View()];
      }
      assert DropRun(ms, sids);
    }

    method Scan(sids: seq<NodeId>) returns (all: bool, any: bool, hasTarget: bool, hasProxy: bool)
      requires Valid()
      ensures all == AllPresent(View(), sids) && any == AnyPresent(View(), sids)
      ensures hasTarget == AnyTarget(View(), sids) && hasProxy == AnyProxy(View(), sids)
    {
      all, any, hasTarget, hasProxy := true, false, false, false;
      for i := 0 to |sids|
        invariant all == forall k :: 0 <= k < i ==> View().HasNode(sids[k])
        invariant any == exists k :: 0 <= k < i && View().HasNode(sids[k])
        invariant hasTarget == exists k :: 0 <= k < i && sids[k] in View().tmap
        invariant hasProxy == exists k :: 0 <= k < i && sids[k] in View().pmap
      {
        hasTarget := hasTarget || sids[i] in tmap;
        hasProxy := hasProxy || sids[i] in pmap;
        any := any || sids[i] in tmap || sids[i] in pmap;
        all := all && (sids[i] in tmap || sids[i] in pmap);
      }
    }

    method EditAndStaff(pre: Pre, staff: bool)
      requires Valid() && SparesPrimary(pre, View()) && staff == Staffs(pre, View())
      requires !pre.Joined? && !pre.KeepaliveRemove?
      modifies this, Nodes()
      ensures Valid() && Nodes() <= old(Nodes()) && PreStep(pre, old(View()), View())
    {
      EditBatch(EditOf(pre), pre.sids);
      if staff {
        ghost var mid := View();
        var count := StaffIC();
        assert Staffed(mid, View(), count);
      }
    }

    method Join(id: NodeId, isProxy: bool, flags: Flags)
      requires Valid() && if isProxy then id !in tmap else id !in pmap
      modifies this, Nodes()
      ensures Valid() && fresh(Nodes() - old(Nodes())) && PreStep(Joined(id, isProxy, flags), old(View()), View())
    {
      if isProxy {
        PutProxy(id, flags);
        ghost var mid := View();
        var count := StaffIC();
        assert Staffed(mid, View(), count);
      } else {
        PutTarget(id, flags);
      }
    }

    /** Dispatches to the callback; an error leaves the map as it was. */
    method RunPre(pre: Pre, self: NodeId, rebRunning: bool) returns (ok: bool)
      requires Valid() && SparesPrimary(pre, View())
      modifies this, Nodes()
      ensures Valid() && fresh(Nodes() - old(Nodes()))
      ensures ok == PreOk(pre, old(View()), self, rebRunning)
      ensures if ok then Step(pre, old(View()), View(), self, rebRunning) else View() == old(View())
    {
      if primary != self { return false; }
      if pre.Joined? {
        if (pre.isProxy && pre.id in tmap) || (!pre.isProxy && pre.id in pmap) { return false; }
        Join(pre.id, pre.isProxy, pre.nflags);
        return true;
      }
      var all, any, hasTarget, hasProxy := Scan(pre.sids);
      match pre {
        case MarkMaint(_, _) =>
          if !all || (hasTarget && rebRunning) { return false; }
          EditAndStaff(pre, true);
        case MarkMaintPostReb(_) =>
          EditAndStaff(pre, false);
        case StopMaint(_) =>
          if !all || (hasTarget && rebRunning) { return false; }
          EditAndStaff(pre, hasProxy);
        case Unreg(_, isUnsafe) =>
          if !any || (isUnsafe && hasTarget && rebRunning) { return false; }
          EditAndStaff(pre, hasProxy);
        case KeepaliveRemove(sids) =>
          if !any { return false; }
          DropNodes(sids);
      }
      return true;
    }
  }
}
