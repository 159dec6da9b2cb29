/** The tables themselves: sharded by UUID and updated in place, with a running counter of
    entries (`ais/prxnotif.go`). */
module NotifTables {

  import opened Basics
  import opened ClusterMap
  import opened Notifs

  const SHIM_COUNT := 16
  const ACT_REBALANCE := "rebalance"

  datatype Listener =
    Listener(uuid: Uuid, kind: string, cause: string, active: set<NodeId>, aborted: bool, endTime: nat) {
    predicate Finished() { endTime > 0 }
  }

  /** The last four bits of the UUID, which is never empty. */
  function Index(u: Uuid): (i: nat)
    ensures i < SHIM_COUNT
  {
    if u == "" then 0 else (u[|u| - 1] as int) % SHIM_COUNT
  }

  function Uuids(ls: seq<Listener>, n: nat): set<Uuid>
    requires n <= |ls|
  {
    set i | 0 <= i < n :: ls[i].uuid
  }

  lemma UuidsMore(ls: seq<Listener>, n: nat)
    requires 0 < n <= |ls|
    ensures Uuids(ls, n) == Uuids(ls, n - 1) + {ls[n - 1].uuid}
  {
  }

  type Table = map<Uuid, Listener>

  /** The shards hold exactly the entries of the flat table, each where its UUID says. */
  ghost predicate Shards(all: seq<Table>, flat: Table) {
    && |all| == SHIM_COUNT
    && (forall u: Uuid :: u in flat <==> u in all[Index(u)])
    && (forall u: Uuid :: u in flat ==> flat[u] == all[Index(u)][u] && flat[u].uuid == u)
    && (forall i, u :: 0 <= i < SHIM_COUNT && u in all[i] ==> Index(u) == i)
  }

  lemma ShardsAdd(all: seq<Table>, flat: Table, nl: Listener)
    requires Shards(all, flat)
    ensures Shards(all[Index(nl.uuid) := all[Index(nl.uuid)][nl.uuid := nl]], flat[nl.uuid := nl])
  {
    var idx := Index(nl.uuid);
    var next := all[idx := all[idx][nl.uuid := nl]];
    assert forall i :: 0 <= i < SHIM_COUNT && i != idx ==> next[i] == all[i];
    assert next[idx] == all[idx][nl.uuid := nl];
  }

  lemma ShardsDel(all: seq<Table>, flat: Table, u: Uuid)
    requires Shards(all, flat)
    ensures Shards(all[Index(u) := all[Index(u)] - {u}], flat - {u})
  {
    var idx := Index(u);
    var next := all[idx := all[idx] - {u}];
    assert forall i :: 0 <= i < SHIM_COUNT && i != idx ==> next[i] == all[i];
    assert next[idx] == all[idx] - {u};
  }

  lemma CardWithout(flat: Table, u: Uuid)
    ensures |flat - {u}| == |flat| - if u in flat then 1 else 0
    ensures u !in flat ==> flat - {u} == flat
  {
  }

  /** The first `n` listeners added: whoever is there already stays. */
  ghost function Added(flat: Table, nls: seq<Listener>, n: nat): Table
    requires n <= |nls|
  {
    if n == 0 then flat
    else
      var prev := Added(flat, nls, n - 1);
      if nls[n - 1].uuid in prev then prev else prev[nls[n - 1].uuid := nls[n - 1]]
  }

  ghost function Deleted(flat: Table, nls: seq<Listener>, n: nat): Table
    requires n <= |nls|
  {
    if n == 0 then flat else Deleted(flat, nls, n - 1) - {nls[n - 1].uuid}
  }

  lemma {:induction false} AddedIs(flat: Table, nls: seq<Listener>, n: nat)
    requires n <= |nls|
    ensures Added(flat, nls, n).Keys == flat.Keys + Uuids(nls, n)
    ensures forall u :: u in flat ==> Added(flat, nls, n)[u] == flat[u]
    ensures forall u :: u in Added(flat, nls, n) && u !in flat ==> Added(flat, nls, n)[u] in nls
  {
    if n > 0 {
      AddedIs(flat, nls, n - 1);
      UuidsMore(nls, n);
    }
  }

  lemma {:induction false} DeletedIs(flat: Table, nls: seq<Listener>, n: nat)
    requires n <= |nls|
    ensures Deleted(flat, nls, n) == flat - Uuids(nls, n)
  {
    if n > 0 {
      DeletedIs(flat, nls, n - 1);
      UuidsMore(nls, n);
    }
  }

  lemma MergeOneMore(t: Table, old_: Table, left: set<Uuid>, u: Uuid)
    requires u in t && u in left
    ensures var now := (t - left) + old_;
            (t - (left - {u})) + old_ == if u in now then now else now[u := t[u]]
  {
  }

  lemma DropOneMore(m: Table, us: set<Uuid>, left: set<Uuid>, u: Uuid)
    requires u in us && u in left
    ensures m - (us - (left - {u})) == (m - (us - left)) - {u}
  {
  }

  lemma MapEnds(t: Table, m: Table, us: set<Uuid>)
    ensures (t - t.Keys) + m == m && t - {} == t && m - (us - us) == m && us - {} == us
  {
  }

  class Listeners {
    var all: seq<Table>
    var l: int
    /** What the table means: one map. */
    ghost var flat: Table

    ghost predicate Valid()
      reads this
    {
      Shards(all, flat) && l == |flat|
    }

    constructor ()
      ensures Valid() && flat == map[]
    {
      all, l, flat := seq(SHIM_COUNT, _ => map[]), 0, map[];
    }

    method Add(nl: Listener) returns (exists_: bool)
      requires Valid()
      modifies this
      ensures Valid() && exists_ == (nl.uuid in old(flat))
      ensures flat == if exists_ then old(flat) else old(flat)[nl.uuid := nl]
    {
      var idx := Index(nl.uuid);
      exists_ := nl.uuid in all[idx];
      if !exists_ {
        ShardsAdd(all, flat, nl);
        all := all[idx := all[idx][nl.uuid := nl]];
        l := l + 1;
        flat := flat[nl.uuid := nl];
      }
    }

    method Del(uuid: Uuid) returns (ok: bool)
      requires Valid()
      modifies this
      ensures Valid() && ok == (uuid in old(flat)) && flat == old(flat) - {uuid}
    {
      var idx := Index(uuid);
      ok := uuid in all[idx];
      CardWithout(flat, uuid);
      if ok {
        ShardsDel(all, flat, uuid);
        all := all[idx := all[idx] - {uuid}];
        l := l - 1;
        flat := flat - {uuid};
      }
    }

    method Exists(uuid: Uuid) returns (ok: bool)
      requires Valid()
      ensures ok == (uuid in flat)
    {
      ok := uuid in all[Index(uuid)];
    }

    method AddAll(nls: seq<Listener>)
      requires Valid()
      modifies this
      ensures Valid() && flat == Added(old(flat), nls, |nls|)
    {
      for i := 0 to |nls|
        invariant Valid() && flat == Added(old(flat), nls, i)
      {
        var _ := Add(nls[i]);
      }
    }

    method AddTable(t: Table)
      requires Valid() && forall u :: u in t ==> t[u].uuid == u
      modifies this
      ensures Valid() && flat == t + old(flat)
    {
      var left := t.Keys;
      MapEnds(t, flat, {});
      while left != {}
        invariant left <= t.Keys && Valid()
        invariant flat == (t - left) + old(flat)
        decreases left
      {
        var u :| u in left;
        MergeOneMore(t, old(flat), left, u);
        left := left - {u};
        var _ := Add(t[u]);
      }
    }

    method DelKeys(us: set<Uuid>)
      requires Valid()
      modifies this
      ensures Valid() && flat == old(flat) - us
    {
      var left := us;
      MapEnds(map[], flat, us);
      while left != {}
        invariant left <= us && Valid() && flat == old(flat) - (us - left)
        decreases left
      {
        var u :| u in left;
        DropOneMore(old(flat), us, left, u);
        left := left - {u};
        var _ := Del(u);
      }
    }

    method DelAll(nls: seq<Listener>)
      requires Valid()
      modifies this
      ensures Valid() && flat == Deleted(old(flat), nls, |nls|)
    {
      for i := 0 to |nls|
        invariant Valid() && flat == Deleted(old(flat), nls, i)
      {
        var _ := Del(nls[i].uuid);
      }
    }
  }

  /** A listener goes when one of its active notifiers is no longer an active node, unless
      it belongs to a rebalance with a cause and that notifier is still in the map. Which of
      several inactive notifiers is looked at is arbitrary. */
  ghost predicate MayGo(nl: Listener, smap: Smap) {
    exists sid :: sid in nl.active && !smap.IsActiveNode(sid) && !Excused(nl, smap, sid)
  }

  ghost predicate MustGo(nl: Listener, smap: Smap) {
    MayGo(nl, smap) && forall sid :: sid in nl.active && !smap.IsActiveNode(sid) ==> !Excused(nl, smap, sid)
  }

  /** A rebalance with a cause expects the node, which is still in the map, to be inactive. */
  ghost predicate Excused(nl: Listener, smap: Smap, sid: NodeId) {
    nl.kind == "rebalance" && nl.cause != "" && sid in smap.tmap.Keys + smap.pmap.Keys
  }

  predicate Ignores(nl: Listener, smap: Smap, sid: NodeId) {
    nl.kind == ACT_REBALANCE && nl.cause != "" && smap.HasNode(sid)
  }

  class Registry {
    const nls: Listeners
    const fin: Listeners
    var smapVer: nat

    ghost predicate Valid()
      reads this, nls, fin
    {
      nls != fin && nls.Valid() && fin.Valid()
    }

    /** Which UUIDs are in which table. */
    ghost function View(): Tables
      reads this, nls, fin
    {
      Tables(nls.flat.Keys, fin.flat.Keys)
    }

    constructor ()
      ensures Valid() && fresh(nls) && fresh(fin) && View() == Tables({}, {}) && smapVer == 0
    {
      nls := new Listeners();
      fin := new Listeners();
      smapVer := 0;
    }

    /** What of a snapshot's running listeners is new here. */
    method NewRunning(running: seq<Listener>) returns (added: seq<Listener>)
      requires Valid()
      ensures Uuids(added, |added|) == Uuids(running, |running|) - fin.flat.Keys - nls.flat.Keys
      ensures forall nl :: nl in added ==> nl in running
    {
      added := [];
      ghost var known := fin.flat.Keys + nls.flat.Keys;
      for i := 0 to |running|
        invariant added == Without(running, i, known)
      {
        var isKnown := fin.Exists(running[i].uuid);
        if !isKnown { isKnown := nls.Exists(running[i].uuid); }
        if !isKnown { added := added + [running[i]]; }
      }
      WithoutIs(running, |running|, known);
    }

    /** What of its finished listeners is new here, and which of those run here. */
    method NewFinished(finished: seq<Listener>) returns (done: seq<Listener>, removed: seq<Listener>)
      requires Valid()
      ensures Uuids(done, |done|) == Uuids(finished, |finished|) - fin.flat.Keys
      ensures Uuids(removed, |removed|) == Uuids(done, |done|) * nls.flat.Keys
      ensures forall nl :: nl in done ==> nl in finished
    {
      done, removed := [], [];
      ghost var known, here := fin.flat.Keys, nls.flat.Keys;
      for i := 0 to |finished|
        invariant done == Without(finished, i, known) && removed == Running(finished, i, known, here)
      {
        var u := finished[i].uuid;
        var isKnown := fin.Exists(u);
        if isKnown { continue; }
        var isHere := nls.Exists(u);
        if isHere { removed := removed + [finished[i]]; }
        done := done + [finished[i]];
      }
      WithoutIs(finished, |finished|, known);
      RunningIs(finished, |finished|, known, here);
    }

    /** Applies a snapshot of another node. */
    method Apply(running: seq<Listener>, finished: seq<Listener>)
      requires Valid()
      modifies nls, fin
      ensures Valid()
      ensures View() == Merge(old(View()), Tables(Uuids(running, |running|), Uuids(finished, |finished|)))
      ensures forall u :: u in old(fin.flat) ==> fin.flat[u] == old(fin.flat)[u]
      ensures forall u :: u in nls.flat && u in old(nls.flat) ==> nls.flat[u] == old(nls.flat)[u]
      ensures forall u :: u in nls.flat && u !in old(nls.flat) ==> nls.flat[u] in running
      ensures forall u :: u in fin.flat && u !in old(fin.flat) ==> fin.flat[u] in finished
    {
      ghost var run, done0 := nls.flat, fin.flat;
      var added := NewRunning(running);
      var done, removed := NewFinished(finished);
      AddedIs(run, added, |added|);
      DeletedIs(Added(run, added, |added|), removed, |removed|);
      AddedIs(done0, done, |done|);
      nls.AddAll(added);
      nls.DelAll(removed);
      fin.AddAll(done);
      assert nls.flat.Keys == run.Keys + Uuids(added, |added|) - Uuids(removed, |removed|);
    }

    /** A listener that is done moves over, unless somebody has moved it before. */
    method Done(nl: Listener)
      requires Valid()
      modifies nls, fin
      ensures Valid() && nls.flat == old(nls.flat) - {nl.uuid}
      ensures fin.flat == if nl.uuid in old(nls.flat) then map[nl.uuid := nl] + old(fin.flat) else old(fin.flat)
    {
      var ok := nls.Del(nl.uuid);
      if !ok { return; }
      UnderOld(fin.flat, nl);
      var _ := fin.Add(nl);
    }

    // ----- when the cluster map changes

    static method GatherShard(shard: Table, smap: Smap, ghost flat: Table, ghost before: set<Uuid>, nl0: Table,
                              id0: map<Uuid, NodeId>)
      returns (remnl: Table, remid: map<Uuid, NodeId>)
      requires Collected(flat, smap, before, nl0, id0)
      requires forall u :: u in shard ==> u in flat && flat[u] == shard[u]
      ensures Collected(flat, smap, before + shard.Keys, remnl, remid)
    {
      remnl, remid := nl0, id0;
      ghost var seen := before;
      var left := shard.Keys;
      while left != {}
        invariant left <= shard.Keys && seen + left == before + shard.Keys
        invariant Collected(flat, smap, seen, remnl, remid)
        decreases left
      {
        var u :| u in left;
        left := left - {u};
        var sid := AnyInactive(shard[u], smap);
        CollectOne(flat, smap, seen, remnl, remid, u, sid);
        seen := seen + {u};
        if sid.Some? {
          remnl, remid := remnl[u := shard[u]], remid[u := sid.value];
        }
      }
    }

    /** The running listeners that wait for a node which is no longer active, each with one
        such node. */
    method Gather(smap: Smap) returns (remnl: Table, remid: map<Uuid, NodeId>)
      requires Valid()
      ensures remid.Keys == remnl.Keys
      ensures forall u :: u in remnl <==> u in nls.flat && WaitsForInactive(nls.flat[u], smap)
      ensures forall u :: u in remnl ==> remnl[u] == nls.flat[u] && IsInactive(nls.flat[u], smap, remid[u])
    {
      remnl, remid := map[], map[];
      ghost var seen: set<Uuid> := {};
      for i := 0 to SHIM_COUNT
        invariant Collected(nls.flat, smap, seen, remnl, remid)
        invariant forall u :: u in nls.flat && Index(u) < i ==> u in seen
      {
        remnl, remid := GatherShard(nls.all[i], smap, nls.flat, seen, remnl, remid);
        seen := seen + nls.all[i].Keys;
      }
    }

    /** Spares the rebalances that expect the node to be inactive, and aborts the others. The
        scan starts all over after every one that is spared. */
    static method Spare(found: Table, remid: map<Uuid, NodeId>, smap: Smap) returns (gone: Table)
      requires remid.Keys == found.Keys
      ensures gone.Keys == set u | u in found && !Excused(found[u], smap, remid[u])
      ensures forall u :: u in gone ==> gone[u] == found[u].(aborted := true)
    {
      gone := found;
      var left := gone.Keys;
      while left != {}
        invariant gone.Keys <= found.Keys && left <= gone.Keys
        invariant forall u :: u in found && u !in gone ==> Excused(found[u], smap, remid[u])
        invariant forall u :: u in gone ==> gone[u].(aborted := true) == found[u].(aborted := true)
        invariant forall u :: u in gone && u !in left ==> !Excused(found[u], smap, remid[u]) && gone[u].aborted
        decreases gone.Keys, left
      {
        var u :| u in left;
        if Ignores(gone[u], smap, remid[u]) {
          gone := gone - {u};
          left := gone.Keys;
        } else {
          gone := gone[u := gone[u].(aborted := true)];
          left := left - {u};
        }
      }
    }

    /** Finds the listeners to abort; each may be one whose notifiers justify it, and those
        without an excuse are all among them. */
    method Doomed(smap: Smap) returns (gone: Table)
      requires Valid()
      ensures gone.Keys <= nls.flat.Keys
      ensures forall u :: u in gone ==> MayGo(nls.flat[u], smap) && gone[u] == nls.flat[u].(aborted := true)
      ensures forall u :: u in nls.flat && MustGo(nls.flat[u], smap) ==> u in gone
    {
      var remnl, remid := Gather(smap);
      gone := Spare(remnl, remid, smap);
      forall u | u in nls.flat && MustGo(nls.flat[u], smap) ensures u in gone {
        var sid :| sid in nls.flat[u].active && !smap.IsActiveNode(sid) && !Excused(nls.flat[u], smap, sid);
        assert IsInactive(nls.flat[u], smap, sid);
        assert u in remnl;
      }
    }

    /** Called when a newer cluster map is published. Moves the doomed listeners from one
        table to the other: nothing else moves, and no UUID is lost or duplicated in the
        end. Both tables have them for a while, though: `mid` is what a snapshot shows that
        is taken between the two updates. */
    method ListenSmapChanged(smap: Smap, clusterStarted: bool) returns (ghost gone: Table, ghost mid: Tables)
      requires Valid()
      modifies this, nls, fin
      ensures Valid()
      ensures clusterStarted && old(smapVer) < smap.version ==>
                && (forall u :: u in old(nls.flat) && MustGo(old(nls.flat)[u], smap) ==> u in gone)
                && smapVer == smap.version
      ensures !clusterStarted || old(smapVer) >= smap.version ==> gone == map[]
      ensures gone.Keys <= old(nls.flat).Keys
      ensures forall u :: u in gone ==> MayGo(old(nls.flat)[u], smap) && gone[u] == old(nls.flat)[u].(aborted := true)
      ensures nls.flat == old(nls.flat) - gone.Keys && fin.flat == gone + old(fin.flat)
      ensures mid == Tables(old(View()).running, View().finished)
      ensures old(View()).Disjoint() ==> View().Disjoint() && nls.l + fin.l == old(nls.l + fin.l)
    {
      gone, mid := map[], View();
      MapEnds(map[], fin.flat, {});
      MapEnds(nls.flat, nls.flat, {});
      if !clusterStarted { return; }
      if smapVer >= smap.version { return; }
      smapVer := smap.version;
      if nls.l == 0 { return; }
      var doomed := Doomed(smap);
      gone := doomed;
      if View().Disjoint() { MovingConserves(nls.flat, fin.flat, doomed); }
      fin.AddTable(doomed);
      mid := View();
      nls.DelKeys(doomed.Keys);
    }
  }

  lemma UnderOld(flat: Table, nl: Listener)
    ensures map[nl.uuid := nl] + flat == if nl.uuid in flat then flat else flat[nl.uuid := nl]
  {
  }

  lemma MovingConserves(run: Table, fin: Table, gone: Table)
    requires run.Keys !! fin.Keys && gone.Keys <= run.Keys
    ensures (run - gone.Keys).Keys !! (gone + fin).Keys
    ensures |run - gone.Keys| + |gone + fin| == |run| + |fin|
  {
  }

  ghost predicate IsInactive(nl: Listener, smap: Smap, sid: NodeId) { sid in nl.active && !smap.IsActiveNode(sid) }

  ghost predicate WaitsForInactive(nl: Listener, smap: Smap) { exists sid :: IsInactive(nl, smap, sid) }

  ghost predicate Collected(flat: Table, smap: Smap, seen: set<Uuid>, remnl: Table, remid: map<Uuid, NodeId>) {
    && remid.Keys == remnl.Keys && remnl.Keys <= seen <= flat.Keys
    && (forall u :: u in seen ==> (u in remnl <==> WaitsForInactive(flat[u], smap)))
    && (forall u :: u in remnl ==> remnl[u] == flat[u] && IsInactive(flat[u], smap, remid[u]))
  }

  lemma CollectOne(flat: Table, smap: Smap, seen: set<Uuid>, remnl: Table, remid: map<Uuid, NodeId>, u: Uuid,
                   sid: Option<NodeId>)
    requires Collected(flat, smap, seen, remnl, remid) && u in flat
    requires if sid.Some? then IsInactive(flat[u], smap, sid.value) else !WaitsForInactive(flat[u], smap)
    ensures if sid.Some? then Collected(flat, smap, seen + {u}, remnl[u := flat[u]], remid[u := sid.value])
            else Collected(flat, smap, seen + {u}, remnl, remid)
  {
  }

  method AnyInactive(nl: Listener, smap: Smap) returns (sid: Option<NodeId>)
    ensures sid.Some? ==> IsInactive(nl, smap, sid.value)
    ensures sid.None? ==> !WaitsForInactive(nl, smap)
  {
    var left := nl.active;
    while left != {}
      invariant left <= nl.active && forall id :: id in nl.active && id !in left ==> smap.IsActiveNode(id)
      decreases left
    {
      var id :| id in left;
      left := left - {id};
      if !smap.IsActiveNode(id) { return Some(id); }
    }
    return None;
  }

  /** The first `n` listeners without those whose UUIDs are dropped. */
  ghost function Without(ls: seq<Listener>, n: nat, drop: set<Uuid>): seq<Listener>
    requires n <= |ls|
  {
    if n == 0 then []
    else if ls[n - 1].uuid in drop then Without(ls, n - 1, drop)
    else Without(ls, n - 1, drop) + [ls[n - 1]]
  }

  lemma {:induction false} WithoutIs(ls: seq<Listener>, n: nat, drop: set<Uuid>)
    requires n <= |ls|
    ensures var rest := Without(ls, n, drop);
            Uuids(rest, |rest|) == Uuids(ls, n) - drop && forall nl :: nl in rest ==> nl in ls
  {
    if n > 0 {
      WithoutIs(ls, n - 1, drop);
      UuidsMore(ls, n);
      UuidsAppend(Without(ls, n - 1, drop), ls[n - 1]);
    }
  }

  /** Those of the first `n` listeners that are not known and run here. */
  ghost function Running(ls: seq<Listener>, n: nat, known: set<Uuid>, here: set<Uuid>): seq<Listener>
    requires n <= |ls|
  {
    if n == 0 then []
    else if ls[n - 1].uuid in known || ls[n - 1].uuid !in here then Running(ls, n - 1, known, here)
    else Running(ls, n - 1, known, here) + [ls[n - 1]]
  }

  lemma {:induction false} RunningIs(ls: seq<Listener>, n: nat, known: set<Uuid>, here: set<Uuid>)
    requires n <= |ls|
    ensures var r := Running(ls, n, known, here); Uuids(r, |r|) == (Uuids(ls, n) - known) * here
  {
    if n > 0 {
      RunningIs(ls, n - 1, known, here);
      UuidsMore(ls, n);
      UuidsAppend(Running(ls, n - 1, known, here), ls[n - 1]);
    }
  }

  lemma UuidsAppend(ls: seq<Listener>, nl: Listener)
    ensures Uuids(ls + [nl], |ls| + 1) == Uuids(ls, |ls|) + {nl.uuid}
  {
    var more := ls + [nl];
    assert forall i :: 0 <= i < |ls| ==> more[i] == ls[i];
    assert more[|ls|] == nl;
  }

  // ----- searching a table ----------------------------------------------------------------

  /** The listener found so far and when it finished. */
  datatype Found = Found(best: Option<Listener>, ftime: nat)

  /** The matches of one shard in some order; the scan leaves the shard at the first one
      that is still running. */
  function ScanShard(s: seq<Listener>, i: nat, acc: Found): Found
    requires i <= |s|
    decreases |s| - i
  {
    if i == |s| then acc
    else if acc.ftime != 0 && s[i].endTime < acc.ftime then ScanShard(s, i + 1, acc)
    else if !s[i].Finished() then Found(Some(s[i]), acc.ftime)
    else ScanShard(s, i + 1, Found(Some(s[i]), s[i].endTime))
  }

  function Scan(shards: seq<seq<Listener>>, n: nat): Found
    requires n <= |shards|
  {
    if n == 0 then Found(None, 0) else ScanShard(shards[n - 1], 0, Scan(shards, n - 1))
  }

  ghost predicate Among(shards: seq<seq<Listener>>, n: nat, l: Listener)
    requires n <= |shards|
  {
    exists k :: 0 <= k < n && l in shards[k]
  }

  ghost predicate Sane(acc: Found) {
    && (acc.best.None? ==> acc.ftime == 0)
    && (acc.ftime != 0 ==> acc.best.value.endTime == acc.ftime)
    && (acc.ftime == 0 && acc.best.Some? ==> !acc.best.value.Finished())
  }

  lemma {:induction false} ScanShardIs(s: seq<Listener>, i: nat, acc: Found)
    requires i <= |s| && Sane(acc)
    ensures var r := ScanShard(s, i, acc);
            && Sane(r)
            && (r.best.Some? <==> acc.best.Some? || i < |s|)
            && (r.best == acc.best || exists j :: i <= j < |s| && r.best == Some(s[j]))
            && acc.ftime <= r.ftime
            && (r.ftime == 0 <==> acc.ftime == 0 && (i < |s| ==> !s[i].Finished()))
            && (acc.ftime != 0 || (i < |s| && s[i].Finished()) ==> forall j :: i <= j < |s| ==> s[j].endTime <= r.ftime)
    decreases |s| - i
  {
    if i < |s| {
      if acc.ftime != 0 && s[i].endTime < acc.ftime {
        ScanShardIs(s, i + 1, acc);
      } else if s[i].Finished() {
        ScanShardIs(s, i + 1, Found(Some(s[i]), s[i].endTime));
      }
    }
  }

  ghost predicate StartsRunning(shards: seq<seq<Listener>>, n: nat)
    requires n <= |shards|
  {
    forall k :: 0 <= k < n && shards[k] != [] ==> !shards[k][0].Finished()
  }

  lemma {:induction false} ScanIs(shards: seq<seq<Listener>>, n: nat)
    requires n <= |shards|
    ensures var r := Scan(shards, n);
            && Sane(r)
            && (r.best.Some? <==> exists k :: 0 <= k < n && shards[k] != [])
            && (r.best.Some? ==> Among(shards, n, r.best.value))
            && (r.ftime == 0 <==> StartsRunning(shards, n))
  {
    if n > 0 {
      ScanIs(shards, n - 1);
      ScanShardIs(shards[n - 1], 0, Scan(shards, n - 1));
    }
  }

  /** A search finds something exactly when there is a match; and what it finds is running
      exactly when, shard by shard, a running match comes first. So a running match is
      certain to be found, in every iteration order, only if no finished one matches. */
  lemma FindsRunningIff(shards: seq<seq<Listener>>)
    requires exists k :: 0 <= k < |shards| && shards[k] != []
    ensures var r := Scan(shards, |shards|).best;
            && r.Some? && Among(shards, |shards|, r.value)
            && (!r.value.Finished() <==> StartsRunning(shards, |shards|))
  {
    ScanIs(shards, |shards|);
  }

  /** Among finished ones the latest is found. */
  lemma {:induction false} FindsLatest(shards: seq<seq<Listener>>, n: nat, l: Listener)
    requires n <= |shards| && Among(shards, n, l)
    requires forall k, j :: 0 <= k < n && 0 <= j < |shards[k]| ==> shards[k][j].Finished()
    ensures Scan(shards, n).best.Some? && l.endTime <= Scan(shards, n).best.value.endTime
  {
    ScanIs(shards, n);
    ScanIs(shards, n - 1);
    ScanShardIs(shards[n - 1], 0, Scan(shards, n - 1));
    if l in shards[n - 1] {
      var j :| 0 <= j < |shards[n - 1]| && shards[n - 1][j] == l;
      assert shards[n - 1][0].Finished();
    } else {
      FindsLatest(shards, n - 1, l);
    }
  }

  /** Nothing running is preferred when a finished match is looked at first. */
  lemma FinishedHidesRunning(run: Listener, done: Listener)
    requires !run.Finished() && done.Finished()
    ensures Scan([[done, run]], 1).best == Some(done)
    ensures Scan([[done], [run]], 2).best == Some(done) && Scan([[run], [done]], 2).best == Some(done)
  {
    var none, d, r := Found(None, 0), Found(Some(done), done.endTime), Found(Some(run), 0);
    var one, two, three := [[done, run]], [[done], [run]], [[run], [done]];
    assert Scan(one, 0) == Scan(two, 0) == Scan(three, 0) == none;
    assert one[0] == [done, run] && two[0] == [done] && two[1] == [run] && three[0] == [run] && three[1] == [done];
    assert ScanShard([done, run], 2, d) == ScanShard([done], 1, d) == ScanShard([run], 1, d) == d;
    assert ScanShard([done, run], 1, d) == d;
    assert Scan(one, 1) == ScanShard([done, run], 0, none) == d;
    assert Scan(two, 1) == ScanShard([done], 0, none) == d;
    assert Scan(two, 2) == ScanShard([run], 0, d) == d;
    assert Scan(three, 1) == ScanShard([run], 0, none) == r;
    assert Scan(three, 2) == ScanShard([done], 0, r) == d;
  }

  /** The matches of one shard, each once. */
  ghost predicate ListsShard(s: seq<Listener>, shard: Table, matches: Listener -> bool) {
    && (forall l :: l in s <==> l in shard.Values && matches(l))
    && (forall i, j :: 0 <= i < j < |s| ==> s[i] != s[j])
  }

  /** The matches of every shard, each shard in any order. */
  ghost predicate Lists(order: seq<seq<Listener>>, all: seq<Table>, matches: Listener -> bool) {
    |order| == |all| && forall i :: 0 <= i < |all| ==> ListsShard(order[i], all[i], matches)
  }

  method MatchesOf(shard: Table, matches: Listener -> bool) returns (s: seq<Listener>)
    ensures ListsShard(s, shard, matches)
  {
    s := [];
    var left := shard.Values;
    while left != {}
      invariant left <= shard.Values
      invariant forall l :: l in s <==> l in shard.Values - left && matches(l)
      invariant forall i, j :: 0 <= i < j < |s| ==> s[i] != s[j]
      decreases left
    {
      var l :| l in left;
      left := left - {l};
      if matches(l) { s := s + [l]; }
    }
  }

  /** The listener matches and is in the table. */
  ghost predicate Matching(flat: Table, matches: Listener -> bool, l: Listener) {
    matches(l) && exists u :: u in flat && flat[u] == l
  }

  /** The search: over all shards, in some order. It finds something exactly when something
      matches; something running if nothing that matches has finished, which is what the
      check for a running rebalance relies on; and the latest if all that match have. */
  method Find(ls: Listeners, matches: Listener -> bool)
    returns (best: Option<Listener>, ghost order: seq<seq<Listener>>)
    requires ls.Valid()
    ensures Lists(order, ls.all, matches) && best == Scan(order, |order|).best
    ensures best.Some? ==> Matching(ls.flat, matches, best.value)
    ensures best.None? ==> forall l :: !Matching(ls.flat, matches, l)
    ensures best.Some? && (forall l :: Matching(ls.flat, matches, l) ==> !l.Finished()) ==> !best.value.Finished()
    ensures best.Some? && (forall l :: Matching(ls.flat, matches, l) ==> l.Finished()) ==>
              forall l :: Matching(ls.flat, matches, l) ==> l.endTime <= best.value.endTime
  {
    order := [];
    var acc := Found(None, 0);
    for i := 0 to SHIM_COUNT
      invariant |order| == i && acc == Scan(order, i)
      invariant forall k :: 0 <= k < i ==> ListsShard(order[k], ls.all[k], matches)
    {
      var s := MatchesOf(ls.all[i], matches);
      ScanPrefix(order, s, i);
      order := order + [s];
      acc := ScanShard(s, 0, acc);
    }
    best := acc.best;
    FoundIs(ls.all, ls.flat, matches, order);
  }

  /** Whatever the order, the search finds a running listener. */
  ghost predicate AlwaysFindsRunning(all: seq<Table>, matches: Listener -> bool) {
    forall order :: Lists(order, all, matches) ==> FindsRunning(order)
  }

  ghost predicate FindsRunning(order: seq<seq<Listener>>) {
    var best := Scan(order, |order|).best;
    best.Some? && !best.value.Finished()
  }

  /** Exactly when a table is certain to be found to have a running match: when it has one,
      and no match has finished. */
  lemma AlwaysFindsRunningIff(all: seq<Table>, flat: Table, matches: Listener -> bool)
    requires Shards(all, flat) && exists l :: Matching(flat, matches, l)
    ensures AlwaysFindsRunning(all, matches) <==> forall l :: Matching(flat, matches, l) ==> !l.Finished()
  {
    if forall l :: Matching(flat, matches, l) ==> !l.Finished() {
      forall order | Lists(order, all, matches) ensures FindsRunning(order) { FoundIs(all, flat, matches, order); }
    } else {
      var l :| Matching(flat, matches, l) && l.Finished();
      var u :| u in flat && flat[u] == l;
      var order := OrderWithFirst(all, matches, Index(u), l);
      FinishedFirst(order, Index(u));
      assert Lists(order, all, matches) && !FindsRunning(order);
    }
  }

  lemma FinishedFirst(order: seq<seq<Listener>>, k: nat)
    requires k < |order| && order[k] != [] && order[k][0].Finished()
    ensures !FindsRunning(order)
  {
    FindsRunningIff(order);
  }

  lemma {:induction false} InSomeOrder(ls: set<Listener>) returns (s: seq<Listener>)
    ensures (forall l :: l in s <==> l in ls) && forall i, j :: 0 <= i < j < |s| ==> s[i] != s[j]
    decreases ls
  {
    s := [];
    if ls != {} {
      var l :| l in ls;
      var rest := InSomeOrder(ls - {l});
      s := [l] + rest;
    }
  }

  /** An order of all shards in which the given match comes first in its shard. */
  lemma {:induction false} OrderWithFirst(all: seq<Table>, matches: Listener -> bool, k: nat, l: Listener)
    returns (order: seq<seq<Listener>>)
    requires k < |all| ==> l in all[k].Values && matches(l)
    ensures Lists(order, all, matches) && (k < |all| ==> order[k] != [] && order[k][0] == l)
    decreases |all|
  {
    order := [];
    if all != [] {
      var n := |all| - 1;
      var before := OrderWithFirst(all[..n], matches, k, l);
      var last := set x | x in all[n].Values && matches(x);
      var rest := InSomeOrder(if k == n then last - {l} else last);
      order := before + [if k == n then [l] + rest else rest];
      forall i | 0 <= i < |all| ensures ListsShard(order[i], all[i], matches) {
        if i < n { assert order[i] == before[i] && all[..n][i] == all[i]; }
      }
    }
  }

  lemma OrderLists(all: seq<Table>, flat: Table, matches: Listener -> bool, order: seq<seq<Listener>>, l: Listener)
    requires Shards(all, flat) && Lists(order, all, matches)
    ensures Among(order, |order|, l) <==> Matching(flat, matches, l)
  {
    if Among(order, |order|, l) {
      var k :| 0 <= k < |order| && l in order[k];
      assert ListsShard(order[k], all[k], matches);
      var u :| u in all[k] && all[k][u] == l;
      assert Index(u) == k && u in flat && flat[u] == l;
    }
    if Matching(flat, matches, l) {
      var u :| u in flat && flat[u] == l;
      assert ListsShard(order[Index(u)], all[Index(u)], matches);
      assert all[Index(u)][u] in all[Index(u)].Values;
    }
  }

  lemma FoundIs(all: seq<Table>, flat: Table, matches: Listener -> bool, order: seq<seq<Listener>>)
    requires Shards(all, flat) && Lists(order, all, matches)
    ensures var best := Scan(order, |order|).best;
            && (best.Some? ==> Matching(flat, matches, best.value))
            && (best.None? ==> forall l :: !Matching(flat, matches, l))
            && (best.Some? && (forall l :: Matching(flat, matches, l) ==> !l.Finished()) ==> !best.value.Finished())
            && (best.Some? && (forall l :: Matching(flat, matches, l) ==> l.Finished()) ==>
                  forall l :: Matching(flat, matches, l) ==> l.endTime <= best.value.endTime)
  {
    var best := Scan(order, |order|).best;
    ScanIs(order, |order|);
    forall l ensures Among(order, |order|, l) <==> Matching(flat, matches, l) {
      OrderLists(all, flat, matches, order, l);
    }
    if best.None? {
      forall l ensures !Among(order, |order|, l) {}
    } else if forall l :: Matching(flat, matches, l) ==> l.Finished() {
      forall k, j | 0 <= k < |order| && 0 <= j < |order[k]| ensures order[k][j].Finished() {
        assert Among(order, |order|, order[k][j]);
      }
      forall l | Matching(flat, matches, l) ensures l.endTime <= best.value.endTime { FindsLatest(order, |order|, l); }
    }
  }

  lemma {:induction false} ScanPrefix(order: seq<seq<Listener>>, s: seq<Listener>, n: nat)
    requires n <= |order|
    ensures Scan(order + [s], n) == Scan(order, n)
  {
    if n > 0 { ScanPrefix(order, s, n - 1); }
  }
}
