/** The cluster map (Smap) as a value, and what its update transactions do to it:
    joins, maintenance, removal, keepalive removal, and the staffing of the Information
    Center (IC). Map iteration order is arbitrary, so staffing is a relation
    (`ais/clustermap.go`, `ais/prxcycle.go`, `ais/pclupost.go`, `ais/kalive.go`). */
module ClusterMap {

  type NodeId = string

  datatype Flag = NonElectable | IC | Maint | Decomm | MaintPostReb
  type Flags = set<Flag>

  const MAINT_DECOMM: Flags := {Maint, Decomm}

  /** Desirable number of IC members. */
  const DFLT_COUNT_IC := 3

  datatype Smap = Smap(tmap: map<NodeId, Flags>, pmap: map<NodeId, Flags>, primary: NodeId, version: nat) {

    predicate HasNode(id: NodeId) { id in tmap || id in pmap }

    /** Targets are looked up first. */
    function FlagsOf(id: NodeId): Flags
      requires HasNode(id)
    {
      if id in tmap then tmap[id] else pmap[id]
    }

    predicate IsActiveNode(id: NodeId) { HasNode(id) && FlagsOf(id) * MAINT_DECOMM == {} }

    /** Proxy and target IDs are disjoint, and the primary is one of the proxies. */
    ghost predicate WellFormed() { tmap.Keys !! pmap.Keys && primary in pmap }

    function WithFlags(id: NodeId, flags: Flags): Smap
      requires HasNode(id)
    {
      if id in tmap then Smap(tmap[id := flags], pmap, primary, version + 1)
      else Smap(tmap, pmap[id := flags], primary, version + 1)
    }

    /** Entering maintenance or decommission takes a node out of the IC. */
    function SetFlags(id: NodeId, flags: Flags): Smap
      requires HasNode(id)
    {
      WithFlags(id, FlagsOf(id) + flags - (if flags * MAINT_DECOMM != {} then {IC} else {}))
    }

    function ClearFlags(id: NodeId, flags: Flags): Smap
      requires HasNode(id)
    {
      WithFlags(id, FlagsOf(id) - flags)
    }

    function Del(id: NodeId): Smap {
      if id in pmap then Smap(tmap, pmap - {id}, primary, version + 1)
      else if id in tmap then Smap(tmap - {id}, pmap, primary, version + 1)
      else this
    }

    /** Adds a node or replaces the one with the same ID and type. */
    function Put(id: NodeId, isProxy: bool, flags: Flags): Smap {
      var bump := if HasNode(id) then 2 else 1;
      if isProxy then Smap(tmap, pmap[id := flags], primary, version + bump)
      else Smap(tmap[id := flags], pmap, primary, version + bump)
    }

    ghost function ICs(): set<NodeId> { set id | id in pmap && IC in pmap[id] }

    function ActiveTargets(): set<NodeId> { set id | id in tmap && tmap[id] * MAINT_DECOMM == {} }

    /** The invariant of the IC: the primary belongs to it, and it has at most three members. */
    ghost predicate IcOk() { primary in ICs() && |ICs()| <= 3 }

    /** It has three, or else every proxy that can be elected. */
    ghost predicate IcFull() { |ICs()| == 3 || forall id :: id in pmap && NonElectable !in pmap[id] ==> id in ICs() }
  }

  ghost predicate SameContent(a: Smap, b: Smap) {
    a.tmap == b.tmap && a.pmap == b.pmap && a.primary == b.primary
  }

  /** Versions do not decrease, and the content changes only together with the version. */
  ghost predicate Versioned(before: Smap, after: Smap) {
    before.version <= after.version && (before.version == after.version ==> SameContent(before, after))
  }

  /** The two maps differ in nothing but IC membership. */
  ghost predicate SameButIC(a: Smap, b: Smap) {
    && a.tmap == b.tmap && a.primary == b.primary && a.pmap.Keys == b.pmap.Keys
    && forall id :: id in a.pmap ==> a.pmap[id] - {IC} == b.pmap[id] - {IC}
  }

  // ----- staffing the IC -------------------------------------------------------

  /** What staffing does, whatever the iteration order: seat the primary; if there are
      seats left, fill them with electable proxies for as long as there are any; if there
      are too many members, remove one that is not the primary. */
  ghost predicate Staffed(before: Smap, after: Smap, count: int) {
    && SameButIC(before, after) && Versioned(before, after)
    && count == |after.ICs()|
    && after.primary in after.ICs()
    && var seated := before.ICs() + {before.primary};
       if |seated| < 3 then
         && seated <= after.ICs() && count <= 3
         && (forall id :: id in after.ICs() - seated ==> NonElectable !in after.pmap[id])
         && (count == 3 || Electable(after) <= after.ICs())
       else if |seated| == 3 then after.ICs() == seated
       else after.ICs() <= seated && count == |seated| - 1
  }

  ghost function Electable(m: Smap): set<NodeId> { set id | id in m.pmap && NonElectable !in m.pmap[id] }

  lemma {:induction false} CardAtMost<T>(a: set<T>, b: set<T>)
    requires a <= b
    ensures |a| <= |b|
    ensures |a| == |b| ==> a == b
  {
    if a != {} {
      var x :| x in a;
      CardAtMost(a - {x}, b - {x});
      if |a| == |b| { assert a == (a - {x}) + {x} == (b - {x}) + {x} == b; }
    } else {
      assert |b| == 0 ==> b == {};
    }
  }

  lemma CardPlus<T>(s: set<T>, x: T)
    ensures |s + {x}| == |s| + if x in s then 0 else 1
  {
    if x in s { assert s + {x} == s; }
  }

  /** Staffing repairs the IC: afterwards the primary is a member and there are at most
      three members, provided there was at most one in excess; and the IC is full unless
      all electable proxies are in it. */
  lemma StaffingIsOk(before: Smap, after: Smap, count: int)
    requires Staffed(before, after, count)
    requires |before.ICs() + {before.primary}| <= 4
    ensures after.IcOk() && count == |after.ICs()|
    ensures count == 3 || Electable(after) <= after.ICs()
  {
  }

  lemma SameElectable(before: Smap, after: Smap)
    requires SameButIC(before, after)
    ensures Electable(before) == Electable(after)
  {
    forall x | x in before.pmap ensures NonElectable in before.pmap[x] <==> NonElectable in after.pmap[x] {
      assert NonElectable in before.pmap[x] <==> NonElectable in before.pmap[x] - {IC};
      assert NonElectable in after.pmap[x] <==> NonElectable in after.pmap[x] - {IC};
    }
  }

  /** Who may be seated: those in their seats, and all that are electable. */
  ghost function Candidates(m: Smap): set<NodeId> { m.ICs() + {m.primary} + Electable(m) }

  /** Maintenance takes a proxy out of the IC, and the staffing that follows at once may
      put it back: staffing looks at electability alone. With three members left nobody
      is put back; with no more than three candidates in all everybody electable is. */
  lemma MarkedProxyIsReseated(before: Smap, after: Smap, count: int, id: NodeId)
    requires Staffed(before, after, count) && before.primary in before.pmap
    requires id in before.pmap && id != before.primary && id !in before.ICs()
    ensures |before.ICs() + {before.primary}| >= 3 ==> id !in after.ICs()
    ensures |Candidates(before)| <= 3 ==> (id in after.ICs() <==> NonElectable !in before.pmap[id])
  {
    var seated := before.ICs() + {before.primary};
    SameElectable(before, after);
    if |Candidates(before)| <= 3 {
      CardAtMost(seated, Candidates(before));
      if |seated| < 3 {
        assert after.ICs() <= Candidates(before);
        CardAtMost(after.ICs(), Candidates(before));
      } else {
        assert id in Electable(before) ==> id in seated;
      }
    }
  }

  /** A set of a given size between two sets. */
  lemma {:induction false} Between(a: set<NodeId>, b: set<NodeId>, n: nat) returns (t: set<NodeId>)
    requires a <= b && |a| <= n <= |b|
    ensures a <= t <= b && |t| == n
    decreases n - |a|
  {
    if |a| == n { return a; }
    assert b == a + (b - a);
    var x :| x in b - a;
    CardAtMost(a + {x}, b);
    t := Between(a + {x}, b, n);
  }

  ghost function Seating(m: Smap, ics: set<NodeId>): Smap {
    Smap(m.tmap, map id | id in m.pmap :: if id in ics then m.pmap[id] + {IC} else m.pmap[id], m.primary, m.version + 1)
  }

  lemma SeatingIsStaffing(m: Smap, ics: set<NodeId>)
    requires m.primary in m.pmap && |m.ICs() + {m.primary}| < 3
    requires m.ICs() + {m.primary} <= ics <= Candidates(m) && |ics| == 3
    ensures Staffed(m, Seating(m, ics), 3) && Seating(m, ics).ICs() == ics
  {
    var after := Seating(m, ics);
    assert after.ICs() == ics;
    forall id | id in m.pmap ensures m.pmap[id] - {IC} == after.pmap[id] - {IC} {}
    SameElectable(m, after);
  }

  /** With seats left and more than three candidates it is a matter of iteration order: some
      staffing puts an electable proxy back, and some other does not. */
  lemma ReseatingIsArbitrary(m: Smap, id: NodeId) returns (with: Smap, without: Smap)
    requires m.primary in m.pmap && id in Electable(m) && id !in m.ICs() + {m.primary}
    requires |m.ICs() + {m.primary}| < 3 < |Candidates(m)|
    ensures Staffed(m, with, 3) && id in with.ICs()
    ensures Staffed(m, without, 3) && id !in without.ICs()
  {
    var seated, all := m.ICs() + {m.primary}, Candidates(m);
    var more := Between(seated + {id}, all, 3);
    SeatingIsStaffing(m, more);
    var others := Between(seated, all - {id}, 3);
    SeatingIsStaffing(m, others);
    with, without := Seating(m, more), Seating(m, others);
  }

  /** Staffing in progress: `left` are the proxies not yet looked at. */
  ghost predicate Staffing(before: Smap, now: Smap, left: set<NodeId>) {
    && SameButIC(before, now) && Versioned(before, now)
    && var seated := before.ICs() + {before.primary};
       && seated <= now.ICs()
       && (forall id :: id in now.ICs() - seated ==> NonElectable !in now.pmap[id])
       && Electable(now) - left <= now.ICs()
  }

  lemma SeatOne(m: Smap, id: NodeId)
    requires id in m.pmap && id !in m.tmap && IC !in m.pmap[id]
    ensures var r := m.SetFlags(id, {IC});
            && r == Smap(m.tmap, m.pmap[id := m.pmap[id] + {IC}], m.primary, m.version + 1)
            && SameButIC(m, r) && r.ICs() == m.ICs() + {id} && Electable(r) == Electable(m)
  {
    var r := m.SetFlags(id, {IC});
    assert m.pmap[id] + {IC} - {} == m.pmap[id] + {IC};
    assert r.pmap[id] - {IC} == m.pmap[id] - {IC};
  }

  lemma UnseatOne(m: Smap, id: NodeId)
    requires id in m.ICs() && id !in m.tmap
    ensures var r := m.ClearFlags(id, {IC});
            && SameButIC(m, r) && r.ICs() == m.ICs() - {id} && r.version == m.version + 1
  {
  }

  lemma StaffingSeat(before: Smap, now: Smap, left: set<NodeId>, id: NodeId)
    requires Staffing(before, now, left) && now.tmap.Keys !! now.pmap.Keys
    requires id in now.pmap && IC !in now.pmap[id] && NonElectable !in now.pmap[id]
    ensures Staffing(before, now.SetFlags(id, {IC}), left - {id})
    ensures |now.SetFlags(id, {IC}).ICs()| == |now.ICs()| + 1
  {
    SeatOne(now, id);
    var next := now.SetFlags(id, {IC});
    assert NonElectable !in next.pmap[id];
  }

  lemma StaffingSkip(before: Smap, now: Smap, left: set<NodeId>, id: NodeId)
    requires Staffing(before, now, left)
    requires id in now.pmap && (IC in now.pmap[id] || NonElectable in now.pmap[id])
    ensures Staffing(before, now, left - {id})
  {
  }

  lemma StaffingStarts(before: Smap, now: Smap)
    requires before.primary in before.pmap && before.tmap.Keys !! before.pmap.Keys
    requires now == if before.primary in before.ICs() then before else before.SetFlags(before.primary, {IC})
    ensures Staffing(before, now, before.pmap.Keys) && now.ICs() == before.ICs() + {before.primary}
  {
  }

  lemma StaffingEnds(before: Smap, now: Smap, left: set<NodeId>)
    requires Staffing(before, now, left) && before.primary in before.pmap
    requires |before.ICs() + {before.primary}| < 3 && |now.ICs()| <= 3
    requires |now.ICs()| == 3 || left == {}
    ensures Staffed(before, now, |now.ICs()|)
  {
  }

  lemma OverstaffedEnds(before: Smap, now: Smap, id: NodeId)
    requires Staffing(before, now, before.pmap.Keys) && now.ICs() == before.ICs() + {before.primary}
    requires |now.ICs()| > 3 && id in now.ICs() - {now.primary} && id !in now.tmap
    ensures Staffed(before, now.ClearFlags(id, {IC}), |now.ICs()| - 1)
  {
    UnseatOne(now, id);
  }

  // ----- editing a batch of nodes ----------------------------------------------------

  datatype Edit = Mark(flags: Flags) | MarkTarget(flags: Flags) | Unmark(flags: Flags) | Remove

  function ApplyOne(m: Smap, e: Edit, id: NodeId): Smap {
    match e
    case Mark(flags) => if m.HasNode(id) then m.SetFlags(id, flags) else m
    case MarkTarget(flags) => if id in m.tmap then m.SetFlags(id, flags) else m
    case Unmark(flags) => if m.HasNode(id) then m.ClearFlags(id, flags) else m
    case Remove => m.Del(id)
  }

  /** The first `n` nodes of the batch, one after the other. */
  function Apply(m: Smap, e: Edit, sids: seq<NodeId>, n: nat): Smap
    requires n <= |sids|
  {
    if n == 0 then m else ApplyOne(Apply(m, e, sids, n - 1), e, sids[n - 1])
  }

  function NewFlags(e: Edit, flags: Flags): Flags {
    match e
    case Mark(f) => flags + f - (if f * MAINT_DECOMM != {} then {IC} else {})
    case MarkTarget(f) => flags + f - (if f * MAINT_DECOMM != {} then {IC} else {})
    case Unmark(f) => flags - f
    case Remove => flags
  }

  ghost function EditedMap(nodes: map<NodeId, Flags>, e: Edit, ids: set<NodeId>): map<NodeId, Flags> {
    map id | id in nodes && !(e.Remove? && id in ids) :: if id in ids then NewFlags(e, nodes[id]) else nodes[id]
  }

  ghost predicate Touches(m: Smap, e: Edit, ids: set<NodeId>) {
    exists id :: id in ids && (id in m.tmap || (id in m.pmap && !e.MarkTarget?))
  }

  ghost function FirstN(sids: seq<NodeId>, n: nat): set<NodeId>
    requires n <= |sids|
  {
    set i | 0 <= i < n :: sids[i]
  }

  ghost function Batch(sids: seq<NodeId>): set<NodeId> { FirstN(sids, |sids|) }

  /** Every node of the set edited at once, and nothing else. */
  ghost predicate Edited(m: Smap, e: Edit, ids: set<NodeId>, r: Smap) {
    && r.primary == m.primary
    && r.tmap == EditedMap(m.tmap, e, ids)
    && r.pmap == (if e.MarkTarget? then m.pmap else EditedMap(m.pmap, e, ids))
    && m.version <= r.version
    && (m.version < r.version <==> Touches(m, e, ids))
  }

  lemma NewFlagsTwice(e: Edit, flags: Flags)
    requires e.Mark? || e.MarkTarget? ==> IC !in e.flags
    ensures NewFlags(e, NewFlags(e, flags)) == NewFlags(e, flags)
  {
  }

  lemma EditOneMore(nodes: map<NodeId, Flags>, e: Edit, ids: set<NodeId>, id: NodeId)
    requires e.Mark? || e.MarkTarget? ==> IC !in e.flags
    ensures e.Remove? ==> EditedMap(nodes, e, ids + {id}) == EditedMap(nodes, e, ids) - {id}
    ensures id !in nodes ==> EditedMap(nodes, e, ids + {id}) == EditedMap(nodes, e, ids)
    ensures id in nodes && !e.Remove? ==>
              EditedMap(nodes, e, ids + {id}) ==
              EditedMap(nodes, e, ids)[id := NewFlags(e, EditedMap(nodes, e, ids)[id])]
  {
    if id in nodes { NewFlagsTwice(e, nodes[id]); }
  }

  lemma TouchOneMore(m: Smap, e: Edit, ids: set<NodeId>, id: NodeId)
    ensures Touches(m, e, ids + {id}) <==> Touches(m, e, ids) || id in m.tmap || (id in m.pmap && !e.MarkTarget?)
  {
    assert id in ids + {id};
    assert forall x :: x in ids ==> x in ids + {id};
  }

  lemma ApplyOneEdits(m: Smap, e: Edit, id: NodeId)
    requires m.tmap.Keys !! m.pmap.Keys
    ensures var r := ApplyOne(m, e, id);
            && r.primary == m.primary
            && r.tmap == (if id !in m.tmap then m.tmap
                          else if e.Remove? then m.tmap - {id}
                          else m.tmap[id := NewFlags(e, m.tmap[id])])
            && r.pmap == (if id !in m.pmap || e.MarkTarget? then m.pmap
                          else if e.Remove? then m.pmap - {id}
                          else m.pmap[id := NewFlags(e, m.pmap[id])])
            && r.version == m.version + if id in m.tmap || (id in m.pmap && !e.MarkTarget?) then 1 else 0
  {
  }

  lemma EditedStep(m: Smap, e: Edit, ids: set<NodeId>, r: Smap, id: NodeId)
    requires m.tmap.Keys !! m.pmap.Keys && Edited(m, e, ids, r)
    requires e.Mark? || e.MarkTarget? ==> IC !in e.flags
    ensures Edited(m, e, ids + {id}, ApplyOne(r, e, id))
  {
    assert r.tmap.Keys <= m.tmap.Keys && r.pmap.Keys <= m.pmap.Keys;
    ApplyOneEdits(r, e, id);
    EditOneMore(m.tmap, e, ids, id);
    EditOneMore(m.pmap, e, ids, id);
    TouchOneMore(m, e, ids, id);
    if id in ids && e.Remove? { assert id !in r.tmap && id !in r.pmap; }
    if id in ids && (id in m.tmap || (id in m.pmap && !e.MarkTarget?)) { assert Touches(m, e, ids); }
  }

  /** A batch is a simultaneous edit: order and repetition do not matter. */
  lemma {:induction false} BatchIsSimultaneous(m: Smap, e: Edit, sids: seq<NodeId>, n: nat)
    requires n <= |sids| && m.tmap.Keys !! m.pmap.Keys
    requires e.Mark? || e.MarkTarget? ==> IC !in e.flags
    ensures Edited(m, e, FirstN(sids, n), Apply(m, e, sids, n))
  {
    if n == 0 {
      assert EditedMap(m.tmap, e, {}) == m.tmap && EditedMap(m.pmap, e, {}) == m.pmap;
      assert FirstN(sids, 0) == {};
    } else {
      BatchIsSimultaneous(m, e, sids, n - 1);
      EditedStep(m, e, FirstN(sids, n - 1), Apply(m, e, sids, n - 1), sids[n - 1]);
      assert FirstN(sids, n) == FirstN(sids, n - 1) + {sids[n - 1]};
    }
  }
}
