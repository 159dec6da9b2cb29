/** Discovering a newer cluster map: the newest version reported, its primary, and how many
    nodes have confirmed it (`ais/htcommon.go`, `ais/htrun.go`). */
module Confirm {

  import opened ClusterMap

  /** Minimum number of confirmations to act upon. */
  const MAX_VER_CONFIRMATIONS := 3

  datatype Report = Report(node: NodeId, version: nat, primary: NodeId, voting: bool)

  /** The newest so far and its confirmations. */
  datatype Best = Best(version: nat, primary: NodeId, cnt: nat)

  function Step(b: Best, r: Report): Best {
    if b.version < r.version then
      Best(r.version, r.primary, if b.primary != r.primary || r.voting then 1 else b.cnt + 1)
    else if b.version == r.version && b.primary == r.primary then b.(cnt := b.cnt + 1)
    else b
  }

  function Fold(local: Best, rs: seq<Report>, n: nat): Best
    requires n <= |rs|
  {
    if n == 0 then local else Step(Fold(local, rs, n - 1), rs[n - 1])
  }

  ghost function Naming(rs: seq<Report>, n: nat, primary: NodeId): set<NodeId>
    requires n <= |rs|
  {
    set i | 0 <= i < n && rs[i].primary == primary :: rs[i].node
  }

  ghost function At(rs: seq<Report>, n: nat, version: nat, primary: NodeId): set<NodeId>
    requires n <= |rs|
  {
    set i | 0 <= i < n && rs[i].version == version && rs[i].primary == primary :: rs[i].node
  }

  /** How many of the first `n` reports have this version and this primary. */
  function CountAt(rs: seq<Report>, n: nat, version: nat, primary: NodeId): nat
    requires n <= |rs|
  {
    if n == 0 then 0
    else
      CountAt(rs, n - 1, version, primary)
      + if rs[n - 1].version == version && rs[n - 1].primary == primary then 1 else 0
  }

  ghost predicate DistinctNodes(rs: seq<Report>) {
    forall i, j :: 0 <= i < j < |rs| ==> rs[i].node != rs[j].node
  }

  lemma NamingMore(rs: seq<Report>, n: nat, primary: NodeId)
    requires 0 < n <= |rs| && DistinctNodes(rs)
    ensures Naming(rs, n, primary) ==
            Naming(rs, n - 1, primary) + if rs[n - 1].primary == primary then {rs[n - 1].node} else {}
    ensures |Naming(rs, n, primary)| == |Naming(rs, n - 1, primary)| + if rs[n - 1].primary == primary then 1 else 0
  {
  }

  lemma AtMore(rs: seq<Report>, n: nat, version: nat, primary: NodeId)
    requires 0 < n <= |rs| && DistinctNodes(rs)
    ensures |At(rs, n, version, primary)| ==
            |At(rs, n - 1, version, primary)|
            + if rs[n - 1].version == version && rs[n - 1].primary == primary then 1 else 0
  {
    var r, before := rs[n - 1], At(rs, n - 1, version, primary);
    assert r.node !in before;
    assert At(rs, n, version, primary) ==
           before + if r.version == version && r.primary == primary then {r.node} else {};
  }

  lemma {:induction false} CountAtIs(rs: seq<Report>, n: nat, version: nat, primary: NodeId)
    requires n <= |rs| && DistinctNodes(rs)
    ensures CountAt(rs, n, version, primary) == |At(rs, n, version, primary)|
  {
    if n > 0 {
      CountAtIs(rs, n - 1, version, primary);
      AtMore(rs, n, version, primary);
    }
  }

  /** In whatever order the reports come in, the version kept is the newest of all, and its
      primary is the one reported with it. */
  lemma {:induction false} FoldIsNewest(local: Best, rs: seq<Report>, n: nat)
    requires n <= |rs|
    ensures var b := Fold(local, rs, n);
            && local.version <= b.version && (forall i :: 0 <= i < n ==> rs[i].version <= b.version)
            && ((b.version == local.version && b.primary == local.primary)
                || exists i :: 0 <= i < n && rs[i].version == b.version && rs[i].primary == b.primary)
  {
    if n > 0 { FoldIsNewest(local, rs, n - 1); }
  }

  /** The confirmations are never more than the nodes that have named that primary. */
  lemma {:induction false} CountAtMostNaming(version: nat, primary: NodeId, rs: seq<Report>, n: nat)
    requires n <= |rs| && DistinctNodes(rs)
    ensures var b := Fold(Best(version, primary, 0), rs, n);
            b.cnt <= |Naming(rs, n, b.primary)|
  {
    if n > 0 {
      CountAtMostNaming(version, primary, rs, n - 1);
      var before := Fold(Best(version, primary, 0), rs, n - 1);
      NamingCount(rs, n, Step(before, rs[n - 1]).primary);
    }
  }

  lemma NamingCount(rs: seq<Report>, n: nat, primary: NodeId)
    requires 0 < n <= |rs| && DistinctNodes(rs)
    ensures |Naming(rs, n, primary)| == |Naming(rs, n - 1, primary)| + if rs[n - 1].primary == primary then 1 else 0
  {
    NamingMore(rs, n, primary);
  }

  /** Confirmations carried over from older versions: those at hand when the version kept was
      first reported, unless that report disagreed or came in the middle of a vote. */
  function Carried(local: Best, rs: seq<Report>, n: nat): nat
    requires n <= |rs|
  {
    if n == 0 then local.cnt
    else
      var before := Fold(local, rs, n - 1);
      if before.version < rs[n - 1].version then Step(before, rs[n - 1]).cnt - 1
      else Carried(local, rs, n - 1)
  }

  /** Exactly: the confirmations are the nodes that have reported this version with this
      primary, and those carried over. */
  lemma {:induction false} CountIs(local: Best, rs: seq<Report>, n: nat)
    requires n <= |rs| && local.cnt == 0
    ensures var b := Fold(local, rs, n);
            b.cnt == CountAt(rs, n, b.version, b.primary) + Carried(local, rs, n)
  {
    if n > 0 {
      CountIs(local, rs, n - 1);
      var before, r := Fold(local, rs, n - 1), rs[n - 1];
      if before.version < r.version { NobodyAt(local, rs, n - 1, n - 1, r.version, r.primary); }
    }
  }

  lemma {:induction false} NobodyAt(local: Best, rs: seq<Report>, k: nat, n: nat, version: nat, primary: NodeId)
    requires k <= n <= |rs| && Fold(local, rs, n).version < version
    ensures CountAt(rs, k, version, primary) == 0
  {
    if k > 0 {
      FoldIsNewest(local, rs, n);
      NobodyAt(local, rs, k - 1, n, version, primary);
    }
  }

  /** A report that adds a confirmation if it comes first: it is ahead of the local map, or
      the same as that. */
  predicate Adds(local: Best, r: Report) {
    r.version > local.version || (r.version == local.version && r.primary == local.primary)
  }

  ghost predicate IsNewest(rs: seq<Report>, m: Report) { forall x :: x in rs ==> x.version <= m.version }

  /** Somebody reports the newest version, ahead of the local one and not in the middle of a
      vote, and somebody else an older one with the same primary that adds a confirmation. */
  ghost predicate MayCarry(local: Best, rs: seq<Report>) {
    exists r, m ::
      && r in rs && m in rs && IsNewest(rs, m) && local.version < m.version && !m.voting
      && r.version < m.version && r.primary == m.primary && Adds(local, r)
  }

  /** Confirmations at hand have been reported. */
  lemma CountedIsReported(local: Best, rs: seq<Report>, n: nat) returns (i: nat)
    requires n <= |rs| && local.cnt == 0 && Fold(local, rs, n).cnt > 0
    ensures var b := Fold(local, rs, n);
            i < n && rs[i].version == b.version && rs[i].primary == b.primary && Adds(local, rs[i])
  {
    var b := Fold(local, rs, n);
    FoldIsNewest(local, rs, n);
    if b.version == local.version && b.primary == local.primary {
      NeverRaised(local, rs, n);
      CountIs(local, rs, n);
      i := SomeAt(rs, n, b.version, b.primary);
    } else {
      i :| 0 <= i < n && rs[i].version == b.version && rs[i].primary == b.primary;
      PrimaryComesWithVersion(local, rs, n);
    }
  }

  lemma {:induction false} PrimaryComesWithVersion(local: Best, rs: seq<Report>, n: nat)
    requires n <= |rs|
    ensures Fold(local, rs, n).version == local.version ==> Fold(local, rs, n).primary == local.primary
  {
    if n > 0 {
      PrimaryComesWithVersion(local, rs, n - 1);
      FoldIsNewest(local, rs, n - 1);
    }
  }

  lemma {:induction false} NeverRaised(local: Best, rs: seq<Report>, n: nat)
    requires n <= |rs| && Fold(local, rs, n).version == local.version
    ensures Carried(local, rs, n) == local.cnt
  {
    if n > 0 {
      FoldIsNewest(local, rs, n - 1);
      NeverRaised(local, rs, n - 1);
    }
  }

  lemma {:induction false} SomeAt(rs: seq<Report>, n: nat, version: nat, primary: NodeId) returns (i: nat)
    requires n <= |rs| && CountAt(rs, n, version, primary) > 0
    ensures i < n && rs[i].version == version && rs[i].primary == primary
  {
    if rs[n - 1].version == version && rs[n - 1].primary == primary { return n - 1; }
    i := SomeAt(rs, n - 1, version, primary);
  }

  /** What is carried was carried to the version kept, from an older one. */
  lemma {:induction false} CarriedComesFrom(local: Best, rs: seq<Report>, n: nat) returns (i: nat, j: nat)
    requires n <= |rs| && local.cnt == 0 && Carried(local, rs, n) > 0
    ensures i < n && j < n && rs[j].version == Fold(local, rs, n).version && !rs[j].voting
            && local.version < rs[j].version
    ensures rs[i].version < rs[j].version && rs[i].primary == rs[j].primary && Adds(local, rs[i])
  {
    var before := Fold(local, rs, n - 1);
    if before.version < rs[n - 1].version {
      FoldIsNewest(local, rs, n - 1);
      i := CountedIsReported(local, rs, n - 1);
      j := n - 1;
    } else {
      i, j := CarriedComesFrom(local, rs, n - 1);
    }
  }

  lemma NothingCarried(local: Best, rs: seq<Report>)
    requires local.cnt == 0 && !MayCarry(local, rs)
    ensures Carried(local, rs, |rs|) == 0
  {
    if Carried(local, rs, |rs|) > 0 {
      var i, j := CarriedComesFrom(local, rs, |rs|);
      FoldIsNewest(local, rs, |rs|);
      assert rs[i] in rs && rs[j] in rs && IsNewest(rs, rs[j]);
    }
  }

  // ----- the order in which confirmations are carried over

  lemma {:induction false} CarriedStays(local: Best, rs: seq<Report>, n: nat)
    requires 2 <= n <= |rs| && IsNewest(rs, rs[1]) && Fold(local, rs, 2).version == rs[1].version
    ensures Fold(local, rs, n).version == rs[1].version && Carried(local, rs, n) == Carried(local, rs, 2)
  {
    if n > 2 {
      CarriedStays(local, rs, n - 1);
      assert rs[n - 1] in rs;
    }
  }

  lemma OlderFirstCarries(local: Best, r: Report, m: Report, rest: seq<Report>)
    requires local.cnt == 0 && local.version < m.version && !m.voting && IsNewest([r, m] + rest, m)
    requires r.version < m.version && r.primary == m.primary && Adds(local, r)
    ensures var qs := [r, m] + rest; Carried(local, qs, |qs|) == 1
  {
    var qs := [r, m] + rest;
    assert qs[0] == r && qs[1] == m;
    assert Fold(local, qs, 0) == local && Fold(local, qs, 1) == Step(local, r);
    assert Fold(local, qs, 2) == Step(Fold(local, qs, 1), m);
    CarriedStays(local, qs, |qs|);
  }

  lemma TakeOne(rs: seq<Report>, i: nat) returns (rest: seq<Report>)
    requires i < |rs|
    ensures rest == rs[..i] + rs[i + 1..] && multiset(rs) == multiset{rs[i]} + multiset(rest)
  {
    rest := rs[..i] + rs[i + 1..];
    assert rs == rs[..i] + [rs[i]] + rs[i + 1..];
  }

  lemma TakeOut(rs: seq<Report>, i: nat, j: nat) returns (rest: seq<Report>)
    requires i < |rs| && j < |rs| && i != j
    ensures multiset([rs[i], rs[j]] + rest) == multiset(rs)
  {
    var without := TakeOne(rs, i);
    rest := TakeOne(without, if j < i then j else j - 1);
    assert multiset([rs[i], rs[j]] + rest) == multiset{rs[i]} + (multiset{rs[j]} + multiset(rest));
  }

  ghost predicate SameReports(qs: seq<Report>, rs: seq<Report>) { multiset(qs) == multiset(rs) }

  /** The confirmations of the version kept are as many as the reports of it. */
  ghost predicate CountsReports(local: Best, qs: seq<Report>) {
    var b := Fold(local, qs, |qs|);
    b.cnt == CountAt(qs, |qs|, b.version, b.primary)
  }

  /** Exactly when confirmations are reports of the newest version, in whatever order the
      reports come in. */
  lemma ConfirmedMeansReportedIff(local: Best, rs: seq<Report>)
    requires local.cnt == 0
    ensures (forall qs :: SameReports(qs, rs) ==> CountsReports(local, qs)) <==> !MayCarry(local, rs)
  {
    if MayCarry(local, rs) {
      var qs := CarryingOrder(local, rs);
      CountIs(local, qs, |qs|);
      assert SameReports(qs, rs) && !CountsReports(local, qs);
    } else {
      forall qs | SameReports(qs, rs) ensures CountsReports(local, qs) {
        SameMembers(qs, rs);
        NothingCarried(local, qs);
        CountIs(local, qs, |qs|);
      }
    }
  }

  lemma SameMembers(qs: seq<Report>, rs: seq<Report>)
    requires SameReports(qs, rs)
    ensures forall x :: x in qs <==> x in rs
  {
    forall x ensures x in qs <==> x in rs {
      assert x in qs <==> x in multiset(qs);
      assert x in rs <==> x in multiset(rs);
    }
  }

  lemma CarryingOrder(local: Best, rs: seq<Report>) returns (qs: seq<Report>)
    requires local.cnt == 0 && MayCarry(local, rs)
    ensures SameReports(qs, rs) && Carried(local, qs, |qs|) > 0
  {
    var r, m :| && r in rs && m in rs && IsNewest(rs, m) && local.version < m.version && !m.voting
                && r.version < m.version && r.primary == m.primary && Adds(local, r);
    var i :| 0 <= i < |rs| && rs[i] == r;
    var j :| 0 <= j < |rs| && rs[j] == m;
    var rest := TakeOut(rs, i, j);
    qs := [r, m] + rest;
    SameMembers(qs, rs);
    OlderFirstCarries(local, r, m, rest);
  }

  /** For different nodes: three confirmations are three nodes at that version. */
  lemma ConfirmedMeansReported(version: nat, primary: NodeId, rs: seq<Report>)
    requires DistinctNodes(rs) && !MayCarry(Best(version, primary, 0), rs)
    ensures var b := Fold(Best(version, primary, 0), rs, |rs|);
            b.cnt == |At(rs, |rs|, b.version, b.primary)|
  {
    var b := Fold(Best(version, primary, 0), rs, |rs|);
    CountIs(Best(version, primary, 0), rs, |rs|);
    CountAtIs(rs, |rs|, b.version, b.primary);
    NothingCarried(Best(version, primary, 0), rs);
  }

  // ----- asking the nodes ------------------------------------------------------------------

  class MaxCii {
    var best: Best
    ghost var seen: seq<Report>
    ghost const local: Best

    ghost predicate Valid()
      reads this
    {
      DistinctNodes(seen) && local.cnt == 0 && best == Fold(local, seen, |seen|)
    }

    constructor (version: nat, primary: NodeId)
      ensures Valid() && local == Best(version, primary, 0) && seen == []
    {
      best, seen, local := Best(version, primary, 0), [], Best(version, primary, 0);
    }

    /** One report, under the lock. */
    method Do(r: Report)
      requires Valid() && forall i :: 0 <= i < |seen| ==> seen[i].node != r.node
      modifies this
      ensures Valid() && seen == old(seen) + [r]
    {
      if best.version < r.version {
        var cnt := if best.primary != r.primary || r.voting then 1 else best.cnt + 1;
        best := Best(r.version, r.primary, cnt);
      } else if best.version == r.version && best.primary == r.primary {
        best := best.(cnt := best.cnt + 1);
      }
      FoldPrefix(local, seen, r, |seen|);
      seen := seen + [r];
    }

    /** Asks the given nodes in any order; some do not answer. Unless all must be asked, it
        may stop early, and does so only with enough confirmations. */
    method Bch(nodes: set<NodeId>, replies: map<NodeId, Report>, checkAll: bool, count: nat) returns (left: set<NodeId>)
      requires Valid() && forall id :: id in replies ==> replies[id].node == id
      requires forall i :: 0 <= i < |seen| ==> seen[i].node !in nodes
      modifies this
      ensures Valid() && left <= nodes && old(seen) <= seen
      ensures forall i :: |old(seen)| <= i < |seen| ==>
              seen[i].node in nodes && seen[i].node in replies && seen[i] == replies[seen[i].node]
      ensures forall id :: id in nodes && id in replies && id !in left ==> replies[id] in seen
      ensures left != {} ==> !checkAll && 0 < count < |nodes - left| && best.cnt >= 3
    {
      left := nodes;
      var i := 0;
      while left != {}
        invariant Valid() && left <= nodes && old(seen) <= seen
        invariant i == |nodes - left|
        invariant forall k :: 0 <= k < |seen| ==> seen[k].node !in left
        invariant forall k :: |old(seen)| <= k < |seen| ==>
                  seen[k].node in nodes && seen[k].node in replies && seen[k] == replies[seen[k].node]
        invariant forall id :: id in nodes && id in replies && id !in left ==> replies[id] in seen
        decreases left
      {
        if !checkAll && 0 < count < |nodes| && i > count && best.cnt >= MAX_VER_CONFIRMATIONS { return; }
        var id :| id in left;
        assert nodes - (left - {id}) == (nodes - left) + {id};
        left := left - {id};
        i := i + 1;
        if id in replies { Do(replies[id]); }
      }
    }

    /** Acting upon enough confirmations rests on that many different nodes, each of which
        has named the primary that is acted upon. */
    lemma EnoughMeansNodes()
      requires Valid()
      ensures |Naming(seen, |seen|, best.primary)| >= best.cnt
      ensures local.version <= best.version && forall i :: 0 <= i < |seen| ==> seen[i].version <= best.version
    {
      FoldIsNewest(local, seen, |seen|);
      CountAtMostNaming(local.version, local.primary, seen, |seen|);
    }
  }

  /** A node that starts up and finds itself the primary of its local map proceeds as such
      unless there is a newer map that names another, or is not confirmed enough. */
  predicate StaysPrimary(self: NodeId, version: nat, b: Best) {
    b.version > version ==> b.primary == self && b.cnt >= MAX_VER_CONFIRMATIONS
  }

  /** A node that waits for the cluster to start rejoins when the primary has changed. */
  predicate Rejoins(pid: NodeId, version: nat, b: Best) {
    b.version > version && b.primary != pid && b.cnt >= MAX_VER_CONFIRMATIONS
  }

  /** Some node has reported a newer map. */
  ghost predicate AnyNewer(version: nat, rs: seq<Report>) { exists i :: 0 <= i < |rs| && rs[i].version > version }

  /** Either decision that goes by a newer map rests on at least three different nodes that
      have named the primary it goes by; three that have reported that very map are enough;
      and without a newer map a node remains what it is. */
  lemma DecisionsRestOnThree(self: NodeId, version: nat, primary: NodeId, rs: seq<Report>)
    requires DistinctNodes(rs)
    ensures var b := Fold(Best(version, primary, 0), rs, |rs|);
            var naming, having := |Naming(rs, |rs|, b.primary)|, |At(rs, |rs|, b.version, b.primary)|;
            && (forall i :: 0 <= i < |rs| ==> rs[i].version <= b.version)
            && (!AnyNewer(version, rs) ==> StaysPrimary(self, version, b) && !Rejoins(self, version, b))
            && (AnyNewer(version, rs) ==>
                  && (StaysPrimary(self, version, b) ==> b.primary == self && naming >= 3)
                  && (b.primary == self && having >= 3 ==> StaysPrimary(self, version, b))
                  && (Rejoins(self, version, b) ==> b.primary != self && naming >= 3)
                  && (b.primary != self && having >= 3 ==> Rejoins(self, version, b)))
  {
    var local := Best(version, primary, 0);
    FoldIsNewest(local, rs, |rs|);
    CountAtMostNaming(version, primary, rs, |rs|);
    CountIs(local, rs, |rs|);
    var b := Fold(local, rs, |rs|);
    CountAtIs(rs, |rs|, b.version, b.primary);
  }

  /** If in addition no report carries over, three nodes that have reported the newest map are
      exactly what it takes. */
  lemma DecisionsIff(self: NodeId, version: nat, primary: NodeId, rs: seq<Report>)
    requires DistinctNodes(rs) && !MayCarry(Best(version, primary, 0), rs) && AnyNewer(version, rs)
    ensures var b := Fold(Best(version, primary, 0), rs, |rs|);
            var enough := |At(rs, |rs|, b.version, b.primary)| >= 3;
            && (StaysPrimary(self, version, b) <==> b.primary == self && enough)
            && (Rejoins(self, version, b) <==> b.primary != self && enough)
  {
    FoldIsNewest(Best(version, primary, 0), rs, |rs|);
    ConfirmedMeansReported(version, primary, rs);
  }

  lemma {:induction false} FoldPrefix(local: Best, rs: seq<Report>, r: Report, n: nat)
    requires n <= |rs|
    ensures Fold(local, rs + [r], n) == Fold(local, rs, n)
  {
    if n > 0 { FoldPrefix(local, rs, r, n - 1); }
  }
}
