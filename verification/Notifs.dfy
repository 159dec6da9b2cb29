/** Tables of notification listeners: which UUIDs are running and which have finished, how
    members of the IC merge each other's tables, and what they converge to
    (`ais/prxnotif.go`). */
module Notifs {

  type Uuid = string

  datatype Tables = Tables(running: set<Uuid>, finished: set<Uuid>) {
    ghost predicate Disjoint() { running !! finished }
  }

  /** What applying a snapshot of another node makes of the tables. Whatever is known is
      not added again; whatever the other node has finished is moved. */
  function Merge(t: Tables, m: Tables): Tables {
    var added := m.running - t.finished - t.running;
    var finished := m.finished - t.finished;
    var removed := finished * t.running;
    Tables(t.running + added - removed, t.finished + finished)
  }

  /** Applying a snapshot keeps the tables disjoint exactly when every UUID that the
      snapshot lists twice is already known. */
  lemma MergeKeepsDisjointIff(t: Tables, m: Tables)
    requires t.Disjoint()
    ensures Merge(t, m).Disjoint() <==> m.running * m.finished <= t.running + t.finished
  {
  }

  /** On disjoint tables it is the least upper bound: everything either has finished is
      finished, and everything else either knows is running. */
  lemma MergeIsJoin(t: Tables, m: Tables)
    requires t.Disjoint() && m.Disjoint()
    ensures Merge(t, m) == Tables((t.running + m.running) - (t.finished + m.finished), t.finished + m.finished)
    ensures Merge(t, m).Disjoint()
  {
  }

  lemma MergeLaws(t: Tables, m: Tables, n: Tables)
    requires t.Disjoint() && m.Disjoint() && n.Disjoint()
    ensures Merge(t, t) == t
    ensures Merge(t, m) == Merge(m, t)
    ensures Merge(Merge(t, m), n) == Merge(t, Merge(m, n))
  {
  }

  function MergeAll(t: Tables, ms: seq<Tables>, n: nat): Tables
    requires n <= |ms|
  {
    if n == 0 then t else Merge(MergeAll(t, ms, n - 1), ms[n - 1])
  }

  ghost predicate AllDisjoint(ms: seq<Tables>) { forall i :: 0 <= i < |ms| ==> ms[i].Disjoint() }

  ghost predicate IsFinished(t: Tables, ms: seq<Tables>, n: nat, u: Uuid)
    requires n <= |ms|
  {
    u in t.finished || exists i :: 0 <= i < n && u in ms[i].finished
  }

  ghost predicate IsKnown(t: Tables, ms: seq<Tables>, n: nat, u: Uuid)
    requires n <= |ms|
  {
    u in t.running + t.finished || exists i :: 0 <= i < n && u in ms[i].running + ms[i].finished
  }

  /** After any sequence of snapshots: finished is what anybody has reported finished, no
      matter who still reports it as running and when; running is the rest of the known. */
  lemma {:induction false} MergeAllIs(t: Tables, ms: seq<Tables>, n: nat, u: Uuid)
    requires n <= |ms| && t.Disjoint() && AllDisjoint(ms)
    ensures MergeAll(t, ms, n).Disjoint()
    ensures u in MergeAll(t, ms, n).finished <==> IsFinished(t, ms, n, u)
    ensures u in MergeAll(t, ms, n).running <==> IsKnown(t, ms, n, u) && !IsFinished(t, ms, n, u)
  {
    if n > 0 {
      MergeAllIs(t, ms, n - 1, u);
      MergeIsJoin(MergeAll(t, ms, n - 1), ms[n - 1]);
    }
  }

  // ----- convergence ---------------------------------------------------------------------

  /** What a member makes of its own tables and all snapshots it has applied, in order. */
  function History(ms: seq<Tables>): Tables { MergeAll(Tables({}, {}), ms, |ms|) }

  lemma {:induction false} OwnTablesFirst(t: Tables, ms: seq<Tables>, n: nat)
    requires n <= |ms|
    ensures MergeAll(t, ms, n) == MergeAll(Tables({}, {}), [t] + ms, n + 1)
  {
    if n == 0 {
      assert ([t] + ms)[0] == t && MergeAll(Tables({}, {}), [t] + ms, 0) == Tables({}, {});
    } else {
      OwnTablesFirst(t, ms, n - 1);
    }
  }

  ghost predicate Mentions(m: Tables, u: Uuid) { u in m.running || u in m.finished }

  ghost predicate ListsTwice(m: Tables, u: Uuid) { u in m.running && u in m.finished }

  /** A UUID that one of the snapshots lists twice is listed twice by all that mention it. */
  ghost predicate Consistent(ms: seq<Tables>) {
    forall m, n, u :: m in ms && n in ms && ListsTwice(m, u) && Mentions(n, u) ==> ListsTwice(n, u)
  }

  ghost predicate SomeFinished(ms: seq<Tables>, n: nat, u: Uuid)
    requires n <= |ms|
  {
    exists i :: 0 <= i < n && u in ms[i].finished
  }

  ghost predicate SomeRunning(ms: seq<Tables>, n: nat, u: Uuid)
    requires n <= |ms|
  {
    exists i :: 0 <= i < n && u in ms[i].running
  }

  ghost predicate NoneOnlyFinished(ms: seq<Tables>, n: nat, u: Uuid)
    requires n <= |ms|
  {
    forall i :: 0 <= i < n && u in ms[i].finished ==> u in ms[i].running
  }

  lemma {:induction false} HistoryIs(ms: seq<Tables>, n: nat, u: Uuid)
    requires n <= |ms| && Consistent(ms)
    ensures u in MergeAll(Tables({}, {}), ms, n).finished <==> SomeFinished(ms, n, u)
    ensures u in MergeAll(Tables({}, {}), ms, n).running <==> SomeRunning(ms, n, u) && NoneOnlyFinished(ms, n, u)
  {
    if n > 0 {
      HistoryIs(ms, n - 1, u);
      var before, m := MergeAll(Tables({}, {}), ms, n - 1), ms[n - 1];
      assert m in ms;
      forall i | 0 <= i < n - 1 && Mentions(ms[i], u) && Mentions(m, u)
        ensures ListsTwice(ms[i], u) <==> ListsTwice(m, u)
      {
        assert ms[i] in ms;
      }
    }
  }

  ghost predicate SameSnapshots(ms: seq<Tables>, ns: seq<Tables>) { forall m :: m in ms <==> m in ns }

  lemma SameHistory(ms: seq<Tables>, ns: seq<Tables>, u: Uuid)
    requires SameSnapshots(ms, ns)
    ensures SomeFinished(ms, |ms|, u) ==> SomeFinished(ns, |ns|, u)
    ensures SomeRunning(ms, |ms|, u) ==> SomeRunning(ns, |ns|, u)
    ensures NoneOnlyFinished(ns, |ns|, u) ==> NoneOnlyFinished(ms, |ms|, u)
  {
    forall i | 0 <= i < |ms| ensures exists j :: 0 <= j < |ns| && ns[j] == ms[i] {
      assert ms[i] in ns;
    }
  }

  lemma ConsistentConverge(ms: seq<Tables>, ns: seq<Tables>)
    requires SameSnapshots(ms, ns) && Consistent(ms)
    ensures History(ms) == History(ns)
  {
    var a, b := History(ms), History(ns);
    assert Consistent(ns);
    forall u: Uuid
      ensures u in a.finished <==> u in b.finished
      ensures u in a.running <==> u in b.running
    {
      HistoryIs(ms, |ms|, u);
      HistoryIs(ns, |ns|, u);
      SameHistory(ms, ns, u);
      SameHistory(ns, ms, u);
    }
  }

  /** Members of the IC that hold tables of their own and have applied each other's and
      anybody else's, in whatever order and however often, agree on what is running and on
      what has finished. */
  lemma Convergence(t: Tables, ms: seq<Tables>, v: Tables, ns: seq<Tables>)
    requires SameSnapshots([t] + ms, [v] + ns) && Consistent([t] + ms)
    ensures MergeAll(t, ms, |ms|) == MergeAll(v, ns, |ns|)
  {
    OwnTablesFirst(t, ms, |ms|);
    OwnTablesFirst(v, ns, |ns|);
    ConsistentConverge([t] + ms, [v] + ns);
  }

  lemma DisjointAreConsistent(ms: seq<Tables>)
    requires AllDisjoint(ms)
    ensures Consistent(ms)
  {
    forall m, u | m in ms ensures !ListsTwice(m, u) {
      var i :| 0 <= i < |ms| && ms[i] == m;
    }
  }

  // ----- and when they do not converge -------------------------------------------------------

  /** Both tables, or the table of finished ones alone, are where a UUID stays. */
  lemma {:induction false} StaysThere(t: Tables, ms: seq<Tables>, n: nat, u: Uuid)
    requires n <= |ms| && u in t.finished
    ensures u in MergeAll(t, ms, n).finished && (u in MergeAll(t, ms, n).running <==> u in t.running)
  {
    if n > 0 { StaysThere(t, ms, n - 1, u); }
  }

  /** One who sees the snapshot that lists the UUID twice first keeps it in both tables, and
      one who sees the other first does not. */
  lemma OrderMatters(m: Tables, n: Tables, ms: seq<Tables>, u: Uuid)
    requires ListsTwice(m, u) && Mentions(n, u) && !ListsTwice(n, u)
    ensures History([m] + ([n] + ms)) != History([n] + ([m] + ms))
  {
    HistoryOfTwo(m, n, ms);
    HistoryOfTwo(n, m, ms);
    StaysThere(Merge(m, n), ms, |ms|, u);
    StaysThere(Merge(n, m), ms, |ms|, u);
  }

  lemma HistoryOfTwo(m: Tables, n: Tables, ms: seq<Tables>)
    ensures History([m] + ([n] + ms)) == MergeAll(Merge(m, n), ms, |ms|)
  {
    OwnTablesFirst(m, [n] + ms, |ms| + 1);
    TwoFirst(m, n, ms, |ms|);
  }

  lemma {:induction false} TwoFirst(m: Tables, n: Tables, ms: seq<Tables>, k: nat)
    requires k <= |ms|
    ensures MergeAll(m, [n] + ms, k + 1) == MergeAll(Merge(m, n), ms, k)
  {
    if k == 0 {
      assert MergeAll(m, [n] + ms, 0) == m && ([n] + ms)[0] == n;
    } else {
      TwoFirst(m, n, ms, k - 1);
    }
  }

  /** All that have seen exactly these snapshots have the same tables. */
  ghost predicate AlwaysConverge(ms: seq<Tables>) {
    forall a, b :: SameSnapshots(a, ms) && SameSnapshots(b, ms) ==> History(a) == History(b)
  }

  /** Exactly when snapshots converge in every order and multiplicity. */
  lemma ConvergenceIff(ms: seq<Tables>)
    ensures AlwaysConverge(ms) <==> Consistent(ms)
  {
    if Consistent(ms) {
      forall a, b | SameSnapshots(a, ms) && SameSnapshots(b, ms) ensures History(a) == History(b) {
        ConsistentConverge(ms, a);
        ConsistentConverge(ms, b);
      }
    } else {
      var m, n, u :| m in ms && n in ms && ListsTwice(m, u) && Mentions(n, u) && !ListsTwice(n, u);
      OrderMatters(m, n, ms, u);
      assert SameSnapshots([m] + ([n] + ms), ms) && SameSnapshots([n] + ([m] + ms), ms);
    }
  }

  /** A snapshot that is taken while `gone` is in both tables of its owner leaves the one
      who applies it with a UUID both running and finished, unless the latter knows all of
      them already. */
  lemma SnapshotInBetween(t: Tables, gone: set<Uuid>, peer: Tables)
    requires t.Disjoint() && peer.Disjoint() && gone <= t.running
    ensures Merge(peer, Tables(t.running, t.finished + gone)).Disjoint() <==> gone <= peer.running + peer.finished
  {
  }
}
