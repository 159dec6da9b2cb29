/** The primary's owner of the cluster map and of the rebalance metadata (RMD): the
    clone-edit-persist-publish transaction, and the batch node operations on top of it
    (`ais/clustermap.go`, `ais/prxcycle.go`). */
module Primary {

  import opened ClusterMap
  import opened Lifecycle
  import opened SmapOwner

  datatype Outcome = Ok | PreFailed | PersistFailed

  /** Whether the target set of a transaction makes it start a rebalance. */
  ghost predicate ActiveChanged(env: RebEnv, prev: Smap, cur: Smap) {
    && env.enabled && !env.stopping && prev.ActiveTargets() != {} && cur.ActiveTargets() != {}
    && (env.interrupted || env.restarted || cur.ActiveTargets() != prev.ActiveTargets())
  }

  /** What decides on a rebalance besides the maps: whether the caller skips it, and
      whether the cluster can rebalance at all. */
  datatype RebArgs = RebArgs(skip: bool, can: bool, env: RebEnv)

  ghost predicate Starts(pre: Pre, args: RebArgs, prev: Smap, cur: Smap) {
    match pre
    case MarkMaint(_, _) => !args.skip && ActiveChanged(args.env, prev, cur)
    case StopMaint(_) =>
      !args.skip && args.env.enabled && !args.env.stopping
      && cur.ActiveTargets() != prev.ActiveTargets() && |cur.ActiveTargets()| >= 2
    case Joined(_, isProxy, _) => !isProxy && args.can && ActiveChanged(args.env, prev, cur)
    case _ => false
  }

  class Owner {
    const self: NodeId
    var smap: SmapX
    var rmd: nat
    /** Everything published so far. */
    ghost const first: Smap
    ghost var txns: seq<Txn>

    ghost predicate Valid()
      reads `smap, `txns, smap, smap.Nodes()
    {
      smap.Valid() && Run(first, txns, self) && Last(first, txns) == smap.View()
    }

    constructor (self: NodeId, smap: SmapX)
      requires smap.Valid() && smap.View().WellFormed() && smap.View().IcOk()
      ensures Valid() && this.self == self && this.smap == smap && this.rmd == 0
    {
      this.self, this.smap, this.rmd := self, smap, 0;
      first, txns := smap.View(), [];
    }

    /** Every published map is well formed with a staffed IC. */
    lemma PublishedIsSound()
      requires Valid()
      ensures smap.View().WellFormed() && smap.View().IcOk() && smap.View().primary == first.primary
    {
      RunKeeps(first, txns, self, 0, |txns|);
    }

    /** Any two published maps: the later one has the same version only if it is the same. */
    lemma PublishedAreOrdered(i: nat, j: nat)
      requires Valid() && i <= j <= |txns|
      ensures Versioned(At(first, txns, i), At(first, txns, j))
    {
      RunKeeps(first, txns, self, i, j);
    }

    /** Clones a map and runs `pre` on the clone. */
    static method Prepare(m: SmapX, pre: Pre, self: NodeId, rebRunning: bool, ghost prev: Smap)
      returns (ok: bool, clone: SmapX)
      requires m.Valid() && m.View() == prev && SparesPrimary(pre, prev)
      ensures clone.Valid() && fresh(clone) && fresh(clone.Nodes())
      ensures ok == PreOk(pre, prev, self, rebRunning)
      ensures ok ==> Step(pre, prev, clone.View(), self, rebRunning)
    {
      clone := m.Clone();
      ok := clone.RunPre(pre, self, rebRunning);
    }

    /** Prepares the next map and decides about the rebalance; changes nothing. */
    method Next(pre: Pre, rebRunning: bool, args: RebArgs) returns (ok: bool, clone: SmapX, starts: bool)
      requires Valid() && SparesPrimary(pre, smap.View())
      ensures clone.Valid() && fresh(clone) && fresh(clone.Nodes())
      ensures ok == PreOk(pre, smap.View(), self, rebRunning)
      ensures ok ==> Step(pre, smap.View(), clone.View(), self, rebRunning)
      ensures ok ==> Run(first, txns + [Txn(pre, rebRunning, clone.View())], self)
      ensures ok ==> (starts <==> Starts(pre, args, smap.View(), clone.View()))
    {
      ok, clone := Prepare(smap, pre, self, rebRunning, smap.View());
      starts := false;
      if ok {
        RunExtends(first, txns, self, Txn(pre, rebRunning, clone.View()));
        starts := Decide(clone, pre, args, rebRunning);
      }
    }

    method Publish(clone: SmapX, starts: bool, ghost t: Txn)
      requires clone.Valid() && t.after == clone.View() && Run(first, txns + [t], self)
      modifies this
      ensures Valid() && smap == clone && txns == old(txns) + [t]
      ensures rmd == old(rmd) + if starts then 1 else 0
    {
      smap, txns, rmd := clone, txns + [t], rmd + if starts then 1 else 0;
    }

    /** One update transaction. Only the reference to the published map changes: whoever
        holds an earlier map sees it unchanged for ever, a failed transaction publishes
        nothing, and a successful one publishes new objects throughout. At most one new
        RMD version comes out of it, exactly when the active targets call for it. */
    method Modify(pre: Pre, rebRunning: bool, persists: bool, args: RebArgs) returns (res: Outcome, started: bool)
      requires Valid() && SparesPrimary(pre, smap.View())
      modifies this
      ensures Valid()
      ensures res == if !PreOk(pre, old(smap.View()), self, rebRunning) then PreFailed
                     else if !persists then PersistFailed else Ok
      ensures res != Ok ==> smap == old(smap) && txns == old(txns) && !started
      ensures res == Ok ==>
                && fresh(smap) && fresh(smap.Nodes()) && Step(pre, old(smap.View()), smap.View(), self, rebRunning)
                && txns == old(txns) + [Txn(pre, rebRunning, smap.View())]
                && (started <==> Starts(pre, args, old(smap.View()), smap.View()))
      ensures rmd == old(rmd) + if started then 1 else 0
    {
      var ok, clone, starts := Next(pre, rebRunning, args);
      if !ok { return PreFailed, false; }
      if !persists { return PersistFailed, false; }
      Publish(clone, starts, Txn(pre, rebRunning, clone.View()));
      return Ok, starts;
    }

    method Decide(clone: SmapX, pre: Pre, args: RebArgs, ghost rebRunning: bool) returns (started: bool)
      requires Valid() && Step(pre, smap.View(), clone.View(), self, rebRunning)
      ensures started <==> Starts(pre, args, smap.View(), clone.View())
    {
      PublishedIsSound();
      started := Post(pre, args, smap.View(), clone.View(), rebRunning);
    }

    /** The `post` callbacks. */
    method Post(pre: Pre, args: RebArgs, prev: Smap, cur: Smap, ghost rebRunning: bool) returns (started: bool)
      requires prev.WellFormed() && prev.IcOk()
      requires Step(pre, prev, cur, self, rebRunning)
      ensures started <==> Starts(pre, args, prev, cur)
    {
      match pre {
        case MarkMaint(_, _) =>
          if args.skip { return false; }
          MustRebalanceIffActiveChanged(pre, prev, cur, self, rebRunning);
          started := MustRebalance(args.env, prev, cur);
        case StopMaint(sids) =>
          StopMaintRebalancesIffActivated(sids, prev, cur);
          if args.skip || !args.env.enabled || args.env.stopping { return false; }
          started := StopMaintRebalances(prev, cur);
        case Joined(_, isProxy, _) =>
          if isProxy { return false; }
          if !args.can { return false; }
          MustRebalanceIffActiveChanged(pre, prev, cur, self, rebRunning);
          started := MustRebalance(args.env, prev, cur);
        case _ =>
          return false;
      }
    }
  }
}
