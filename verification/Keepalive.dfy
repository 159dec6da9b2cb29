/** Keepalive of the primary: which nodes it gives up on, and when (`ais/kalive.go`). The
    clock, the network and the control channel are scripts of events. */
module Keepalive {

  import opened Basics
  import opened ClusterMap

  /** What a retry loop waits for: a tick of the retry timer, or a control signal. `waiting`
      and `due` tell whether the node is still silent when the loop comes around and when
      the tick arrives; `healthy` is the answer to the health request. */
  datatype Event =
    | Tick(waiting: bool, due: bool, healthy: bool)
    | Signal(waiting: bool, isStop: bool)

  datatype Verdict = Alive | Dead | Stopped | Undecided

  predicate IsFailure(e: Event) { e.Tick? && e.waiting && e.due && !e.healthy }

  /** An event that ends nothing by itself. */
  predicate IsSilence(e: Event) { IsFailure(e) || (e.Signal? && e.waiting && !e.isStop) }

  function Failures(script: seq<Event>, k: nat): nat
    requires k <= |script|
  {
    if k == 0 then 0 else Failures(script, k - 1) + if IsFailure(script[k - 1]) then 1 else 0
  }

  function Tries(numRetries: int): nat { if numRetries >= 1 then numRetries else 1 }

  /** The first `k` events are silence and make fewer failures than it takes. */
  ghost predicate Waits(script: seq<Event>, numRetries: int, k: nat)
    requires k <= |script|
  {
    (forall i :: 0 <= i < k ==> IsSilence(script[i])) && Failures(script, k) < Tries(numRetries)
  }

  /** The event that decides, and how. */
  ghost predicate Decides(script: seq<Event>, numRetries: int, k: nat, v: Verdict) {
    && k < |script| && Waits(script, numRetries, k)
    && var e := script[k];
       match v
       case Alive => !e.waiting || (e.Tick? && (!e.due || e.healthy))
       case Dead => IsFailure(e) && Failures(script, k + 1) == Tries(numRetries)
       case Stopped => e.Signal? && e.waiting && e.isStop
       case Undecided => false
  }

  /** The retry loop. A node is given up on only after as many failed requests in a row as
      there are retries (one at the least), with not a word from the node in between and
      without a stop signal; otherwise the first answer, heartbeat or stop decides. */
  method Retry(script: seq<Event>, numRetries: int) returns (v: Verdict, ghost at: nat)
    ensures v == Undecided ==> Waits(script, numRetries, |script|)
    ensures v != Undecided ==> Decides(script, numRetries, at, v)
  {
    var i := 0;
    at := 0;
    for k := 0 to |script|
      invariant forall j :: 0 <= j < k ==> IsSilence(script[j])
      invariant i == Failures(script, k) && i < Tries(numRetries)
    {
      at := k;
      var e := script[k];
      if !e.waiting { return Alive, k; }
      match e
      case Tick(_, due, healthy) =>
        if !due { return Alive, k; }
        if healthy { return Alive, k; }
        i := i + 1;
        if i >= numRetries { return Dead, k; }
      case Signal(_, isStop) =>
        if isStop { return Stopped, k; }
    }
    v := Undecided;
  }

  /** The verdict does not depend on anything but the script. */
  lemma VerdictIsUnique(script: seq<Event>, numRetries: int, j: nat, v: Verdict, k: nat, w: Verdict)
    requires Decides(script, numRetries, j, v) && Decides(script, numRetries, k, w)
    ensures j == k && v == w
  {
    if j < k {
      NoMoreFailuresThanAllowed(script, numRetries, j, k, v);
    } else if k < j {
      NoMoreFailuresThanAllowed(script, numRetries, k, j, w);
    }
  }

  lemma NoMoreFailuresThanAllowed(script: seq<Event>, numRetries: int, j: nat, k: nat, v: Verdict)
    requires Decides(script, numRetries, j, v) && j < k <= |script|
    ensures !Waits(script, numRetries, k)
  {
    if Waits(script, numRetries, k) {
      assert IsSilence(script[j]);
      FailuresGrow(script, j + 1, k);
    }
  }

  lemma {:induction false} FailuresGrow(script: seq<Event>, j: nat, k: nat)
    requires j <= k <= |script|
    ensures Failures(script, j) <= Failures(script, k)
  {
    if j < k { FailuresGrow(script, j, k - 1); }
  }

  // ----- one round --------------------------------------------------------------------

  /** How one node behaves during a round: whether it has been silent, how it answers the
      fast and the first slow request, and what the retry loop then sees. */
  datatype Probe = Probe(due: bool, fast: bool, slow: bool, script: seq<Event>)

  ghost predicate Gets(p: Probe, numRetries: int, v: Verdict) {
    p.due && !p.fast && !p.slow && exists k :: Decides(p.script, numRetries, k, v)
  }

  /** Every probe comes to an end. */
  ghost predicate Conclusive(p: Probe, numRetries: int) {
    p.due && !p.fast && !p.slow ==> !Waits(p.script, numRetries, |p.script|)
  }

  /** Requests that went unanswered before the node was given up on. */
  ghost function Unanswered(p: Probe, k: nat): nat
    requires k < |p.script|
  {
    (if p.fast then 0 else 1) + (if p.slow then 0 else 1) + Failures(p.script, k + 1)
  }

  /** The fast request, the first slow one and the retries, and none fewer. */
  lemma GivenUpAfter(p: Probe, numRetries: int, k: nat)
    requires p.due && !p.fast && !p.slow && Decides(p.script, numRetries, k, Dead)
    ensures numRetries >= 1 ==> Unanswered(p, k) == 2 + numRetries
    ensures numRetries < 1 ==> Unanswered(p, k) == 3
    ensures forall i :: 0 <= i <= k && p.script[i].Tick? ==> !p.script[i].healthy && p.script[i].due
  {
  }

  /** The ping of `id` is stopped. */
  ghost predicate Halts(self: NodeId, v: Smap, probes: map<NodeId, Probe>, numRetries: int, id: NodeId) {
    id != self && v.IsActiveNode(id) && id in probes && Gets(probes[id], numRetries, Stopped)
  }

  class Palive {
    const self: NodeId
    /** The channel of the nodes to remove. */
    var toRemove: seq<NodeId>

    constructor (self: NodeId)
      ensures this.self == self && toRemove == []
    {
      this.self, toRemove := self, [];
    }

    method Ping(p: Probe, numRetries: int) returns (v: Verdict)
      requires Conclusive(p, numRetries)
      ensures v != Undecided
      ensures v != Alive ==> Gets(p, numRetries, v)
      ensures v == Alive ==> !Gets(p, numRetries, Dead) && !Gets(p, numRetries, Stopped)
    {
      if !p.due || p.fast || p.slow { return Alive; }
      ghost var at;
      v, at := Retry(p.script, numRetries);
      if v == Alive {
        forall k, w | Decides(p.script, numRetries, k, w) ensures w == Alive {
          VerdictIsUnique(p.script, numRetries, k, w, at, v);
        }
      }
    }

    /** The pings of a round, in any order and in parallel: a ping that starts after
        another one has been stopped may give up at once. */
    method PingAll(v: Smap, probes: map<NodeId, Probe>, numRetries: int) returns (stopped: bool)
      requires forall id :: v.HasNode(id) ==> id in probes && Conclusive(probes[id], numRetries)
      requires self !in toRemove
      modifies this
      ensures self !in toRemove
      ensures forall id :: id in old(toRemove) ==> id in toRemove
      ensures forall id :: id in toRemove ==> id in old(toRemove) || Failed(v, probes, numRetries, id, true)
      ensures !stopped ==> forall id :: id in toRemove ==>
              id in old(toRemove) || Failed(v, probes, numRetries, id, false)
      ensures !stopped ==> forall id :: Failed(v, probes, numRetries, id, true) ==> id in toRemove
      ensures stopped <==> exists id :: Halts(self, v, probes, numRetries, id)
    {
      var left := v.tmap.Keys + v.pmap.Keys;
      stopped := false;
      while left != {}
        invariant left <= v.tmap.Keys + v.pmap.Keys && self !in toRemove
        invariant forall id :: id in old(toRemove) ==> id in toRemove
        invariant forall id :: id in toRemove ==> id in old(toRemove) || Failed(v, probes, numRetries, id, true)
        invariant !stopped ==> forall id :: id in toRemove ==>
                  id in old(toRemove) || Failed(v, probes, numRetries, id, false)
        invariant !stopped ==> forall id :: Failed(v, probes, numRetries, id, true) ==> id in toRemove || id in left
        invariant stopped ==> exists id :: Halts(self, v, probes, numRetries, id)
        invariant !stopped ==> forall id :: Halts(self, v, probes, numRetries, id) ==> id in left
        decreases left
      {
        var sid :| sid in left;
        left := left - {sid};
        if sid == self || !v.IsActiveNode(sid) { continue; }
        var skip: bool := *;
        if stopped && skip { continue; }
        var verdict := Ping(probes[sid], numRetries);
        if verdict == Dead { DeadIsNotStopped(probes[sid], numRetries); }
        if verdict != Alive { toRemove := toRemove + [sid]; }
        if verdict == Stopped {
          assert Halts(self, v, probes, numRetries, sid);
          stopped := true;
        }
      }
    }

    /** The ping of `id` ended without an answer: it failed all attempts or, if `orStopped`,
        it was stopped. */
    ghost predicate Failed(v: Smap, probes: map<NodeId, Probe>, numRetries: int, id: NodeId, orStopped: bool) {
      && id != self && v.IsActiveNode(id) && id in probes
      && (Gets(probes[id], numRetries, Dead) || (orStopped && Gets(probes[id], numRetries, Stopped)))
    }

    lemma DeadIsNotStopped(p: Probe, numRetries: int)
      requires Gets(p, numRetries, Dead)
      ensures !Gets(p, numRetries, Stopped)
    {
      var j :| Decides(p.script, numRetries, j, Dead);
      forall k | Decides(p.script, numRetries, k, Stopped) ensures false {
        VerdictIsUnique(p.script, numRetries, j, Dead, k, Stopped);
      }
    }

    /** One round over the published map `v`; `later` is the map published by the time the
        round wants to remove nodes. Stopping the round removes nobody. Otherwise it
        removes exactly the silent nodes, together with what an earlier round left behind;
        and it leaves nodes behind only if this node is no longer the primary. */
    method UpdateSmap(v: Smap, probes: map<NodeId, Probe>, numRetries: int, later: Smap)
      returns (stopped: bool, removes: Option<seq<NodeId>>)
      requires forall id :: v.HasNode(id) ==> id in probes && Conclusive(probes[id], numRetries)
      requires self !in toRemove
      modifies this
      ensures self !in toRemove
      ensures stopped <==> exists id :: Halts(self, v, probes, numRetries, id)
      ensures stopped ==> removes == None && toRemove == []
      ensures removes.Some? ==>
                && later.primary == self && toRemove == []
                && forall id :: id in removes.value <==> id in old(toRemove) || Failed(v, probes, numRetries, id, false)
      ensures !stopped && removes == None ==>
                && (later.primary == self ==> toRemove == [])
                && forall id :: id in toRemove <==> id in old(toRemove) || Failed(v, probes, numRetries, id, false)
    {
      stopped := PingAll(v, probes, numRetries);
      removes := None;
      if stopped {
        toRemove := [];
        return;
      }
      if |toRemove| == 0 { return; }
      if later.primary != self { return; }
      removes := Some(toRemove);
      toRemove := [];
    }
  }

  datatype Round = Round(v: Smap, probes: map<NodeId, Probe>, later: Smap)

  ghost predicate Answered(r: Round, numRetries: int) {
    forall id :: r.v.HasNode(id) ==> id in r.probes && Conclusive(r.probes[id], numRetries)
  }

  /** Active, not this node, and silent through all attempts. */
  ghost predicate FailedIn(r: Round, self: NodeId, numRetries: int, id: NodeId) {
    id != self && r.v.IsActiveNode(id) && id in r.probes && Gets(r.probes[id], numRetries, Dead)
  }

  /** Some ping of the round is stopped. */
  ghost predicate StoppedIn(r: Round, self: NodeId, numRetries: int) {
    exists id :: Halts(self, r.v, r.probes, numRetries, id)
  }

  /** A round that runs to its end, and finds that another node has become the primary. */
  ghost predicate LeavesBehind(r: Round, self: NodeId, numRetries: int) {
    !StoppedIn(r, self, numRetries) && r.later.primary != self
  }

  /** Failed in an earlier round, and no round since then has been stopped or the primary's. */
  ghost predicate LeftOver(self: NodeId, rs: seq<Round>, numRetries: int, n: nat, id: NodeId)
    requires n <= |rs|
  {
    exists j :: 0 <= j < n && FailedIn(rs[j], self, numRetries, id) && AllLeaveBehind(self, rs, numRetries, j, n)
  }

  ghost predicate AllLeaveBehind(self: NodeId, rs: seq<Round>, numRetries: int, j: nat, n: nat)
    requires n <= |rs|
  {
    forall k :: j <= k < n ==> LeavesBehind(rs[k], self, numRetries)
  }

  lemma LeftOverAfter(self: NodeId, rs: seq<Round>, numRetries: int, n: nat, id: NodeId)
    requires n < |rs|
    ensures LeftOver(self, rs, numRetries, n + 1, id) <==>
            && LeavesBehind(rs[n], self, numRetries)
            && (FailedIn(rs[n], self, numRetries, id) || LeftOver(self, rs, numRetries, n, id))
  {
    if LeavesBehind(rs[n], self, numRetries) {
      if FailedIn(rs[n], self, numRetries, id) {
        assert AllLeaveBehind(self, rs, numRetries, n, n + 1);
      }
      if LeftOver(self, rs, numRetries, n, id) {
        var j :| 0 <= j < n && FailedIn(rs[j], self, numRetries, id) && AllLeaveBehind(self, rs, numRetries, j, n);
        assert AllLeaveBehind(self, rs, numRetries, j, n + 1);
      }
    }
    if LeftOver(self, rs, numRetries, n + 1, id) {
      var j :| 0 <= j < n + 1 && FailedIn(rs[j], self, numRetries, id)
               && AllLeaveBehind(self, rs, numRetries, j, n + 1);
      assert AllLeaveBehind(self, rs, numRetries, j, n);
    }
  }

  lemma LeftOversAfter(self: NodeId, rs: seq<Round>, numRetries: int, n: nat)
    requires n < |rs|
    ensures var next := n + 1;
            forall id :: LeftOver(self, rs, numRetries, next, id) <==>
                         && LeavesBehind(rs[n], self, numRetries)
                         && (FailedIn(rs[n], self, numRetries, id) || LeftOver(self, rs, numRetries, n, id))
  {
    var next := n + 1;
    forall id
      ensures LeftOver(self, rs, numRetries, next, id) <==>
              && LeavesBehind(rs[n], self, numRetries)
              && (FailedIn(rs[n], self, numRetries, id) || LeftOver(self, rs, numRetries, n, id))
    {
      LeftOverAfter(self, rs, numRetries, n, id);
    }
  }

  /** What a round removes: nothing if it is stopped or another node has become the primary,
      and otherwise all that have failed in it or are left over. */
  ghost predicate RoundRemoves(self: NodeId, rs: seq<Round>, numRetries: int, i: nat, removal: Option<seq<NodeId>>)
    requires i < |rs|
  {
    var acts := !StoppedIn(rs[i], self, numRetries) && rs[i].later.primary == self;
    && (removal.Some? ==> acts)
    && forall id :: removal.Some? && id in removal.value <==>
                    acts && (FailedIn(rs[i], self, numRetries, id) || LeftOver(self, rs, numRetries, i, id))
  }

  ghost predicate StartsAfresh(self: NodeId, rs: seq<Round>, numRetries: int, i: nat)
    requires i <= |rs|
  {
    i > 0 ==> !LeavesBehind(rs[i - 1], self, numRetries)
  }

  /** Any number of rounds: exactly which nodes each of them removes. They are the ones that
      failed in that very round if nothing is left over, as after a round that was stopped
      or the primary's. */
  method Rounds(self: NodeId, rs: seq<Round>, numRetries: int) returns (removals: seq<Option<seq<NodeId>>>)
    requires forall i :: 0 <= i < |rs| ==> Answered(rs[i], numRetries)
    ensures |removals| == |rs|
    ensures forall i :: 0 <= i < |rs| ==> RoundRemoves(self, rs, numRetries, i, removals[i])
    ensures forall i :: 0 <= i < |rs| && removals[i].Some? && StartsAfresh(self, rs, numRetries, i) ==>
              forall id :: id in removals[i].value <==> FailedIn(rs[i], self, numRetries, id)
  {
    var pkr := new Palive(self);
    removals := [];
    for i := 0 to |rs|
      invariant fresh(pkr) && |removals| == i && self !in pkr.toRemove
      invariant forall id :: id in pkr.toRemove <==> LeftOver(self, rs, numRetries, i, id)
      invariant forall k :: 0 <= k < i ==> RoundRemoves(self, rs, numRetries, k, removals[k])
    {
      assert Answered(rs[i], numRetries);
      var stopped, removes := pkr.UpdateSmap(rs[i].v, rs[i].probes, numRetries, rs[i].later);
      assert stopped <==> StoppedIn(rs[i], self, numRetries);
      removals := removals + [removes];
      LeftOversAfter(self, rs, numRetries, i);
    }
    forall i | 0 <= i < |rs| && StartsAfresh(self, rs, numRetries, i)
      ensures forall id :: !LeftOver(self, rs, numRetries, i, id)
    {
      if i > 0 { LeftOversAfter(self, rs, numRetries, i - 1); }
    }
  }

  /** After a round that lost the primary role, a healthy node may be removed by the next
      round: `a` fails while `p` is no longer the primary, answers again, and is removed
      once `p` is the primary again. */
  method LeftoverRemovesHealthyNode() returns (removes: Option<seq<NodeId>>, probe: Probe)
    ensures removes.Some? && "a" in removes.value && !Gets(probe, 1, Dead)
  {
    var v := Smap(map["a" := {}], map["p" := {}, "q" := {}], "p", 1);
    var answers := Probe(true, true, false, []);
    var dead := Probe(true, false, false, [Tick(true, true, false)]);
    probe := answers;
    var pkr := new Palive("p");
    var first := map["a" := dead, "p" := answers, "q" := answers];
    assert Failures(dead.script, 1) == Failures(dead.script, 0) + 1;
    assert Decides(dead.script, 1, 0, Dead);
    var stopped, none := pkr.UpdateSmap(v, first, 1, Smap(v.tmap, v.pmap, "q", 2));
    assert pkr.Failed(v, first, 1, "a", false);
    assert !stopped && none == None && pkr.toRemove != [] && "a" in pkr.toRemove;
    var second := map["a" := answers, "p" := answers, "q" := answers];
    stopped, removes := pkr.UpdateSmap(v, second, 1, v);
  }
}
