/** The sending side of metasync: the primary broadcasts new versions, remembers per
    node what the node has acknowledged, and retries the nodes that are behind
    (`ais/metasync.go`). Deliveries can be lost, repeated, reordered or answered with a
    response that gets lost; while the primary waits, its own metadata and the cluster
    map may change. */
module MetasyncTx {
  import opened MetasyncRx

  datatype Member = Member(active: bool)

  /** A piece of metadata queued for synchronization. */
  datatype Pair = Pair(tag: Tag, revs: Revs)

  type Acked = map<Tag, nat>
  type NodesRevs = map<NodeId, Acked>

  const RETRY_SYNC_REFUSED := 4

  // ----- what is recorded and what is pending ----------------------------------

  /** The versions recorded after a node acknowledged `pairs`: those of the pairs, even
      when a newer version was sent instead. */
  function Recorded(ndr: Acked, pairs: seq<Pair>): Acked {
    if pairs == [] then ndr
    else
      var last := pairs[|pairs| - 1];
      Recorded(ndr, pairs[..|pairs| - 1])[last.tag := last.revs.version]
  }

  function AckedBy(nodesRevs: NodesRevs, id: NodeId): Acked {
    if id in nodesRevs then nodesRevs[id] else map[]
  }

  function AfterSyncDone(nodesRevs: NodesRevs, active: bool, id: NodeId, pairs: seq<Pair>): NodesRevs {
    if !active then nodesRevs - {id} else nodesRevs[id := Recorded(AckedBy(nodesRevs, id), pairs)]
  }

  ghost predicate InSync(nodesRevs: NodesRevs, lastSynced: map<Tag, Revs>, id: NodeId) {
    id in nodesRevs && forall tag :: tag in lastSynced ==>
      tag in nodesRevs[id] && nodesRevs[id][tag] >= lastSynced[tag].version
  }

  /** The newer of the queued and the current version. */
  function Jit(owner: Held, pair: Pair): Revs {
    if pair.tag in owner && owner[pair.tag].version > pair.revs.version then owner[pair.tag] else pair.revs
  }

  /** The payload carries, for every queued kind, at least the version to be recorded. */
  ghost predicate Carries(payload: map<Tag, Revs>, pairs: seq<Pair>) {
    && payload.Keys == Recorded(map[], pairs).Keys
    && forall tag :: tag in payload ==> payload[tag].version >= Recorded(map[], pairs)[tag]
  }

  /** The last that is queued of a kind. */
  ghost predicate IsLast(pairs: seq<Pair>, i: int, tag: Tag) {
    0 <= i < |pairs| && pairs[i].tag == tag && forall j :: i < j < |pairs| ==> pairs[j].tag != tag
  }

  /** The current version if that is newer than the queued one, and otherwise the queued one. */
  ghost predicate IsNewer(owner: Held, queued: Revs, tag: Tag, revs: Revs) {
    && (revs == queued || (tag in owner && revs == owner[tag] && revs.version > queued.version))
    && revs.version >= Version(owner, tag)
  }

  /** What is sent: of every kind that is queued, and no other, the newer of the current
      version and the one queued last. */
  ghost predicate SentNewest(owner: Held, pairs: seq<Pair>, sent: map<Tag, Revs>) {
    && (forall i :: 0 <= i < |pairs| ==> pairs[i].tag in sent)
    && (forall tag :: tag in sent ==> SentOf(owner, pairs, sent, tag))
  }

  ghost predicate SentOf(owner: Held, pairs: seq<Pair>, sent: map<Tag, Revs>, tag: Tag)
    requires tag in sent
  {
    exists i :: IsLast(pairs, i, tag) && IsNewer(owner, pairs[i].revs, tag, sent[tag])
  }

  lemma LastAfter(pairs: seq<Pair>, p: Pair, i: int, tag: Tag)
    ensures IsLast(pairs + [p], i, tag) <==> if p.tag == tag then i == |pairs| else IsLast(pairs, i, tag)
  {
    assert (pairs + [p])[|pairs|] == p && forall j :: 0 <= j < |pairs| ==> (pairs + [p])[j] == pairs[j];
  }

  lemma PayloadStep(owner: Held, pairs: seq<Pair>, p: Pair, payload: map<Tag, Revs>)
    requires SentNewest(owner, pairs, payload)
    ensures SentNewest(owner, pairs + [p], payload[p.tag := Jit(owner, p)])
  {
    var more, next := pairs + [p], payload[p.tag := Jit(owner, p)];
    forall tag | tag in next ensures SentOf(owner, more, next, tag) {
      if tag == p.tag {
        LastAfter(pairs, p, |pairs|, tag);
      } else {
        assert SentOf(owner, pairs, payload, tag);
        var k :| IsLast(pairs, k, tag) && IsNewer(owner, pairs[k].revs, tag, payload[tag]);
        LastAfter(pairs, p, k, tag);
      }
    }
  }

  lemma CarriesStep(owner: Held, pairs: seq<Pair>, p: Pair, payload: map<Tag, Revs>)
    requires Carries(payload, pairs)
    ensures Carries(payload[p.tag := Jit(owner, p)], pairs + [p])
  {
    assert (pairs + [p])[..|pairs|] == pairs;
  }

  /** What is recorded: of every kind that is queued, the version queued last; of the others,
      what was recorded before. */
  lemma {:induction false} RecordedIs(ndr: Acked, pairs: seq<Pair>, tag: Tag)
    ensures forall i :: IsLast(pairs, i, tag) ==>
              tag in Recorded(ndr, pairs) && Recorded(ndr, pairs)[tag] == pairs[i].revs.version
    ensures (forall i :: 0 <= i < |pairs| ==> pairs[i].tag != tag) ==>
              (tag in Recorded(ndr, pairs) <==> tag in ndr) && (tag in ndr ==> Recorded(ndr, pairs)[tag] == ndr[tag])
  {
    if pairs != [] {
      var rest, p := pairs[..|pairs| - 1], pairs[|pairs| - 1];
      RecordedIs(ndr, rest, tag);
      assert pairs == rest + [p];
      forall i ensures IsLast(pairs, i, tag) <==> if p.tag == tag then i == |rest| else IsLast(rest, i, tag) {
        LastAfter(rest, p, i, tag);
      }
    }
  }

  lemma {:induction false} RecordedIsUpdate(ndr: Acked, pairs: seq<Pair>)
    ensures Recorded(ndr, pairs) == ndr + Recorded(map[], pairs)
  {
    if pairs != [] {
      RecordedIsUpdate(ndr, pairs[..|pairs| - 1]);
    }
  }

  lemma RecordedStep(ndr: Acked, pairs: seq<Pair>, i: nat)
    requires i < |pairs|
    ensures Recorded(ndr, pairs[..i + 1]) == Recorded(ndr, pairs[..i])[pairs[i].tag := pairs[i].revs.version]
  {
    assert pairs[..i + 1][..i] == pairs[..i] && pairs[..i + 1][i] == pairs[i];
  }

  /** Nothing newer was sent than what was queued. */
  ghost predicate SentAsQueued(payload: map<Tag, Revs>, pairs: seq<Pair>) {
    forall tag :: tag in payload ==>
      tag in Recorded(map[], pairs) && payload[tag].version == Recorded(map[], pairs)[tag]
  }

  /** The record of a node has the queued versions. */
  ghost predicate RecordsPairs(nodesRevs: NodesRevs, id: NodeId, pairs: seq<Pair>) {
    && id in nodesRevs
    && forall tag :: tag in Recorded(map[], pairs) ==>
       tag in nodesRevs[id] && nodesRevs[id][tag] == Recorded(map[], pairs)[tag]
  }

  lemma BehindIffSkipped(nodesRevs: NodesRevs, pairs: seq<Pair>, payload: map<Tag, Revs>, id: NodeId)
    requires RecordsPairs(nodesRevs, id, pairs) && Carries(payload, pairs)
    ensures InSync(nodesRevs, payload, id) <==> SentAsQueued(payload, pairs)
  {
  }

  /** An acknowledged synchronization of any number of pairs leaves a node behind, and so
      pending, exactly when the primary sent something newer than what was queued: the
      queued versions are what gets recorded. */
  lemma AckedIsBehindIffSkipped(nodesRevs: NodesRevs, pairs: seq<Pair>, payload: map<Tag, Revs>, id: NodeId)
    requires Carries(payload, pairs)
    ensures InSync(AfterSyncDone(nodesRevs, true, id, pairs), payload, id) <==> SentAsQueued(payload, pairs)
  {
    RecordedIsUpdate(AckedBy(nodesRevs, id), pairs);
  }

  /** A retry that every node acknowledges leaves nobody behind. */
  lemma RetryDrains(nodesRevs: NodesRevs, lastSynced: map<Tag, Revs>, id: NodeId, pairs: seq<Pair>)
    requires forall tag :: tag in lastSynced ==>
             tag in Recorded(map[], pairs) && Recorded(map[], pairs)[tag] == lastSynced[tag].version
    ensures InSync(AfterSyncDone(nodesRevs, true, id, pairs), lastSynced, id)
  {
    RecordedIsUpdate(AckedBy(nodesRevs, id), pairs);
  }

  // ----- the cluster -----------------------------------------------------------

  function HeldOf(held: map<NodeId, Held>, id: NodeId): Held {
    if id in held then held[id] else map[]
  }

  /** No node moved back to an older version. */
  ghost predicate Grew(before: map<NodeId, Held>, after: map<NodeId, Held>) {
    forall id :: AtLeast(HeldOf(after, id), HeldOf(before, id))
  }

  ghost predicate HoldsAll(held: Held, revs: map<Tag, Revs>) {
    forall tag :: tag in revs ==> Version(held, tag) >= revs[tag].version
  }

  ghost predicate RecordedIsHeld(nodesRevs: NodesRevs, held: map<NodeId, Held>, targets: set<NodeId>) {
    forall id, tag :: id in nodesRevs && id !in targets && tag in nodesRevs[id] ==>
      nodesRevs[id][tag] <= Version(HeldOf(held, id), tag)
  }

  lemma GrewTransitive(a: map<NodeId, Held>, b: map<NodeId, Held>, c: map<NodeId, Held>)
    requires Grew(a, b) && Grew(b, c)
    ensures Grew(a, c)
  {
  }

  lemma GrewKeepsRecorded(nodesRevs: NodesRevs, a: map<NodeId, Held>, b: map<NodeId, Held>, targets: set<NodeId>)
    requires RecordedIsHeld(nodesRevs, a, targets) && Grew(a, b)
    ensures RecordedIsHeld(nodesRevs, b, targets)
  {
  }

  lemma GrewKeepsHolding(a: map<NodeId, Held>, b: map<NodeId, Held>, ids: set<NodeId>, revs: map<Tag, Revs>)
    requires Grew(a, b) && forall id :: id in ids ==> HoldsAll(HeldOf(a, id), revs)
    ensures forall id :: id in ids ==> HoldsAll(HeldOf(b, id), revs)
  {
  }

  /** Recording the acknowledged pairs of a node that holds the payload is sound. */
  lemma RecordKeepsHeld(nodesRevs: NodesRevs, held: map<NodeId, Held>, targets: set<NodeId>,
                        active: bool, id: NodeId, pairs: seq<Pair>, payload: map<Tag, Revs>)
    requires RecordedIsHeld(nodesRevs, held, targets) && Carries(payload, pairs)
    requires id !in targets ==> HoldsAll(HeldOf(held, id), payload)
    ensures RecordedIsHeld(AfterSyncDone(nodesRevs, active, id, pairs), held, targets)
  {
    RecordedIsUpdate(AckedBy(nodesRevs, id), pairs);
  }

  /** What the primary's empty pending set promises. */
  lemma NothingPendingMeansHeld(nodesRevs: NodesRevs, held: map<NodeId, Held>, targets: set<NodeId>,
                                lastSynced: map<Tag, Revs>, id: NodeId)
    requires RecordedIsHeld(nodesRevs, held, targets) && InSync(nodesRevs, lastSynced, id) && id !in targets
    ensures HoldsAll(HeldOf(held, id), lastSynced)
  {
  }

  lemma AllBehindIffSkipped(nodesRevs: NodesRevs, ids: set<NodeId>, pairs: seq<Pair>, payload: map<Tag, Revs>)
    requires AllRecordPairs(nodesRevs, ids, pairs) && Carries(payload, pairs)
    ensures forall id :: id in ids && id in nodesRevs ==>
            (InSync(nodesRevs, payload, id) <==> SentAsQueued(payload, pairs))
  {
    forall id | id in ids && id in nodesRevs ensures InSync(nodesRevs, payload, id) <==> SentAsQueued(payload, pairs) {
      BehindIffSkipped(nodesRevs, pairs, payload, id);
    }
  }

  ghost predicate SameRecord(a: NodesRevs, b: NodesRevs, id: NodeId) {
    (id in a <==> id in b) && AckedBy(a, id) == AckedBy(b, id)
  }

  /** What is recorded of the node: `ndr`, or nothing if it is not active. */
  ghost predicate IsRecord(nodesRevs: NodesRevs, id: NodeId, active: bool, ndr: Acked) {
    if active then id in nodesRevs && nodesRevs[id] == ndr else id !in nodesRevs
  }

  /** Those of the nodes that are on record are there with the queued versions. */
  ghost predicate AllRecordPairs(nodesRevs: NodesRevs, ids: set<NodeId>, pairs: seq<Pair>) {
    forall id :: id in ids && id in nodesRevs ==> RecordsPairs(nodesRevs, id, pairs)
  }

  lemma MoreRecordPairs(before: NodesRevs, after: NodesRevs, ids: set<NodeId>, acked: set<NodeId>,
                        active: set<NodeId>, pairs: seq<Pair>)
    requires AllRecordPairs(before, ids, pairs)
    requires forall id :: id !in acked ==> SameRecord(before, after, id)
    requires forall id :: id in acked ==> IsRecord(after, id, id in active, Recorded(AckedBy(before, id), pairs))
    ensures AllRecordPairs(after, ids + acked, pairs)
  {
    forall id | id in ids + acked && id in after ensures RecordsPairs(after, id, pairs) {
      if id in acked {
        RecordedIsUpdate(AckedBy(before, id), pairs);
      } else {
        assert SameRecord(before, after, id);
      }
    }
  }

  lemma CountFailed(active: set<NodeId>, acked: set<NodeId>, refused: set<NodeId>, left: set<NodeId>)
    requires left <= refused <= active - acked
    ensures |active - (acked + (refused - left))| == |active - acked - refused| + |left|
    ensures |active - acked - refused| + |left| == 0 ==> active <= acked + (refused - left)
  {
    assert active - (acked + (refused - left)) == (active - acked - refused) + left;
    assert (active - acked - refused) !! left;
  }

  datatype Step = Sync(pairs: seq<Pair>) | Retry(conflict: bool) | Reset

  class Metasyncer {
    const self: NodeId
    const targets: set<NodeId>          // IDs of storage targets, whose handlers are not modeled
    var isPrimary: bool
    var members: map<NodeId, Member>    // the primary's current cluster map
    var owner: Held                     // the primary's current metadata
    var nodesRevs: NodesRevs            // acknowledged versions
    var lastSynced: map<Tag, Revs>
    var held: map<NodeId, Held>         // what every other proxy actually holds
    ghost var asked: set<NodeId>        // who has been sent a request, since the last synchronization
    ghost var oks: set<NodeId>          // or retry began, and who has answered positively

    constructor (self: NodeId, targets: set<NodeId>, owner: Held, members: map<NodeId, Member>, held: map<NodeId, Held>)
      ensures Sound() && nodesRevs == map[] && lastSynced == map[]
      ensures this.self == self && this.targets == targets && this.held == held && oks == asked == {}
      ensures isPrimary && this.owner == owner && this.members == members
    {
      this.self, this.targets, this.isPrimary := self, targets, true;
      this.members, this.owner, this.held := members, owner, held;
      nodesRevs, lastSynced, oks, asked := map[], map[], {}, {};
    }

    /** Nothing is recorded that the node does not hold. */
    ghost predicate Sound()
      reads this
    {
      RecordedIsHeld(nodesRevs, held, targets)
    }

    predicate IsActive(id: NodeId)
      reads this
    {
      id in members && members[id].active
    }

    /** The other active members that are not in sync. */
    ghost function Behind(): set<NodeId>
      reads this
    {
      set id | id in members && id != self && members[id].active && !InSync(nodesRevs, lastSynced, id)
    }

    /** One request: it can be lost, or handled and its response lost. Targets answer anything.
        Other requests than the ones at hand, `isOwn`, are answered to nobody. */
    method Deliver(id: NodeId, payload: Payload, ghost isOwn: bool) returns (ok: bool)
      modifies this`held, this`oks, this`asked
      ensures Grew(old(held), held) && oks == old(oks) + (if ok && isOwn then {id} else {})
      ensures asked == old(asked) + if isOwn then {id} else {}
      ensures ok && id !in targets ==> HoldsAll(HeldOf(held, id), payload.revs)
    {
      ok := false;
      if id in targets {
        ok := *;
      } else if * {
        var stored: set<Tag> := *;
        var out := Receive(id, HeldOf(held, id), payload, stored);
        ReceiveHolds(id, HeldOf(held, id), payload, stored);
        held := held[id := out.held];
        ok := *;
        ok := ok && out.ok;
      }
      oks, asked := oks + (if ok && isOwn then {id} else {}), asked + if isOwn then {id} else {};
    }

    /** Everything that happens elsewhere meanwhile: old messages arrive late or again,
        other code publishes newer metadata, the cluster map changes. */
    method Interference()
      modifies this`held, this`owner, this`members, this`isPrimary, this`oks, this`asked
      ensures Grew(old(held), held) && oks == old(oks) && asked == old(asked)
    {
      var n: nat :| n >= 0;
      for i := 0 to n
        invariant Grew(old(held), held) && oks == old(oks) && asked == old(asked)
      {
        var id: NodeId := *;
        var payload: Payload := *;
        ghost var before := held;
        var ok := Deliver(id, payload, false);
        GrewTransitive(old(held), before, held);
      }
      owner, members, isPrimary := *, *, *;
    }

    method Bcast(to: set<NodeId>, payload: Payload) returns (acked: set<NodeId>)
      modifies this`held, this`oks, this`asked
      ensures Grew(old(held), held) && acked <= to && oks == old(oks) + acked
      ensures asked == old(asked) + to
      ensures forall id :: id in acked - targets ==> HoldsAll(HeldOf(held, id), payload.revs)
    {
      acked := {};
      var todo := to;
      while todo != {}
        invariant todo <= to && acked <= to && Grew(old(held), held)
        invariant oks == old(oks) + acked && asked == old(asked) + (to - todo)
        invariant forall id :: id in acked - targets ==> HoldsAll(HeldOf(held, id), payload.revs)
        decreases todo
      {
        var id :| id in todo;
        ghost var before := held;
        var ok := Deliver(id, payload, true);
        GrewTransitive(old(held), before, held);
        GrewKeepsHolding(before, held, acked - targets, payload.revs);
        if ok { acked := acked + {id}; }
        todo := todo - {id};
      }
    }

    method SyncDone(id: NodeId, pairs: seq<Pair>)
      modifies this`nodesRevs
      ensures nodesRevs == AfterSyncDone(old(nodesRevs), IsActive(id), id, pairs)
    {
      if !IsActive(id) {
        nodesRevs := nodesRevs - {id};
        return;
      }
      var ndr := AckedBy(nodesRevs, id);
      for i := 0 to |pairs|
        invariant nodesRevs == old(nodesRevs)
        invariant ndr == Recorded(AckedBy(old(nodesRevs), id), pairs[..i])
      {
        RecordedStep(AckedBy(old(nodesRevs), id), pairs, i);
        ndr := ndr[pairs[i].tag := pairs[i].revs.version];
      }
      assert pairs[..|pairs|] == pairs;
      nodesRevs := nodesRevs[id := ndr];
    }

    /** Builds the payload just in time. */
    method BuildPayload(pairs: seq<Pair>) returns (payload: map<Tag, Revs>)
      ensures Carries(payload, pairs) && SentNewest(owner, pairs, payload)
    {
      payload := map[];
      for i := 0 to |pairs|
        invariant Carries(payload, pairs[..i]) && SentNewest(owner, pairs[..i], payload)
      {
        PayloadStep(owner, pairs[..i], pairs[i], payload);
        CarriesStep(owner, pairs[..i], pairs[i], payload);
        assert pairs[..i + 1] == pairs[..i] + [pairs[i]];
        payload := payload[pairs[i].tag := Jit(owner, pairs[i])];
      }
      assert pairs[..|pairs|] == pairs;
    }

    /** Forgets the nodes that are not active any more. */
    method Housekeep()
      requires Sound()
      modifies this`nodesRevs
      ensures Sound()
      ensures forall id :: id in nodesRevs <==> id in old(nodesRevs) && IsActive(id)
      ensures forall id :: id in nodesRevs ==> nodesRevs[id] == old(nodesRevs)[id]
    {
      nodesRevs := map id | id in nodesRevs && IsActive(id) :: nodesRevs[id];
    }

    /** Records the acknowledgements of a broadcast. */
    method RecordAll(acked: set<NodeId>, pairs: seq<Pair>, payload: map<Tag, Revs>)
      requires Sound() && Carries(payload, pairs)
      requires forall id :: id in acked - targets ==> HoldsAll(HeldOf(held, id), payload)
      modifies this`nodesRevs
      ensures Sound()
      ensures forall id :: id !in acked ==> SameRecord(old(nodesRevs), nodesRevs, id)
      ensures forall id :: id in acked ==>
              IsRecord(nodesRevs, id, IsActive(id), Recorded(AckedBy(old(nodesRevs), id), pairs))
    {
      var todo := acked;
      while todo != {}
        invariant Sound() && todo <= acked
        invariant forall id :: id !in acked - todo ==> SameRecord(old(nodesRevs), nodesRevs, id)
        invariant forall id :: id in acked - todo ==>
                    IsRecord(nodesRevs, id, IsActive(id), Recorded(AckedBy(old(nodesRevs), id), pairs))
        decreases todo
      {
        var id :| id in todo;
        RecordKeepsHeld(nodesRevs, held, targets, IsActive(id), id, pairs, payload);
        ghost var prev := nodesRevs;
        assert SameRecord(old(nodesRevs), prev, id);
        SyncDone(id, pairs);
        assert forall other :: other != id ==> SameRecord(prev, nodesRevs, other);
        assert IsRecord(nodesRevs, id, IsActive(id), Recorded(AckedBy(old(nodesRevs), id), pairs));
        todo := todo - {id};
      }
    }

    /** The main method: returns the number of nodes that could not be synchronized, which are
        the active ones that have not answered positively to any attempt. Unless the primary
        role is found to be `lost` meanwhile, zero means that every other active proxy of the
        cluster map in use now holds at least what was sent, and is on record as in sync with
        it, if at all, exactly if nothing newer was sent than queued; what was sent is now
        last synced, and no record is left of a node that is not active. */
    method Do(pairs: seq<Pair>) returns (failedCnt: nat, lost: bool, ghost sent: map<Tag, Revs>)
      requires Sound()
      modifies this
      ensures Sound() && Grew(old(held), held)
      ensures Carries(sent, pairs) && SentNewest(old(owner), pairs, sent) && lastSynced == old(lastSynced) + sent
      ensures lost ==> !isPrimary && failedCnt == 0
      ensures !lost ==> forall id :: id in nodesRevs ==> IsActive(id)
      ensures asked == old(members).Keys - {self} && oks <= asked
      ensures !lost ==>
                failedCnt == |(set id | id in old(members) && id != self && old(members)[id].active) - oks|
      ensures !lost && failedCnt == 0 ==>
                forall id :: id in old(members) && old(members)[id].active && id != self ==>
                  && (id !in targets ==> HoldsAll(HeldOf(held, id), sent))
                  && (id in nodesRevs ==> (InSync(nodesRevs, sent, id) <==> SentAsQueued(sent, pairs)))
    {
      oks, asked := {}, {};
      var payload := BuildPayload(pairs);
      sent := payload;
      lastSynced := lastSynced + payload;
      var to := members.Keys - {self};
      var active := set id | id in members && id != self && members[id].active;
      assert AllRecordPairs(nodesRevs, {}, pairs);
      var acked := SendAndRecord(to, pairs, payload);
      assert {} + acked == acked;

      label sending:
      failedCnt, lost := Settle(active, acked, pairs, payload);
      GrewTransitive(old(held), old@sending(held), held);
    }

    /** Retries and counts the active nodes that have not acknowledged. Those under maintenance
        are ignored, connection-refused and joining targets are retried, and the others are
        counted as failures. */
    method Settle(active: set<NodeId>, acked: set<NodeId>, pairs: seq<Pair>, payload: map<Tag, Revs>)
      returns (failedCnt: nat, lost: bool)
      requires Sound() && Carries(payload, pairs) && AllRecordPairs(nodesRevs, acked, pairs)
      requires oks == acked && active + acked <= asked
      requires forall id :: id in acked - targets ==> HoldsAll(HeldOf(held, id), payload)
      modifies this`held, this`nodesRevs, this`owner, this`members, this`isPrimary, this`oks, this`asked
      ensures Sound() && Grew(old(held), held) && asked == old(asked) && old(oks) <= oks <= asked
      ensures lost ==> !isPrimary && failedCnt == 0
      ensures !lost ==> failedCnt == |active - oks| && forall id :: id in nodesRevs ==> IsActive(id)
      ensures !lost && failedCnt == 0 ==>
                forall id :: id in active ==>
                  && (id !in targets ==> HoldsAll(HeldOf(held, id), payload))
                  && (id in nodesRevs ==> (InSync(nodesRevs, payload, id) <==> SentAsQueued(payload, pairs)))
    {
      var refused: set<NodeId> := *;
      refused := refused * (active - acked);
      var failed := active - acked - refused;
      var left;
      ghost var rounds, detected;
      left, lost, rounds, detected := RetryRefused(refused, acked, pairs, payload);
      if lost { return 0, true; }
      Housekeep();
      failedCnt := |failed| + |left|;
      CountFailed(active, acked, refused, left);
      if failedCnt == 0 {
        AllBehindIffSkipped(nodesRevs, active, pairs, payload);
      }
    }

    /** Retries the nodes that refused the connection; `acked` have acknowledged before. It does
        not give up on a node before the fourth round, unless the role is lost or another
        primary is detected. */
    method RetryRefused(refused: set<NodeId>, ghost acked: set<NodeId>, pairs: seq<Pair>, payload: map<Tag, Revs>)
      returns (left: set<NodeId>, lost: bool, ghost rounds: nat, ghost detected: bool)
      requires Sound() && Carries(payload, pairs) && AllRecordPairs(nodesRevs, acked, pairs) && refused <= asked
      requires forall id :: id in acked - targets ==> HoldsAll(HeldOf(held, id), payload)
      modifies this`held, this`nodesRevs, this`owner, this`members, this`isPrimary, this`oks, this`asked
      ensures Sound() && Grew(old(held), held) && left <= refused && oks == old(oks) + (refused - left)
      ensures asked == old(asked) && (lost ==> !isPrimary)
      ensures rounds <= 4 && (left != {} ==> rounds == 4 || lost || detected)
      ensures rounds > 0 && !lost ==> isPrimary
      ensures forall id :: id in acked + (refused - left) - targets ==> HoldsAll(HeldOf(held, id), payload)
      ensures AllRecordPairs(nodesRevs, acked + (refused - left), pairs)
    {
      left, lost, rounds, detected := refused, false, 0, false;
      var retries := RETRY_SYNC_REFUSED;
      while retries > 0 && left != {}
        invariant Sound() && Grew(old(held), held) && left <= refused && oks == old(oks) + (refused - left)
        invariant asked == old(asked) && !lost && 0 <= retries && rounds == 4 - retries
        invariant rounds > 0 ==> isPrimary
        invariant forall id :: id in acked + (refused - left) - targets ==> HoldsAll(HeldOf(held, id), payload)
        invariant AllRecordPairs(nodesRevs, acked + (refused - left), pairs)
      {
        label retry:
        Interference();
        GrewTransitive(old(held), old@retry(held), held);
        GrewKeepsRecorded(nodesRevs, old@retry(held), held, targets);
        GrewKeepsHolding(old@retry(held), held, acked + (refused - left) - targets, payload);
        if !isPrimary {
          lost := true;
          return;
        }
        label again:
        var more := SendAndRecord(left, pairs, payload);
        GrewTransitive(old(held), old@again(held), held);
        GrewKeepsHolding(old@again(held), held, acked + (refused - left) - targets, payload);
        assert acked + (refused - left) + more == acked + (refused - (left - more));
        left, rounds := left - more, rounds + 1;
        if * {
          detected := true;       // another primary may have been detected
          return;
        }
        retries := retries - 1;
      }
    }

    /** One round of requests and the record of its acknowledgements. */
    method SendAndRecord(to: set<NodeId>, pairs: seq<Pair>, payload: map<Tag, Revs>) returns (acked: set<NodeId>)
      requires Sound() && Carries(payload, pairs)
      modifies this`held, this`nodesRevs, this`oks, this`asked
      ensures Sound() && Grew(old(held), held) && acked <= to && oks == old(oks) + acked
      ensures asked == old(asked) + to
      ensures forall id :: id in acked - targets ==> HoldsAll(HeldOf(held, id), payload)
      ensures forall ids :: AllRecordPairs(old(nodesRevs), ids, pairs) ==> AllRecordPairs(nodesRevs, ids + acked, pairs)
    {
      acked := Bcast(to, Payload(payload, false));
      GrewKeepsRecorded(nodesRevs, old(held), held, targets);
      RecordAll(acked, pairs, payload);
      ghost var active := set id | id in acked && IsActive(id);
      forall ids | AllRecordPairs(old(nodesRevs), ids, pairs) ensures AllRecordPairs(nodesRevs, ids + acked, pairs) {
        MoreRecordPairs(old(nodesRevs), nodesRevs, ids, acked, active, pairs);
      }
    }

    /** The nodes that still need at least one of the last synced versions. One who is no
        longer the primary has none to care for, and is going to be reset. */
    method Pending() returns (pending: set<NodeId>)
      requires Sound()
      modifies this`nodesRevs
      ensures Sound()
      ensures !isPrimary ==> pending == {} && nodesRevs == old(nodesRevs)
      ensures isPrimary ==>
                forall id :: id in pending <==>
                             id in members && id != self && !InSync(old(nodesRevs), lastSynced, id)
      ensures isPrimary ==> nodesRevs.Keys == old(nodesRevs).Keys + (members.Keys - {self})
      ensures forall id :: id in nodesRevs ==> nodesRevs[id] == AckedBy(old(nodesRevs), id)
    {
      pending := {};
      if !isPrimary { return; }
      var todo := members.Keys - {self};
      while todo != {}
        invariant todo <= members.Keys - {self}
        invariant Sound()
        invariant forall id :: id in pending <==>
                    id in members && id != self && id !in todo && !InSync(old(nodesRevs), lastSynced, id)
        invariant nodesRevs.Keys == old(nodesRevs).Keys + (members.Keys - {self} - todo)
        invariant forall id :: id in nodesRevs ==> nodesRevs[id] == AckedBy(old(nodesRevs), id)
        decreases todo
      {
        var id :| id in todo;
        if id !in nodesRevs {
          nodesRevs := nodesRevs[id := map[]];
          pending := pending + {id};
        } else {
          var inSync := IsInSync(nodesRevs[id]);
          if !inSync { pending := pending + {id}; }
        }
        todo := todo - {id};
      }
    }

    method IsInSync(ndr: Acked) returns (inSync: bool)
      ensures inSync <==> forall tag :: tag in lastSynced ==> tag in ndr && ndr[tag] >= lastSynced[tag].version
    {
      inSync := true;
      var todo := lastSynced.Keys;
      while todo != {}
        invariant todo <= lastSynced.Keys
        invariant inSync <==> forall tag :: tag in lastSynced.Keys - todo ==>
                  tag in ndr && ndr[tag] >= lastSynced[tag].version
        decreases todo
      {
        var tag :| tag in todo;
        if tag !in ndr || ndr[tag] < lastSynced[tag].version { return false; }
        todo := todo - {tag};
      }
    }

    /** Those of them that are active; requests to the others are not even made. */
    method PendingActive() returns (to: set<NodeId>)
      requires Sound()
      modifies this`nodesRevs
      ensures Sound() && to == if isPrimary then old(Behind()) else {}
      ensures isPrimary ==> Behind() <= to
    {
      var pending := Pending();
      to := set id | id in pending && IsActive(id);
    }

    /** The retry timer: send everything last synced to the nodes that are behind, and count
        those of them that do not answer positively; `conflict` says that a negative answer
        tells of another primary, which ends the retries. When no node fails, no active node
        is behind any more. */
    method HandlePending(conflict: bool) returns (failedCnt: nat, aborted: bool)
      requires Sound()
      modifies this`held, this`nodesRevs, this`oks, this`asked
      ensures Sound() && Grew(old(held), held)
      ensures isPrimary ==> asked == old(Behind()) && oks <= asked
      ensures isPrimary && !aborted ==> failedCnt == |old(Behind()) - oks|
      ensures aborted <==> isPrimary && conflict && !(old(Behind()) <= oks)
      ensures aborted ==> failedCnt == 0
      ensures isPrimary && failedCnt == 0 && !aborted ==> Behind() == {}
    {
      failedCnt, aborted, oks, asked := 0, false, {}, {};
      var to := PendingActive();
      assert held == old(held);
      if to == {} { return; }
      var acked := Resend(to);
      failedCnt := |to - acked|;
      if to != acked && conflict {
        failedCnt, aborted := 0, true;  // another primary has been detected
      }
    }

    /** Sends everything last synced; whoever acknowledges is in sync. */
    method Resend(to: set<NodeId>) returns (acked: set<NodeId>)
      requires Sound() && oks == asked == {}
      modifies this`held, this`nodesRevs, this`oks, this`asked
      ensures Sound() && Grew(old(held), held) && acked <= to
      ensures oks == acked && asked == to
      ensures Behind() <= old(Behind()) - acked
    {
      var pairs := LastSyncedPairs();
      acked := Bcast(to, Payload(lastSynced, false));
      GrewKeepsRecorded(nodesRevs, old(held), held, targets);
      RecordAll(acked, pairs, lastSynced);
      forall id | id in members && id != self && IsActive(id) && id !in old(Behind()) - acked
        ensures InSync(nodesRevs, lastSynced, id)
      {
        if id in acked {
          RetryDrains(old(nodesRevs), lastSynced, id, pairs);
        } else {
          assert SameRecord(old(nodesRevs), nodesRevs, id);
        }
      }
    }

    /** What was last synced, as pairs in some order. */
    method LastSyncedPairs() returns (pairs: seq<Pair>)
      ensures Carries(lastSynced, pairs)
      ensures forall tag :: tag in lastSynced ==> Recorded(map[], pairs)[tag] == lastSynced[tag].version
    {
      pairs := [];
      var todo := lastSynced.Keys;
      while todo != {}
        invariant todo <= lastSynced.Keys
        invariant Recorded(map[], pairs).Keys == lastSynced.Keys - todo
        invariant forall tag :: tag in lastSynced.Keys - todo ==> Recorded(map[], pairs)[tag] == lastSynced[tag].version
        decreases todo
      {
        var tag :| tag in todo;
        var more := pairs + [Pair(tag, lastSynced[tag])];
        RecordedStep(map[], more, |pairs|);
        assert more[..|pairs|] == pairs && more[..|pairs| + 1] == more;
        pairs := more;
        todo := todo - {tag};
      }
    }

    /** Any run: synchronizations, retries, loss of the primary role, and anything else in
        between. Afterwards every other proxy that is on record as in sync holds at least the
        last synced version of all metadata; so if the primary has nothing pending, every
        other proxy of the cluster map does. Last synced is what has been sent since the last
        reset, of every kind the last. */
    method Run(steps: seq<Step>) returns (pending: set<NodeId>, ghost sents: seq<map<Tag, Revs>>)
      requires Sound()
      modifies this
      ensures Sound() && Grew(old(held), held)
      ensures |sents| == |steps| && SentAll(steps, sents)
      ensures lastSynced == Synced(old(lastSynced), steps, sents, |steps|)
      ensures forall id :: id !in targets && InSync(nodesRevs, lastSynced, id) ==>
              HoldsAll(HeldOf(held, id), lastSynced)
      ensures isPrimary && pending == {} ==>
                forall id :: id in members.Keys - {self} - targets ==> HoldsAll(HeldOf(held, id), lastSynced)
    {
      sents := [];
      for i := 0 to |steps|
        invariant Sound() && Grew(old(held), held)
        invariant |sents| == i && SentAll(steps[..i], sents)
        invariant lastSynced == Synced(old(lastSynced), steps, sents, i)
      {
        label step:
        Interference();
        GrewTransitive(old(held), old@step(held), held);
        GrewKeepsRecorded(nodesRevs, old@step(held), held, targets);
        ghost var sent := TakeStep(steps[i]);
        SyncedSame(old(lastSynced), steps, sents, sent, i);
        assert SentAs(steps[i], sent) && steps[..i + 1] == steps[..i] + [steps[i]];
        sents := sents + [sent];
        GrewTransitive(old(held), old@step(held), held);
      }
      assert steps[..|steps|] == steps;
      ghost var acked := nodesRevs;
      pending := Pending();
      forall id | id !in targets && (InSync(acked, lastSynced, id) || InSync(nodesRevs, lastSynced, id))
        ensures HoldsAll(HeldOf(held, id), lastSynced)
      {
        var sure := if InSync(acked, lastSynced, id) then acked else nodesRevs;
        NothingPendingMeansHeld(sure, held, targets, lastSynced, id);
      }
    }

    method TakeStep(step: Step) returns (ghost sent: map<Tag, Revs>)
      requires Sound()
      modifies this
      ensures Sound() && Grew(old(held), held)
      ensures match step {
                case Sync(pairs) => SentNewest(old(owner), pairs, sent) && lastSynced == old(lastSynced) + sent
                case Retry(_) => lastSynced == old(lastSynced)
                case Reset => lastSynced == map[] && nodesRevs == map[]
              }
    {
      sent := map[];
      match step {
        case Sync(pairs) =>
          var failedCnt, lost;
          failedCnt, lost, sent := Do(pairs);
        case Retry(conflict) => var failedCnt, aborted := HandlePending(conflict);
        case Reset => nodesRevs, lastSynced := map[], map[];
      }
    }
  }

  /** What every synchronization sends has the kinds that are queued for it. */
  ghost predicate SentAll(steps: seq<Step>, sents: seq<map<Tag, Revs>>) {
    |steps| == |sents| && forall i :: 0 <= i < |steps| ==> SentAs(steps[i], sents[i])
  }

  ghost predicate SentAs(step: Step, sent: map<Tag, Revs>) {
    step.Sync? ==> exists owner :: SentNewest(owner, step.pairs, sent)
  }

  ghost function Synced(first: map<Tag, Revs>, steps: seq<Step>, sents: seq<map<Tag, Revs>>, n: nat): map<Tag, Revs>
    requires n <= |steps| && n <= |sents|
  {
    if n == 0 then first
    else
      match steps[n - 1]
      case Sync(_) => Synced(first, steps, sents, n - 1) + sents[n - 1]
      case Retry(_) => Synced(first, steps, sents, n - 1)
      case Reset => map[]
  }

  lemma {:induction false} SyncedSame(first: map<Tag, Revs>, steps: seq<Step>, sents: seq<map<Tag, Revs>>,
                                      sent: map<Tag, Revs>, n: nat)
    requires n <= |steps| && n <= |sents|
    ensures Synced(first, steps, sents, n) == Synced(first, steps, sents + [sent], n)
  {
    if n > 0 { SyncedSame(first, steps, sents, sent, n - 1); }
  }
}
