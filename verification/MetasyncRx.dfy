/** The receiving side of metasync: what a non-primary proxy does with replicated,
    versioned metadata (REVS) sent by the primary. A handler first extracts every
    item of the payload and compares versions without locking, and then applies what
    is left under the lock of the respective owner, where it compares versions again
    (`ais/htrun.go`, `ais/proxy.go`, `ais/clustermap.go`). */
module MetasyncRx {

  type NodeId = string

  datatype Tag = Smap | BMD | RMD | Conf | EtlMD

  /** One version of one kind of metadata. The cluster map lists its nodes and its
      primary; the rest of any metadata is its `content`. */
  datatype Revs = Revs(version: nat, uuid: string, nodes: set<NodeId>, primary: NodeId, content: int)

  /** What a node currently owns. */
  type Held = map<Tag, Revs>

  /** A metasync message; `manualReb` marks an administrator-requested rebalance. */
  datatype Payload = Payload(revs: map<Tag, Revs>, manualReb: bool)

  datatype Extract = Nothing | Fresh | Error
  datatype Outcome = Outcome(held: Held, ok: bool)

  /** The order in which a handler goes over the payload. */
  const RX_ORDER: seq<Tag> := [Conf, Smap, BMD, RMD, EtlMD]

  function Version(held: Held, tag: Tag): nat {
    if tag in held then held[tag].version else 0
  }

  /** Both cluster IDs are known, and they are not the same. Metadata that has no version
      yet belongs to no cluster: bucket metadata on either side, a cluster map that is sent. */
  predicate FromAnotherCluster(held: Held, tag: Tag, revs: Revs) {
    && tag in held && held[tag].uuid != "" && revs.uuid != "" && held[tag].uuid != revs.uuid
    && (tag == RMD || revs.version != 0) && (tag != BMD || held[tag].version != 0)
  }

  predicate ValidSmap(smap: Revs) {
    smap.version != 0 && smap.primary in smap.nodes && smap.uuid != ""
  }

  /** Same members, primary and flags, whatever the version. */
  predicate Identical(a: Revs, b: Revs) {
    a.nodes == b.nodes && a.primary == b.primary && a.content == b.content
  }

  /** The unlocked comparison that precedes the update. */
  function ExtractOne(self: NodeId, held: Held, tag: Tag, revs: Revs, manualReb: bool): Extract {
    var cur := Version(held, tag);
    if tag == Smap then
      if revs.version == cur && !manualReb then Nothing
      else if revs.primary !in revs.nodes || self !in revs.nodes then Error
      else if FromAnotherCluster(held, tag, revs) then Error
      else if revs.version >= cur then Fresh
      else if tag in held && Identical(held[tag], revs) then Nothing
      else Error
    else if tag == RMD && FromAnotherCluster(held, tag, revs) then Error
    else if revs.version < cur then Error
    else if revs.version == cur then Nothing
    else Fresh
  }

  /** The locked update: compare again, store, publish. `stored` says whether the new
      version could be written to disk. */
  function ApplyOne(self: NodeId, held: Held, tag: Tag, revs: Revs, stored: bool): Outcome {
    var cur := Version(held, tag);
    var put := held[tag := revs];
    match tag
    case Smap =>
      if self !in revs.nodes || !ValidSmap(revs) || (tag in held && revs.version < cur) then Outcome(held, false)
      else if tag in held && revs.version == cur then Outcome(held, true)
      else if !stored then Outcome(held, false)
      else Outcome(put, true)
    case BMD =>
      // a different cluster ID overrides whatever a non-primary proxy has
      if !FromAnotherCluster(held, tag, revs) && revs.version <= cur then Outcome(held, false)
      else if !stored then Outcome(held, false)
      else Outcome(put, true)
    case RMD =>
      if revs.version <= cur then Outcome(held, revs.version == cur)
      else Outcome(put, true)
    case Conf =>
      if revs.version <= cur then Outcome(held, revs.version == cur)
      else if tag in held && held[tag].uuid != "" && held[tag].uuid != revs.uuid then Outcome(held, false)
      else Outcome(put, stored)
    case EtlMD =>
      if revs.version <= cur then Outcome(held, revs.version == cur)
      else if !stored then Outcome(held, false)
      else Outcome(put, true)
  }

  function ReceiveOne(self: NodeId, held: Held, tag: Tag, payload: Payload, stored: set<Tag>): Outcome {
    if tag !in payload.revs then Outcome(held, true)
    else
      match ExtractOne(self, held, tag, payload.revs[tag], payload.manualReb)
      case Nothing => Outcome(held, true)
      case Error => Outcome(held, false)
      case Fresh => ApplyOne(self, held, tag, payload.revs[tag], tag in stored)
  }

  function ReceiveFirst(self: NodeId, held: Held, payload: Payload, stored: set<Tag>, n: nat): Outcome
    requires n <= |RX_ORDER|
  {
    if n == 0 then Outcome(held, true)
    else
      var before := ReceiveFirst(self, held, payload, stored, n - 1);
      var one := ReceiveOne(self, before.held, RX_ORDER[n - 1], payload, stored);
      Outcome(one.held, before.ok && one.ok)
  }

  /** A whole message; a failed item does not stop the others, but fails the response. */
  function Receive(self: NodeId, held: Held, payload: Payload, stored: set<Tag>): Outcome {
    ReceiveFirst(self, held, payload, stored, |RX_ORDER|)
  }

  ghost predicate AtLeast(newer: Held, older: Held) {
    forall tag :: Version(newer, tag) >= Version(older, tag)
  }

  // ----- one message ----------------------------------------------------------

  /** A locked update moves a version backwards exactly when it overrides the bucket
      metadata of another cluster with an older version that can be stored. */
  lemma ApplyGoesBackIff(self: NodeId, held: Held, tag: Tag, revs: Revs, stored: bool)
    ensures var after := ApplyOne(self, held, tag, revs, stored).held;
            Version(after, tag) < Version(held, tag) <==>
              tag == BMD && FromAnotherCluster(held, tag, revs) && stored && revs.version < Version(held, tag)
    ensures forall t :: t != tag ==>
              Version(ApplyOne(self, held, tag, revs, stored).held, t) == Version(held, t)
  {
  }

  lemma ReceiveOneHolds(self: NodeId, held: Held, tag: Tag, payload: Payload, stored: set<Tag>)
    ensures var out := ReceiveOne(self, held, tag, payload, stored);
            && AtLeast(out.held, held)
            && (out.ok && tag in payload.revs ==> Version(out.held, tag) >= payload.revs[tag].version)
  {
  }

  /** The metadata held is of another cluster than `revs`. */
  ghost predicate Foreign(held: Held, tag: Tag, revs: Revs) {
    tag in held && held[tag].uuid != revs.uuid && "" !in {held[tag].uuid, revs.uuid}
  }

  /** What makes metadata acceptable, other than its version: a cluster map must have its own
      primary and the receiver; metadata of another cluster is refused, except for bucket
      metadata; a configuration must come from the known cluster. */
  ghost predicate Rightful(self: NodeId, held: Held, tag: Tag, revs: Revs) {
    match tag
    case Smap => revs.uuid != "" && {self, revs.primary} <= revs.nodes && !Foreign(held, tag, revs)
    case BMD => true
    case RMD => !Foreign(held, tag, revs)
    case Conf => tag in held && held[tag].uuid != "" ==> revs.uuid == held[tag].uuid
    case EtlMD => true
  }

  /** When an item replaces what is held: it is newer, acceptable, and not lost for want of
      storage. */
  ghost predicate Takes(self: NodeId, held: Held, tag: Tag, payload: Payload, stored: set<Tag>) {
    && tag in payload.revs && payload.revs[tag].version > Version(held, tag)
    && Rightful(self, held, tag, payload.revs[tag])
    && (tag in stored || tag == RMD || tag == Conf)
  }

  /** When an item does not fail the response: it has been taken (and, a configuration,
      stored), or has the version held, or is an older cluster map that differs from the one
      held in its version only. A cluster map sent along with a request to rebalance must be
      acceptable even if its version is the one held. */
  ghost predicate Vouches(self: NodeId, held: Held, tag: Tag, payload: Payload, stored: set<Tag>)
    requires tag in payload.revs
  {
    var revs, cur := payload.revs[tag], Version(held, tag);
    if revs.version > cur then Takes(self, held, tag, payload, stored) && (tag == Conf ==> tag in stored)
    else if revs.version == cur then
      && (tag == RMD ==> !Foreign(held, tag, revs))
      && (tag == Smap && payload.manualReb ==> revs.version > 0 && Rightful(self, held, tag, revs))
    else
      && tag == Smap && tag in held && {self, revs.primary} <= revs.nodes
      && (revs.version == 0 || !Foreign(held, tag, revs))
      && revs == held[tag].(version := revs.version, uuid := revs.uuid)
  }

  /** The two comparisons together are this one rule, for whatever is sent. */
  lemma ReceiveOneIs(self: NodeId, held: Held, tag: Tag, payload: Payload, stored: set<Tag>)
    ensures var out := ReceiveOne(self, held, tag, payload, stored);
            && out.held == (if Takes(self, held, tag, payload, stored) then held[tag := payload.revs[tag]] else held)
            && (out.ok <==> (tag in payload.revs ==> Vouches(self, held, tag, payload, stored)))
  {
  }

  /** When a locked update replaces what is held, whatever has happened since the first
      comparison: now only the version counts, and bucket metadata of another cluster need
      not even be newer. */
  ghost predicate Replaces(self: NodeId, held: Held, tag: Tag, revs: Revs, stored: bool) {
    && (revs.version > Version(held, tag)
        || (tag == BMD && Foreign(held, tag, revs) && 0 !in {revs.version, held[tag].version}))
    && (tag == Smap ==> revs.uuid != "" && {self, revs.primary} <= revs.nodes)
    && (tag == Conf ==> Rightful(self, held, tag, revs))
    && (stored || tag == RMD || tag == Conf)
  }

  /** What a locked update does; it succeeds without a change if the version is the one held,
      except for bucket metadata. */
  lemma ApplyIs(self: NodeId, held: Held, tag: Tag, revs: Revs, stored: bool)
    ensures var out := ApplyOne(self, held, tag, revs, stored);
            && out.held == (if Replaces(self, held, tag, revs, stored) then held[tag := revs] else held)
            && (out.ok <==>
                || (Replaces(self, held, tag, revs, stored) && (tag == Conf ==> stored))
                || (revs.version == Version(held, tag) && tag != BMD
                    && (tag == Smap ==> revs.version > 0 && revs.uuid != "" && {self, revs.primary} <= revs.nodes)))
  {
  }

  /** What becomes of one kind of metadata. */
  ghost predicate Becomes(self: NodeId, held: Held, tag: Tag, payload: Payload, stored: set<Tag>, after: Held) {
    if Takes(self, held, tag, payload, stored) then tag in after && after[tag] == payload.revs[tag]
    else SameIn(held, after, tag)
  }

  ghost predicate SameIn(held: Held, after: Held, tag: Tag) {
    (tag in held <==> tag in after) && (tag in held ==> after[tag] == held[tag])
  }

  /** What the first `n` items have done so far. */
  ghost predicate FirstDone(self: NodeId, held: Held, payload: Payload, stored: set<Tag>, n: nat, tag: Tag,
                            out: Outcome) {
    if PlaceOf(tag) < n then Becomes(self, held, tag, payload, stored, out.held) else SameIn(held, out.held, tag)
  }

  ghost predicate FirstVouch(self: NodeId, held: Held, payload: Payload, stored: set<Tag>, n: nat) {
    forall tag :: tag in payload.revs && PlaceOf(tag) < n ==> Vouches(self, held, tag, payload, stored)
  }

  lemma {:induction false} ReceiveFirstIs(self: NodeId, held: Held, payload: Payload, stored: set<Tag>, n: nat)
    requires n <= |RX_ORDER|
    ensures var out := ReceiveFirst(self, held, payload, stored, n);
            && (forall tag :: FirstDone(self, held, payload, stored, n, tag, out))
            && (out.ok <==> FirstVouch(self, held, payload, stored, n))
  {
    if n > 0 {
      ReceiveFirstIs(self, held, payload, stored, n - 1);
      var before := ReceiveFirst(self, held, payload, stored, n - 1);
      var last := RX_ORDER[n - 1];
      OnePerPlace();
      assert FirstDone(self, held, payload, stored, n - 1, last, before);
      SameTakes(self, held, before.held, last, payload, stored);
      ReceiveOneIs(self, before.held, last, payload, stored);
      forall tag ensures FirstDone(self, held, payload, stored, n, tag, ReceiveFirst(self, held, payload, stored, n)) {
        assert FirstDone(self, held, payload, stored, n - 1, tag, before);
      }
      OneMoreVouches(self, held, payload, stored, n);
    }
  }

  lemma OneMoreVouches(self: NodeId, held: Held, payload: Payload, stored: set<Tag>, n: nat)
    requires 0 < n <= |RX_ORDER|
    ensures FirstVouch(self, held, payload, stored, n) <==>
            && FirstVouch(self, held, payload, stored, n - 1)
            && (RX_ORDER[n - 1] in payload.revs ==> Vouches(self, held, RX_ORDER[n - 1], payload, stored))
  {
    OnePerPlace();
  }

  lemma OnePerPlace()
    ensures forall k :: 0 <= k < |RX_ORDER| ==> PlaceOf(RX_ORDER[k]) == k
  {
  }

  lemma SameTakes(self: NodeId, held: Held, before: Held, tag: Tag, payload: Payload, stored: set<Tag>)
    requires SameIn(held, before, tag)
    ensures Takes(self, held, tag, payload, stored) <==> Takes(self, before, tag, payload, stored)
    ensures tag in payload.revs ==>
              (Vouches(self, held, tag, payload, stored) <==> Vouches(self, before, tag, payload, stored))
  {
  }

  /** What a message does, whatever is held and whatever is sent: which items replace what is
      held, contents included, and exactly when the response is positive. */
  lemma ReceiveIs(self: NodeId, held: Held, payload: Payload, stored: set<Tag>)
    ensures forall tag :: Becomes(self, held, tag, payload, stored, Receive(self, held, payload, stored).held)
    ensures Receive(self, held, payload, stored).ok <==>
            forall tag :: tag in payload.revs ==> Vouches(self, held, tag, payload, stored)
  {
    ReceiveFirstIs(self, held, payload, stored, |RX_ORDER|);
    var out := Receive(self, held, payload, stored);
    forall tag ensures Becomes(self, held, tag, payload, stored, out.held) {
      assert FirstDone(self, held, payload, stored, |RX_ORDER|, tag, out);
    }
  }

  ghost predicate HoldsFirst(held: Held, payload: Payload, n: nat)
    requires n <= |RX_ORDER|
  {
    forall k :: 0 <= k < n && RX_ORDER[k] in payload.revs ==>
      Version(held, RX_ORDER[k]) >= payload.revs[RX_ORDER[k]].version
  }

  lemma {:induction false} ReceiveFirstHolds(self: NodeId, held: Held, payload: Payload, stored: set<Tag>, n: nat)
    requires n <= |RX_ORDER|
    ensures AtLeast(ReceiveFirst(self, held, payload, stored, n).held, held)
    ensures ReceiveFirst(self, held, payload, stored, n).ok ==>
              HoldsFirst(ReceiveFirst(self, held, payload, stored, n).held, payload, n)
  {
    if n > 0 {
      ReceiveFirstHolds(self, held, payload, stored, n - 1);
      var before := ReceiveFirst(self, held, payload, stored, n - 1);
      ReceiveOneHolds(self, before.held, RX_ORDER[n - 1], payload, stored);
    }
  }

  /** The extract step shields a message that runs alone: no version ever decreases,
      and a positive response means that the node now holds at least what was sent. */
  lemma ReceiveHolds(self: NodeId, held: Held, payload: Payload, stored: set<Tag>)
    ensures AtLeast(Receive(self, held, payload, stored).held, held)
    ensures Receive(self, held, payload, stored).ok ==>
              forall tag :: tag in payload.revs ==>
                Version(Receive(self, held, payload, stored).held, tag) >= payload.revs[tag].version
  {
    ReceiveFirstHolds(self, held, payload, stored, |RX_ORDER|);
    if Receive(self, held, payload, stored).ok {
      forall tag | tag in payload.revs
        ensures Version(Receive(self, held, payload, stored).held, tag) >= payload.revs[tag].version
      {
        var k := PlaceOf(tag);
        assert RX_ORDER[k] == tag;
      }
    }
  }

  function PlaceOf(tag: Tag): (k: nat)
    ensures k < |RX_ORDER| && RX_ORDER[k] == tag
  {
    match tag
    case Conf => 0
    case Smap => 1
    case BMD => 2
    case RMD => 3
    case EtlMD => 4
  }

  // ----- any interleaving of handlers ------------------------------------------

  /** One atomic action of some handler: a locked update, whose result may or may not be
      written to disk, or an item dropped by the unlocked comparison. */
  datatype Event = Apply(tag: Tag, revs: Revs, stored: bool) | Drop(tag: Tag, revs: Revs)

  /** The item is not lost for want of storage: rebalance metadata is not stored by a proxy,
      and a configuration takes effect even if it cannot be stored. */
  predicate Lands(e: Event) { e.Drop? || e.stored || e.tag == RMD || e.tag == Conf }

  ghost predicate Enabled(self: NodeId, held: Held, e: Event) {
    e.Drop? ==> ExtractOne(self, held, e.tag, e.revs, false) == Nothing
  }

  function Next(self: NodeId, held: Held, e: Event): Held {
    if e.Apply? then ApplyOne(self, held, e.tag, e.revs, e.stored).held else held
  }

  ghost predicate ValidRun(self: NodeId, held: Held, events: seq<Event>)
    decreases |events|
  {
    events == [] || (Enabled(self, held, events[0]) && ValidRun(self, Next(self, held, events[0]), events[1..]))
  }

  function Final(self: NodeId, held: Held, events: seq<Event>): Held
    decreases |events|
  {
    if events == [] then held else Final(self, Next(self, held, events[0]), events[1..])
  }

  /** Metadata of one cluster: the same cluster ID everywhere, one content per version,
      and cluster maps that are valid and contain the receiver. */
  ghost predicate OneCluster(self: NodeId, uuid: string, history: map<(Tag, nat), Revs>, tag: Tag, revs: Revs) {
    && uuid != "" && revs.uuid == uuid && revs.version > 0
    && (tag, revs.version) in history && history[(tag, revs.version)] == revs
    && (tag == Smap ==> self in revs.nodes && ValidSmap(revs))
  }

  ghost predicate OneClusterHeld(self: NodeId, uuid: string, history: map<(Tag, nat), Revs>, held: Held) {
    forall tag :: tag in held ==> OneCluster(self, uuid, history, tag, held[tag])
  }

  /** Within one cluster, when everything can be stored: the receiver ends with the newer of
      what was held and what was sent, and says so exactly if nothing that was sent is older,
      other than a cluster map that has not changed since. */
  lemma ReceiveIsNewer(self: NodeId, uuid: string, history: map<(Tag, nat), Revs>, held: Held, payload: Payload)
    requires OneClusterHeld(self, uuid, history, held)
    requires forall tag :: tag in payload.revs ==> OneCluster(self, uuid, history, tag, payload.revs[tag])
    ensures var out := Receive(self, held, payload, payload.revs.Keys);
            && out.held.Keys == held.Keys + payload.revs.Keys
            && (forall tag :: tag in out.held ==>
                  out.held[tag] == if tag !in payload.revs || payload.revs[tag].version < Version(held, tag)
                                   then held[tag] else payload.revs[tag])
            && (out.ok <==> forall tag :: tag in payload.revs && payload.revs[tag].version < Version(held, tag) ==>
                              tag == Smap && payload.revs[tag].(version := held[tag].version) == held[tag])
  {
    ReceiveIs(self, held, payload, payload.revs.Keys);
    var out := Receive(self, held, payload, payload.revs.Keys);
    forall tag: Tag
      ensures tag in out.held <==> tag in held || tag in payload.revs
      ensures tag in out.held ==>
                out.held[tag] == if tag !in payload.revs || payload.revs[tag].version < Version(held, tag)
                                 then held[tag] else payload.revs[tag]
    {
      assert Becomes(self, held, tag, payload, payload.revs.Keys, out.held);
      if tag in held { assert OneCluster(self, uuid, history, tag, held[tag]); }
      if tag in payload.revs { assert OneCluster(self, uuid, history, tag, payload.revs[tag]); }
    }
  }

  ghost predicate OneClusterRun(self: NodeId, uuid: string, history: map<(Tag, nat), Revs>, events: seq<Event>) {
    forall i :: 0 <= i < |events| ==> OneCluster(self, uuid, history, events[i].tag, events[i].revs)
  }

  /** The newest version of a kind of metadata, held or delivered and landed. */
  function Newest(held: Held, events: seq<Event>, tag: Tag): nat {
    if events == [] then Version(held, tag)
    else
      var rest := Newest(held, events[1..], tag);
      if events[0].tag == tag && Lands(events[0]) && events[0].revs.version > rest then events[0].revs.version else rest
  }

  lemma StepIsMax(self: NodeId, uuid: string, history: map<(Tag, nat), Revs>, held: Held, e: Event)
    requires OneClusterHeld(self, uuid, history, held) && OneCluster(self, uuid, history, e.tag, e.revs)
    requires Enabled(self, held, e)
    ensures OneClusterHeld(self, uuid, history, Next(self, held, e))
    ensures AtLeast(Next(self, held, e), held)
    ensures forall tag :: Version(Next(self, held, e), tag) ==
              if tag == e.tag && Lands(e) && e.revs.version > Version(held, tag) then e.revs.version
              else Version(held, tag)
  {
  }

  lemma {:induction false} NewestStep(held: Held, next: Held, e: Event, events: seq<Event>, n: nat, tag: Tag)
    requires n <= |events|
    requires Version(next, tag) ==
             if tag == e.tag && Lands(e) && e.revs.version > Version(held, tag) then e.revs.version
             else Version(held, tag)
    ensures var rest := Newest(held, events[n..], tag);
            Newest(next, events[n..], tag) ==
            if e.tag == tag && Lands(e) && e.revs.version > rest then e.revs.version else rest
    decreases |events| - n
  {
    if n < |events| {
      NewestStep(held, next, e, events, n + 1, tag);
      assert events[n..][1..] == events[n + 1..];
    }
  }

  /** Whatever the interleaving and whatever cannot be stored, a receiver ends with the
      newest version that it held or that was delivered and landed, and its versions never
      decrease on the way. */
  lemma {:induction false} RunIsNewest(self: NodeId, uuid: string, history: map<(Tag, nat), Revs>, held: Held,
                                       events: seq<Event>)
    requires OneClusterHeld(self, uuid, history, held) && OneClusterRun(self, uuid, history, events)
    requires ValidRun(self, held, events)
    ensures OneClusterHeld(self, uuid, history, Final(self, held, events))
    ensures AtLeast(Final(self, held, events), held)
    ensures forall tag :: Version(Final(self, held, events), tag) == Newest(held, events, tag)
    decreases |events|
  {
    if events != [] {
      var e := events[0];
      assert OneCluster(self, uuid, history, e.tag, e.revs);
      StepIsMax(self, uuid, history, held, e);
      var next := Next(self, held, e);
      assert OneClusterRun(self, uuid, history, events[1..]) by {
        forall i | 0 <= i < |events| - 1
          ensures OneCluster(self, uuid, history, events[1..][i].tag, events[1..][i].revs)
        {
          assert events[1..][i] == events[i + 1];
        }
      }
      RunIsNewest(self, uuid, history, next, events[1..]);
      assert [e] + events[1..] == events;
      forall tag ensures Newest(next, events[1..], tag) == Newest(held, events, tag) {
        NewestStep(held, next, e, events, 1, tag);
      }
    }
  }

  lemma {:induction false} NewestBounds(held: Held, events: seq<Event>, tag: Tag)
    ensures Newest(held, events, tag) >= Version(held, tag)
    ensures forall i :: 0 <= i < |events| && LandsAs(events[i], tag) ==>
            events[i].revs.version <= Newest(held, events, tag)
    ensures Newest(held, events, tag) == Version(held, tag)
            || exists i :: (0 <= i < |events| && LandsAs(events[i], tag)
                            && events[i].revs.version == Newest(held, events, tag))
  {
    if events != [] {
      NewestBounds(held, events[1..], tag);
      forall i | 0 <= i < |events| && LandsAs(events[i], tag)
        ensures events[i].revs.version <= Newest(held, events, tag)
      {
        if i > 0 { assert events[i] == events[1..][i - 1]; }
      }
      var rest := Newest(held, events[1..], tag);
      if Newest(held, events, tag) == rest && rest != Version(held, tag) {
        var i :| 0 <= i < |events[1..]| && LandsAs(events[1..][i], tag) && events[1..][i].revs.version == rest;
        assert LandsAs(events[i + 1], tag) && events[i + 1].revs.version == rest;
      }
    }
  }

  ghost predicate LandsAs(e: Event, tag: Tag) { e.tag == tag && Lands(e) }

  ghost predicate DeliveredIn(tag: Tag, revs: Revs, events: seq<Event>) {
    exists i :: 0 <= i < |events| && LandsAs(events[i], tag) && events[i].revs == revs
  }

  /** The same deliveries have landed, in any order and any number of times. */
  ghost predicate SameDeliveries(a: seq<Event>, b: seq<Event>) {
    forall tag, revs :: DeliveredIn(tag, revs, a) <==> DeliveredIn(tag, revs, b)
  }

  lemma NewestAtMost(held: Held, a: seq<Event>, b: seq<Event>, tag: Tag)
    requires SameDeliveries(a, b)
    ensures Newest(held, a, tag) <= Newest(held, b, tag)
  {
    NewestBounds(held, a, tag);
    NewestBounds(held, b, tag);
    if Newest(held, a, tag) != Version(held, tag) {
      var i :| 0 <= i < |a| && LandsAs(a[i], tag) && a[i].revs.version == Newest(held, a, tag);
      assert DeliveredIn(tag, a[i].revs, a);
      assert DeliveredIn(tag, a[i].revs, b);
    }
  }

  /** Reordering, duplication and failed attempts do not matter: the same deliveries leave
      the same metadata, contents included. */
  lemma ReorderingConverges(self: NodeId, uuid: string, history: map<(Tag, nat), Revs>, held: Held, a: seq<Event>,
                            b: seq<Event>)
    requires OneClusterHeld(self, uuid, history, held)
    requires OneClusterRun(self, uuid, history, a) && OneClusterRun(self, uuid, history, b)
    requires ValidRun(self, held, a) && ValidRun(self, held, b)
    requires SameDeliveries(a, b)
    ensures Final(self, held, a) == Final(self, held, b)
  {
    RunIsNewest(self, uuid, history, held, a);
    RunIsNewest(self, uuid, history, held, b);
    forall tag ensures Version(Final(self, held, a), tag) == Version(Final(self, held, b), tag) {
      NewestAtMost(held, a, b, tag);
      NewestAtMost(held, b, a, tag);
    }
    EqualVersionsAreEqual(self, uuid, history, Final(self, held, a), Final(self, held, b));
  }

  lemma EqualVersionsAreEqual(self: NodeId, uuid: string, history: map<(Tag, nat), Revs>, x: Held, y: Held)
    requires OneClusterHeld(self, uuid, history, x) && OneClusterHeld(self, uuid, history, y)
    requires forall tag :: Version(x, tag) == Version(y, tag)
    ensures x == y
  {
    forall tag: Tag ensures (tag in x <==> tag in y) && (tag in x ==> x[tag] == y[tag]) {
      assert Version(x, tag) == Version(y, tag);
    }
  }
}
