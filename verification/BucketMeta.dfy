/** Bucket metadata (BMD): the update callbacks, the bucket IDs (BIDs) they issue, and what
    holds over every run of updates (`ais/bucketmeta.go`, `ais/prxtxn.go`). */
module BucketMeta {

  datatype Bck = Bck(name: string, isAis: bool)

  /** A serial number, with the most significant bit telling ais:// buckets from the rest. */
  datatype Bid = Bid(serial: nat, isAis: bool)

  datatype Props = Props(bid: Bid, copies: int, mirrored: bool, renamed: bool, rest: int)

  datatype BMD = BMD(version: nat, buckets: map<Bck, Props>) {

    /** The next serial: updating on the fly starts a brand-new cluster at one. */
    function Serial(): nat { if version == 0 then 1 else version }

    function Add(bck: Bck, p: Props): BMD
      requires bck !in buckets
    {
      BMD(Serial() + 1, buckets[bck := p.(bid := Bid(Serial(), bck.isAis))])
    }

    function Set(bck: Bck, p: Props): BMD
      requires bck in buckets
    {
      BMD(version + 1, buckets[bck := p.(bid := buckets[bck].bid)])
    }

    function Del(bck: Bck): BMD
      requires bck in buckets
    {
      BMD(version + 1, buckets - {bck})
    }
  }

  /** The callbacks of the bucket transactions. */
  datatype Pre =
    | Create(bck: Bck, props: Props)
    | Rm(bck: Bck)
    | Mirror(bck: Bck, copies: int)
    | SetProps(bck: Bck, props: Props)
    | Mv(from: Bck, to: Bck)
    | CpProps(from: Bck, to: Bck, inherited: Props)
    | UpdateCopies(bck: Bck, copies: int, mirrored: bool)

  /** `Panic` is a callback that dereferences the properties of a bucket that is gone. */
  datatype Result = Err | Terminate | Panic | Updated(bmd: BMD)

  function Run(pre: Pre, m: BMD): Result {
    match pre
    case Create(bck, p) => if bck in m.buckets then Err else Updated(m.Add(bck, p))
    case Rm(bck) => if bck !in m.buckets then Err else Updated(m.Del(bck))
    case Mirror(bck, n) =>
      if bck !in m.buckets then Panic else Updated(m.Set(bck, m.buckets[bck].(copies := n, mirrored := n > 1)))
    case SetProps(bck, p) => if bck !in m.buckets then Panic else Updated(m.Set(bck, p))
    case Mv(from, to) =>
      if from !in m.buckets then Panic
      else
        var p := m.buckets[from];
        var added := if to in m.buckets then m else m.Add(to, p);
        Updated(added.Set(from, p.(renamed := true)))
    case CpProps(from, to, inherited) =>
      if to in m.buckets then Terminate
      else if from !in m.buckets then Panic
      else Updated(m.Add(to, if from.isAis then m.buckets[from] else inherited))
    case UpdateCopies(bck, n, mirrored) =>
      if bck !in m.buckets then Terminate
      else Updated(m.Set(bck, m.buckets[bck].(copies := n, mirrored := mirrored)))
  }

  function Touched(pre: Pre): set<Bck> {
    match pre
    case Mv(from, to) => {from, to}
    case CpProps(from, to, _) => {from, to}
    case _ => {pre.bck}
  }

  /** BIDs tell buckets apart and are behind the version. */
  ghost predicate Sound(m: BMD) {
    && (forall b :: b in m.buckets ==> m.buckets[b].bid.serial < m.version)
    && (forall a, b :: a in m.buckets && b in m.buckets && m.buckets[a].bid == m.buckets[b].bid ==> a == b)
  }

  ghost predicate HasBid(m: BMD, bid: Bid) { exists b :: b in m.buckets && m.buckets[b].bid == bid }

  lemma AddKeeps(m: BMD, bck: Bck, p: Props)
    requires Sound(m) && bck !in m.buckets
    ensures Sound(m.Add(bck, p)) && m.version < m.Add(bck, p).version
    ensures forall b :: b in m.buckets ==> m.Add(bck, p).buckets[b] == m.buckets[b]
    ensures m.Add(bck, p).buckets[bck].bid.serial >= m.version
  {
  }

  lemma SetKeeps(m: BMD, bck: Bck, p: Props)
    requires Sound(m) && bck in m.buckets
    ensures Sound(m.Set(bck, p)) && m.version < m.Set(bck, p).version
    ensures m.Set(bck, p).buckets.Keys == m.buckets.Keys
    ensures forall b :: b in m.buckets ==> m.Set(bck, p).buckets[b].bid == m.buckets[b].bid
  {
  }

  /** Every update keeps BIDs apart, raises the version, leaves the BID of every bucket that
      was there alone, and gives a new bucket a BID not behind the old version. Buckets that
      the callback does not name stay as they are. */
  lemma UpdateKeeps(pre: Pre, m: BMD)
    requires Sound(m) && Run(pre, m).Updated?
    ensures var n := Run(pre, m).bmd;
            && Sound(n) && m.version < n.version
            && (forall b :: b in m.buckets && b in n.buckets ==> n.buckets[b].bid == m.buckets[b].bid)
            && (forall b :: b in n.buckets && b !in m.buckets ==> n.buckets[b].bid.serial >= m.version)
            && (forall b :: b !in Touched(pre) ==> (b in n.buckets <==> b in m.buckets))
            && (forall b :: b !in Touched(pre) && b in m.buckets ==> n.buckets[b] == m.buckets[b])
  {
    match pre
    case Create(bck, p) => AddKeeps(m, bck, p);
    case Rm(bck) =>
    case Mirror(bck, n) => SetKeeps(m, bck, m.buckets[bck].(copies := n, mirrored := n > 1));
    case SetProps(bck, p) => SetKeeps(m, bck, p);
    case Mv(from, to) =>
      var p := m.buckets[from];
      if to !in m.buckets { AddKeeps(m, to, p); }
      SetKeeps(if to in m.buckets then m else m.Add(to, p), from, p.(renamed := true));
    case CpProps(from, to, inherited) => AddKeeps(m, to, if from.isAis then m.buckets[from] else inherited);
    case UpdateCopies(bck, n, mirrored) => SetKeeps(m, bck, m.buckets[bck].(copies := n, mirrored := mirrored));
  }

  /** The bucket is there with the given properties and a new BID of its kind. */
  ghost predicate IsNew(m: BMD, n: BMD, b: Bck, p: Props) {
    && b in n.buckets && n.buckets[b] == p.(bid := n.buckets[b].bid)
    && n.buckets[b].bid.isAis == b.isAis && n.buckets[b].bid.serial >= m.version
  }

  /** What every callback does to the buckets; `n` is what it makes of `m`. */
  ghost predicate Effect(pre: Pre, m: BMD, n: BMD) {
    match pre
    case Create(b, p) => b !in m.buckets && IsNew(m, n, b, p) && n.buckets - {b} == m.buckets
    case Rm(b) => b in m.buckets && n.buckets == m.buckets - {b}
    case Mirror(b, k) =>
      b in m.buckets && n.buckets == m.buckets[b := m.buckets[b].(copies := k, mirrored := k > 1)]
    case SetProps(b, p) => b in m.buckets && n.buckets == m.buckets[b := p.(bid := m.buckets[b].bid)]
    case Mv(from, to) =>
      && from in m.buckets && from in n.buckets && n.buckets[from] == m.buckets[from].(renamed := true)
      && (to !in m.buckets ==> IsNew(m, n, to, m.buckets[from]))
      && (to in m.buckets && to != from ==> to in n.buckets && n.buckets[to] == m.buckets[to])
      && n.buckets - {from, to} == m.buckets - {from, to}
    case CpProps(from, to, inherited) =>
      && from in m.buckets && to !in m.buckets && n.buckets - {to} == m.buckets
      && IsNew(m, n, to, if from.isAis then m.buckets[from] else inherited)
    case UpdateCopies(b, k, mirrored) =>
      b in m.buckets && n.buckets == m.buckets[b := m.buckets[b].(copies := k, mirrored := mirrored)]
  }

  /** When a callback updates, what it does, and how it fails otherwise: creating a bucket
      that exists and removing one that does not are errors; what is already undone or
      copied ends quietly. */
  lemma RunIs(pre: Pre, m: BMD)
    ensures match Run(pre, m) {
              case Updated(n) => Effect(pre, m, n) && m.version < n.version
              case Err => if pre.Create? then pre.bck in m.buckets else pre.Rm? && pre.bck !in m.buckets
              case Terminate => if pre.CpProps? then pre.to in m.buckets else pre.UpdateCopies? && pre.bck !in m.buckets
              case Panic => (pre.Mirror? || pre.SetProps? || pre.Mv? || pre.CpProps?) && !(Needs(pre) <= m.buckets.Keys)
            }
  {
  }

  /** The buckets whose properties the callback reads. */
  ghost function Needs(pre: Pre): set<Bck> {
    match pre
    case Mv(from, _) => {from}
    case CpProps(from, _, _) => {from}
    case _ => {pre.bck}
  }

  // ----- runs ----------------------------------------------------------------------------

  ghost predicate Updates(pre: Pre, m: BMD, n: BMD) { Run(pre, m) == Updated(n) }

  /** The versions that are published one after another. */
  ghost predicate IsRun(ms: seq<BMD>, pres: seq<Pre>) {
    && |ms| == |pres| + 1 && Sound(ms[0])
    && forall i :: 0 <= i < |pres| ==> Updates(pres[i], ms[i], ms[i + 1])
  }

  lemma {:induction false} RunKeeps(ms: seq<BMD>, pres: seq<Pre>, i: nat, j: nat)
    requires IsRun(ms, pres) && i <= j < |ms|
    ensures Sound(ms[j]) && (i < j ==> ms[i].version < ms[j].version)
    decreases j
  {
    if j > 0 {
      RunKeeps(ms, pres, if i < j then i else j - 1, j - 1);
      assert Updates(pres[j - 1], ms[j - 1], ms[j]);
      UpdateKeeps(pres[j - 1], ms[j - 1]);
    }
  }

  /** No BID is ever issued twice: what a bucket that appears at some point gets is the BID
      of no bucket at any earlier point, whether that one is still there or not. */
  lemma BidsAreNeverReissued(ms: seq<BMD>, pres: seq<Pre>, i: nat, j: nat, bck: Bck)
    requires IsRun(ms, pres) && i <= j < |pres|
    requires bck in ms[j + 1].buckets && bck !in ms[j].buckets
    ensures !HasBid(ms[i], ms[j + 1].buckets[bck].bid)
  {
    RunKeeps(ms, pres, 0, i);
    RunKeeps(ms, pres, i, j);
    assert Updates(pres[j], ms[j], ms[j + 1]);
    UpdateKeeps(pres[j], ms[j]);
  }

  /** A version identifies the content. */
  lemma VersionsIdentify(ms: seq<BMD>, pres: seq<Pre>, i: nat, j: nat)
    requires IsRun(ms, pres) && i < |ms| && j < |ms| && ms[i].version == ms[j].version
    ensures ms[i] == ms[j]
  {
    if i < j { RunKeeps(ms, pres, i, j); }
    if j < i { RunKeeps(ms, pres, j, i); }
  }
}
