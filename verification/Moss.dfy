/** Scanning a multi-object request: the buckets it refers to, and the designated target
    that owns most of its objects (`ais/pmoss_scan.go`). */
module Moss {

  import opened Basics

  type BckName = string
  type TargetId = string

  /** One requested object: its bucket, if named, and the target that owns it, if there is
      any in the cluster map. */
  datatype Item = Item(bck: Option<BckName>, owner: Option<TargetId>)

  function BckOf(it: Item, dflt: Option<BckName>): Option<BckName> {
    if it.bck.Some? then it.bck else dflt
  }

  /** The item is in the bucket: it names it, or names none and this is the default. */
  ghost predicate Refers(it: Item, dflt: Option<BckName>, b: BckName) {
    it.bck == Some(b) || (it.bck == None && dflt == Some(b))
  }

  /** The scan gets past the item. */
  ghost predicate Passes(it: Item, dflt: Option<BckName>, coloc: bool) {
    (it.bck == None ==> dflt != None) && (coloc ==> it.owner != None)
  }

  function Owned(items: seq<Item>, n: nat, t: TargetId): nat
    requires n <= |items|
  {
    if n == 0 then 0 else Owned(items, n - 1, t) + if items[n - 1].owner == Some(t) then 1 else 0
  }

  /** The buckets of the first `n` items, each where it is first referred to. */
  function Buckets(items: seq<Item>, n: nat, dflt: Option<BckName>): seq<BckName>
    requires n <= |items|
  {
    if n == 0 then []
    else
      var before := Buckets(items, n - 1, dflt);
      var bck := BckOf(items[n - 1], dflt);
      if bck.None? || bck.value in before then before else before + [bck.value]
  }

  /** One of the first `n` items is in the bucket. */
  ghost predicate RefersUpTo(items: seq<Item>, n: nat, dflt: Option<BckName>, b: BckName)
    requires n <= |items|
  {
    exists i :: 0 <= i < n && Refers(items[i], dflt, b)
  }

  /** The first reference to `x` comes before any to `y`. */
  ghost predicate RefersFirst(items: seq<Item>, n: nat, dflt: Option<BckName>, x: BckName, y: BckName)
    requires n <= |items|
  {
    exists k :: 0 <= k <= n && RefersUpTo(items, k, dflt, x) && !RefersUpTo(items, k, dflt, y)
  }

  lemma RefersMore(items: seq<Item>, n: nat, dflt: Option<BckName>, b: BckName)
    requires 0 < n <= |items|
    ensures RefersUpTo(items, n, dflt, b) <==>
            RefersUpTo(items, n - 1, dflt, b) || BckOf(items[n - 1], dflt) == Some(b)
  {
  }

  /** The buckets are those referred to, each once, in the order of their first references. */
  lemma {:induction false} BucketsAre(items: seq<Item>, n: nat, dflt: Option<BckName>)
    requires n <= |items|
    ensures var bs := Buckets(items, n, dflt);
            && (forall b :: b in bs <==> RefersUpTo(items, n, dflt, b))
            && (forall i, j :: 0 <= i < j < |bs| ==> bs[i] != bs[j] && RefersFirst(items, n, dflt, bs[i], bs[j]))
  {
    if n > 0 {
      BucketsAre(items, n - 1, dflt);
      var before, bs := Buckets(items, n - 1, dflt), Buckets(items, n, dflt);
      forall b ensures b in bs <==> RefersUpTo(items, n, dflt, b) { RefersMore(items, n, dflt, b); }
      forall i, j | 0 <= i < j < |bs| ensures bs[i] != bs[j] && RefersFirst(items, n, dflt, bs[i], bs[j]) {
        assert bs[i] == before[i];
        if j < |before| {
          assert RefersFirst(items, n - 1, dflt, before[i], before[j]);
        } else {
          assert before[i] in before && bs[j] !in before;
          assert RefersUpTo(items, n - 1, dflt, before[i]) && !RefersUpTo(items, n - 1, dflt, bs[j]);
        }
      }
    }
  }

  /** `t` owns the most, and had that many before any other did. */
  ghost predicate Leads(items: seq<Item>, n: nat, t: TargetId)
    requires n <= |items|
  {
    && Owned(items, n, t) > 0
    && forall u :: u != t ==>
         && Owned(items, n, u) <= Owned(items, n, t)
         && exists j :: (0 <= j <= n && Owned(items, j, t) == Owned(items, n, t)
                         && Owned(items, j, u) < Owned(items, j, t))
  }

  /** The running selection. Counters per target are kept only once there are two targets. */
  datatype Selection = Selection(single: Option<TargetId>, scores: Option<map<TargetId, nat>>, dt: TargetId, score: nat)

  ghost predicate Counts(items: seq<Item>, n: nat, s: Selection)
    requires n <= |items|
  {
    if s.scores.Some? then forall u :: Owned(items, n, u) == if u in s.scores.value then s.scores.value[u] else 0
    else forall u :: Owned(items, n, u) == if s.single == Some(u) then s.score else 0
  }

  ghost predicate Tracks(items: seq<Item>, n: nat, s: Selection)
    requires n <= |items|
  {
    && Counts(items, n, s) && s.score == Owned(items, n, s.dt)
    && (s.single.None? ==> n == 0 && s.scores.None?)
    && (s.single.Some? ==> Leads(items, n, s.dt) && (s.scores.None? ==> s.single.value == s.dt))
  }

  function Selecting(s: Selection, t: TargetId): Selection {
    if s.single.None? then Selection(Some(t), s.scores, t, 1)
    else if s.single.value == t && s.scores.None? then s.(score := s.score + 1)
    else
      var scores := if s.scores.Some? then s.scores.value else map[s.single.value := s.score];
      var mine := (if t in scores then scores[t] else 0) + 1;
      var next := scores[t := mine];
      if s.score < mine then Selection(s.single, Some(next), t, mine) else s.(scores := Some(next))
  }

  lemma SelectTracks(items: seq<Item>, n: nat, s: Selection)
    requires n < |items| && Tracks(items, n, s) && items[n].owner.Some?
    ensures Tracks(items, n + 1, Selecting(s, items[n].owner.value))
  {
  }

  function SelectAll(items: seq<Item>, n: nat): Selection
    requires n <= |items|
  {
    if n == 0 then Selection(None, None, "", 0)
    else if items[n - 1].owner.None? then SelectAll(items, n - 1)
    else Selecting(SelectAll(items, n - 1), items[n - 1].owner.value)
  }

  ghost predicate AllOwned(items: seq<Item>, n: nat)
    requires n <= |items|
  {
    forall i :: 0 <= i < n ==> items[i].owner.Some?
  }

  lemma {:induction false} SelectAllTracks(items: seq<Item>, n: nat)
    requires n <= |items| && AllOwned(items, n)
    ensures Tracks(items, n, SelectAll(items, n)) && (n > 0 ==> SelectAll(items, n).single.Some?)
  {
    if n > 0 {
      SelectAllTracks(items, n - 1);
      SelectTracks(items, n - 1, SelectAll(items, n - 1));
    }
  }

  /** The designated target owns the most objects of the request, and is the first to do so
      in the order of the request; its score is how many. */
  lemma SelectionLeads(items: seq<Item>)
    requires items != [] && AllOwned(items, |items|)
    ensures Leads(items, |items|, SelectAll(items, |items|).dt)
    ensures SelectAll(items, |items|).score == Owned(items, |items|, SelectAll(items, |items|).dt)
  {
    SelectAllTracks(items, |items|);
  }

  datatype Scanned = Failed | Scanned(bcks: seq<BckName>, dt: Option<TargetId>)

  class ScanCtx {
    const dflt: Option<BckName>
    const coloc: bool
    var num: nat
    var bcks: seq<BckName>
    var single: Option<TargetId>
    var scores: Option<map<TargetId, nat>>
    var dtid: TargetId
    var score: nat

    constructor (dflt: Option<BckName>, coloc: bool)
      ensures this.dflt == dflt && this.coloc == coloc && num == 0 && bcks == []
      ensures Sel() == Selection(None, None, "", 0)
    {
      this.dflt, this.coloc, num, bcks := dflt, coloc, 0, [];
      single, scores, dtid, score := None, None, "", 0;
    }

    ghost function Sel(): Selection
      reads this
    {
      Selection(single, scores, dtid, score)
    }

    /** Updates the selection with the owner of one more item. */
    method SelectDT(tid: TargetId)
      modifies `single, `scores, `dtid, `score
      ensures Sel() == Selecting(old(Sel()), tid)
    {
      if single.None? {
        single, dtid, score := Some(tid), tid, 1;
      } else if single.value == tid && scores.None? {
        score := score + 1;
      } else {
        var counts := if scores.Some? then scores.value else map[single.value := score];
        counts := counts[tid := (if tid in counts then counts[tid] else 0) + 1];
        scores := Some(counts);
        if score < counts[tid] { score, dtid := counts[tid], tid; }
      }
    }

    /** One item of the request. */
    method OnEntry(it: Item) returns (ok: bool)
      modifies this
      ensures ok == Passes(it, dflt, coloc) && num == old(num) + 1
      ensures ok ==> bcks == old(bcks) + if BckOf(it, dflt).value in old(bcks) then [] else [BckOf(it, dflt).value]
      ensures ok ==> Sel() == if coloc then Selecting(old(Sel()), it.owner.value) else old(Sel())
    {
      num := num + 1;
      var bck := BckOf(it, dflt);
      if bck.None? { return false; }
      if bck.value !in bcks { bcks := bcks + [bck.value]; }
      if coloc {
        if it.owner.None? { return false; }
        SelectDT(it.owner.value);
      }
      ok := true;
    }
  }

  /** The whole scan. It fails on an empty request, on an item without a bucket and, with
      colocation, on one without an owner. Otherwise the selection is that of a plain count
      per target: the designated target has the highest count and was the first to have it. */
  method Scan(items: seq<Item>, dflt: Option<BckName>, coloc: bool) returns (r: Scanned)
    ensures r.Failed? <==> items == [] || exists i :: 0 <= i < |items| && !Passes(items[i], dflt, coloc)
    ensures r.Scanned? ==> r.bcks == Buckets(items, |items|, dflt)
    ensures r.Scanned? ==> if coloc then r.dt.Some? && Leads(items, |items|, r.dt.value) else r.dt.None?
  {
    var ctx := new ScanCtx(dflt, coloc);
    for i := 0 to |items|
      invariant fresh(ctx) && ctx.dflt == dflt && ctx.coloc == coloc && ctx.num == i
      invariant forall k :: 0 <= k < i ==> Passes(items[k], dflt, coloc)
      invariant ctx.bcks == Buckets(items, i, dflt)
      invariant coloc ==> ctx.Sel() == SelectAll(items, i)
    {
      var ok := ctx.OnEntry(items[i]);
      if !ok { return Failed; }
    }
    if ctx.num == 0 { return Failed; }
    if coloc { SelectionLeads(items); }
    r := Scanned(ctx.bcks, if coloc then Some(ctx.dtid) else None);
  }
}
