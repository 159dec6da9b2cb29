/** Bucket metadata as the primary holds it: objects, deeply cloned before every update and
    shared with readers once published (`ais/bucketmeta.go`). */
module BmdObjects {

  import opened BucketMeta

  class Bprops {
    var value: Props

    constructor (value: Props)
      ensures this.value == value
    {
      this.value := value;
    }
  }

  type Buckets = map<Bck, Bprops>

  function Values(buckets: Buckets): map<Bck, Props>
    reads buckets.Values
  {
    map b | b in buckets :: buckets[b].value
  }

  lemma ValuesUpdate(buckets: Buckets, b: Bck, p: Bprops)
    ensures Values(buckets[b := p]) == Values(buckets)[b := p.value]
    ensures buckets[b := p].Values <= buckets.Values + {p}
  {
    var next := buckets[b := p];
    forall k | k in next ensures next[k] in buckets.Values + {p} {
      if k != b { assert k in buckets; }
    }
  }

  lemma ValuesRemove(buckets: Buckets, b: Bck)
    ensures Values(buckets - {b}) == Values(buckets) - {b}
    ensures (buckets - {b}).Values <= buckets.Values
  {
  }

  datatype Kind = Failed | Terminated | Panicked | Changed

  function KindOf(r: Result): Kind {
    match r
    case Err => Failed
    case Terminate => Terminated
    case Panic => Panicked
    case Updated(_) => Changed
  }

  class BucketMD {
    var version: nat
    var buckets: Buckets

    constructor (version: nat, buckets: Buckets)
      ensures this.version == version && this.buckets == buckets
    {
      this.version, this.buckets := version, buckets;
    }

    /** The metadata as a value. */
    function View(): BMD
      reads this, buckets.Values
    {
      BMD(version, Values(buckets))
    }

    method Add(bck: Bck, p: Props) returns (added: bool)
      modifies this
      ensures added == (bck !in old(buckets)) && fresh(buckets.Values - old(buckets.Values))
      ensures View() == if added then old(View()).Add(bck, p) else old(View())
    {
      if bck in buckets { return false; }
      if version == 0 { version := 1; }
      var props := new Bprops(p.(bid := Bid(version, bck.isAis)));
      ValuesUpdate(buckets, bck, props);
      buckets := buckets[bck := props];
      version := version + 1;
      added := true;
      assert Values(buckets) == old(Values(buckets))[bck := props.value];
    }

    method Del(bck: Bck) returns (deleted: bool)
      modifies this
      ensures deleted == (bck in old(buckets)) && buckets.Values <= old(buckets.Values)
      ensures View() == if deleted then old(View()).Del(bck) else old(View())
    {
      if bck !in buckets { return false; }
      ValuesRemove(buckets, bck);
      buckets := buckets - {bck};
      version := version + 1;
      deleted := true;
      assert Values(buckets) == old(Values(buckets)) - {bck};
    }

    /** The BID stays. */
    method Set(bck: Bck, p: Props)
      requires bck in buckets
      modifies this
      ensures fresh(buckets.Values - old(buckets.Values))
      ensures View() == old(View()).Set(bck, p)
    {
      var props := new Bprops(p.(bid := buckets[bck].value.bid));
      ValuesUpdate(buckets, bck, props);
      buckets := buckets[bck := props];
      version := version + 1;
      assert Values(buckets) == old(Values(buckets))[bck := props.value];
    }

    /** A deep copy: nothing of it is shared with the original. */
    method Clone() returns (dst: BucketMD)
      ensures fresh(dst) && fresh(dst.buckets.Values) && dst.View() == View()
    {
      var copy: Buckets := map[];
      var left := buckets.Keys;
      while left != {}
        invariant left <= buckets.Keys && copy.Keys == buckets.Keys - left
        invariant forall b :: b in copy ==> fresh(copy[b]) && copy[b].value == buckets[b].value
        decreases left
      {
        var b :| b in left;
        var props := new Bprops(buckets[b].value);
        copy := copy[b := props];
        left := left - {b};
      }
      dst := new BucketMD(version, copy);
    }

    /** The callbacks, run on a clone. */
    method RunPre(pre: Pre) returns (k: Kind)
      modifies this
      ensures k == KindOf(Run(pre, old(View()))) && fresh(buckets.Values - old(buckets.Values))
      ensures if k == Changed then Run(pre, old(View())) == Updated(View()) else View() == old(View())
    {
      match pre {
        case Create(bck, p) =>
          var added := Add(bck, p);
          k := if added then Changed else Failed;
        case Rm(bck) =>
          var deleted := Del(bck);
          k := if deleted then Changed else Failed;
        case Mirror(bck, n) =>
          if bck !in buckets { return Panicked; }
          Set(bck, buckets[bck].value.(copies := n, mirrored := n > 1));
          k := Changed;
        case SetProps(bck, p) =>
          if bck !in buckets { return Panicked; }
          Set(bck, p);
          k := Changed;
        case Mv(from, to) =>
          k := Move(from, to);
        case CpProps(from, to, inherited) =>
          if to in buckets { return Terminated; }
          if from !in buckets { return Panicked; }
          var _ := Add(to, if from.isAis then buckets[from].value else inherited);
          k := Changed;
        case UpdateCopies(bck, n, mirrored) =>
          if bck !in buckets { return Terminated; }
          Set(bck, buckets[bck].value.(copies := n, mirrored := mirrored));
          k := Changed;
      }
    }

    method Move(from: Bck, to: Bck) returns (k: Kind)
      modifies this
      ensures k == KindOf(Run(Mv(from, to), old(View()))) && fresh(buckets.Values - old(buckets.Values))
      ensures if k == Changed then Run(Mv(from, to), old(View())) == Updated(View()) else View() == old(View())
    {
      if from !in buckets { return Panicked; }
      var p := buckets[from].value;
      var _ := Add(to, p);
      assert from in View().buckets;
      Set(from, p.(renamed := true));
      k := Changed;
    }
  }
}
