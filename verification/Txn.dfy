/** Bucket transactions of the primary: begin on all targets, update and publish the BMD,
    commit on all targets, and undo if the commit fails (`ais/prxtxn.go`). What the targets
    answer and whether the BMD can be saved are parameters; other transactions may be
    published between any two steps. */
module Txn {

  import opened BucketMeta
  import opened Names

  import BmdObjects

  // ----- what the targets answer ---------------------------------------------------------

  /** A target's answer: an error, or the ID of the job it is going to run. */
  datatype Reply = Reply(failed: bool, xid: string)

  predicate AnyFailed(rs: seq<Reply>) { exists i :: 0 <= i < |rs| && rs[i].failed }

  /** All job IDs from `k` on are the same. */
  predicate SameFrom(rs: seq<Reply>, k: nat) { forall i :: k <= i < |rs| ==> rs[i].xid == rs[k].xid }

  /** The first reply with a job ID, if any. */
  ghost predicate FirstNamed(rs: seq<Reply>, k: nat) {
    k <= |rs| && (k < |rs| ==> rs[k].xid != "") && forall i :: 0 <= i < k ==> rs[i].xid == ""
  }

  /** The begin phase that insists on one job ID. */
  method BeginValidateXid(rs: seq<Reply>, ghost k: nat) returns (ok: bool, xid: string)
    requires FirstNamed(rs, k)
    ensures ok <==> !AnyFailed(rs) && SameFrom(rs, k)
    ensures xid == if ok && k < |rs| then rs[k].xid else ""
  {
    xid := "";
    for i := 0 to |rs|
      invariant forall j :: 0 <= j < i ==> !rs[j].failed
      invariant if i <= k then xid == "" else xid == rs[k].xid && forall j :: k <= j < i ==> rs[j].xid == xid
    {
      if rs[i].failed { return false, ""; }
      if xid == "" {
        xid := rs[i].xid;
      } else if xid != rs[i].xid {
        return false, "";
      }
    }
    ok := true;
  }

  /** The commit phase: one job ID if the targets agree, and otherwise all of theirs, each
      once; nothing after a failure. */
  method Commit(rs: seq<Reply>, ghost k: nat) returns (xid: string, all: seq<string>, ok: bool)
    requires FirstNamed(rs, k)
    ensures ok <==> !AnyFailed(rs)
    ensures !ok ==> xid == ""
    ensures ok && SameFrom(rs, k) ==> all == [] && xid == if k < |rs| then rs[k].xid else ""
    ensures ok && !SameFrom(rs, k) ==>
              && xid == "" && Ascending(all)
              && forall x :: x in all <==> exists i :: k <= i < |rs| && rs[i].xid == x
  {
    xid, all := "", [];
    var same4all := true;
    for i := 0 to |rs|
      invariant forall j :: 0 <= j < i ==> !rs[j].failed
      invariant same4all ==> all == []
      invariant same4all ==> if i <= k then xid == ""
                             else xid == rs[k].xid && forall j :: k <= j < i ==> rs[j].xid == xid
      invariant !same4all ==> xid == "" && k < i && exists j :: k <= j < i && rs[j].xid != rs[k].xid
      invariant !same4all ==> forall x :: x in all <==> exists j :: k <= j < i && rs[j].xid == x
      invariant forall j, l :: 0 <= j < l < |all| ==> all[j] != all[l]
    {
      if rs[i].failed { return "", all, false; }
      var resId := rs[i].xid;
      if same4all {
        if xid == "" {
          xid := resId;
        } else if xid != resId {
          all := [xid, resId];
          assert rs[k].xid == all[0] && rs[i].xid == all[1];
          xid, same4all := "", false;
        }
      } else if resId !in all {
        assert rs[i].xid == resId;
        all := all + [resId];
      }
    }
    all := SortStrings(all);
    ok := true;
  }

  ghost predicate Ascending(s: seq<string>) { forall i, j :: 0 <= i < j < |s| ==> Less(s[i], s[j]) }

  /** Sorts distinct strings. */
  method SortStrings(s: seq<string>) returns (r: seq<string>)
    requires forall i, j :: 0 <= i < j < |s| ==> s[i] != s[j]
    ensures Ascending(r) && |r| == |s| && forall x :: x in r <==> x in s
  {
    r := [];
    for k := 0 to |s|
      invariant Ascending(r) && |r| == k && forall x :: x in r <==> x in s[..k]
    {
      var p := 0;
      while p < |r| && Less(r[p], s[k])
        invariant p <= |r| && forall i :: 0 <= i < p ==> Less(r[i], s[k])
      {
        p := p + 1;
      }
      InsertKeepsAscending(r, p, s[k]);
      assert s[..k + 1] == s[..k] + [s[k]];
      r := r[..p] + [s[k]] + r[p..];
    }
    assert s[..|s|] == s;
  }

  lemma InsertKeepsAscending(r: seq<string>, p: nat, x: string)
    requires Ascending(r) && p <= |r| && x !in r
    requires (forall i :: 0 <= i < p ==> Less(r[i], x)) && (p < |r| ==> !Less(r[p], x))
    ensures var n := r[..p] + [x] + r[p..]; Ascending(n) && forall y :: y in n <==> y in r || y == x
  {
    assert r == r[..p] + r[p..];
    forall i | p <= i < |r| ensures Less(x, r[i]) {
      LessTrichotomy(r[p], x);
      if i > p { LessTransitive(x, r[p], r[i]); }
    }
  }

  // ----- the owner of the BMD --------------------------------------------------------------

  datatype Outcome = Published | Failed | Terminated | Panicked

  /** The bucket is the same in both: present with the same properties, or absent. */
  ghost predicate SameBck(m: BMD, n: BMD, b: Bck) {
    (b in m.buckets <==> b in n.buckets) && (b in m.buckets ==> m.buckets[b] == n.buckets[b])
  }

  ghost predicate SameOn(keep: set<Bck>, m: BMD, n: BMD) { forall b :: b in keep ==> SameBck(m, n, b) }

  datatype Phase = Begin2PC | Commit2PC | Abort2PC

  /** The phases broadcast by a transaction: no commit unless all targets have begun and the
      BMD, if it changes, has been updated. Some transactions also abort after a failed
      commit. */
  ghost function Protocol(begun: bool, updated: bool, committed: bool, aborts: bool): seq<Phase> {
    if !begun || !updated then [Begin2PC, Abort2PC]
    else if committed || !aborts then [Begin2PC, Commit2PC]
    else [Begin2PC, Commit2PC, Abort2PC]
  }

  class Owner {
    /** The published objects, and their value. */
    var obj: BmdObjects.BucketMD
    ghost var bmd: BMD
    /** What has been broadcast to the targets. */
    ghost var sent: seq<Phase>
    /** Everything published, and by which callbacks; `own` are those of the transaction at
        hand, as opposed to the ones of others. */
    ghost var log: seq<BMD>
    ghost var pres: seq<Pre>
    ghost var own: seq<Pre>

    ghost predicate Valid()
      reads `obj, `bmd, `log, `pres, obj, obj.buckets.Values
    {
      IsRun(log, pres) && log[|log| - 1] == bmd == obj.View()
    }

    constructor (obj: BmdObjects.BucketMD)
      requires Sound(obj.View())
      ensures Valid() && this.obj == obj && own == [] && sent == []
    {
      this.obj, bmd, log, pres, own, sent := obj, obj.View(), [obj.View()], [], [], [];
    }

    lemma PublishedIsSound()
      requires Valid()
      ensures Sound(bmd)
    {
      RunKeeps(log, pres, 0, |log| - 1);
    }

    /** Clone, update, save, publish. Only the reference to the published metadata changes:
        whoever holds earlier metadata sees it unchanged for ever. Nothing is published
        unless the callback changes something and the result can be saved. */
    method Modify(pre: Pre, persists: bool, ghost isOwn: bool) returns (res: Outcome)
      requires Valid()
      modifies `obj, `bmd, `log, `pres, `own
      ensures Valid()
      ensures res == match Run(pre, old(bmd)) {
                       case Err => Failed
                       case Terminate => Terminated
                       case Panic => Panicked
                       case Updated(_) => if persists then Published else Failed
                     }
      ensures if res == Published then Run(pre, old(bmd)) == Updated(bmd) && fresh(obj) && fresh(obj.buckets.Values)
              else bmd == old(bmd) && obj == old(obj)
      ensures own == old(own) + if res == Published && isOwn then [pre] else []
    {
      var clone, kind := Prepare(pre);
      match kind
      case Failed => res := Failed;
      case Terminated => res := Terminated;
      case Panicked => res := Panicked;
      case Changed =>
        if !persists { return Failed; }
        ghost var next := clone.View();
        assert Updates(pre, bmd, next);
        ExtendRun(log, pres, pre, next);
        obj, bmd, log, pres := clone, next, log + [next], pres + [pre];
        own := own + if isOwn then [pre] else [];
        res := Published;
    }

    method Prepare(pre: Pre) returns (clone: BmdObjects.BucketMD, kind: BmdObjects.Kind)
      requires Valid()
      ensures fresh(clone) && fresh(clone.buckets.Values) && kind == BmdObjects.KindOf(Run(pre, bmd))
      ensures kind == BmdObjects.Changed ==> Run(pre, bmd) == Updated(clone.View())
    {
      clone := obj.Clone();
      kind := clone.RunPre(pre);
    }

    /** Whether the bucket is there. */
    predicate Present(b: Bck)
      reads `obj, obj
    {
      b in obj.buckets
    }

    /** Any number of transactions of others, on buckets other than `keep`. */
    method Others(keep: set<Bck>)
      requires Valid()
      modifies `obj, `bmd, `log, `pres, `own
      ensures Valid() && own == old(own) && SameOn(keep, old(bmd), bmd) && old(bmd).version <= bmd.version
    {
      var n: nat :| n >= 0;
      for i := 0 to n
        invariant Valid() && own == old(own) && SameOn(keep, old(bmd), bmd) && old(bmd).version <= bmd.version
      {
        PublishedIsSound();
        var pre: Pre, persists: bool := *, *;
        ghost var before := bmd;
        if Touched(pre) !! keep {
          var res := Modify(pre, persists, false);
          if res == Published { UpdateKeeps(pre, before); }
        }
      }
    }

    // ----- transactions

    /** The begin phase: one failed target aborts it. */
    method Begin(rs: seq<Reply>) returns (ok: bool)
      modifies `sent
      ensures ok <==> !AnyFailed(rs)
      ensures sent == old(sent) + if ok then [Begin2PC] else [Begin2PC, Abort2PC]
    {
      sent := sent + [Begin2PC];
      for i := 0 to |rs|
        invariant forall j :: 0 <= j < i ==> !rs[j].failed
        invariant sent == old(sent) + [Begin2PC]
      {
        if rs[i].failed {
          BcastAbort();
          return false;
        }
      }
      ok := true;
    }

    method CommitPhase(rs: seq<Reply>) returns (ok: bool)
      modifies `sent
      ensures ok <==> !AnyFailed(rs)
      ensures sent == old(sent) + [Commit2PC]
    {
      sent := sent + [Commit2PC];
      ghost var k :| FirstNamed(rs, k) by { var k := FirstNamedExists(rs, 0); }
      var xid, all;
      xid, all, ok := Commit(rs, k);
    }

    method BcastAbort()
      modifies `sent
      ensures sent == old(sent) + [Abort2PC]
    {
      sent := sent + [Abort2PC];
    }

    /** Begin on the targets, update the BMD, and abort if that fails; others are at work on
        buckets other than `keep`. `mid` is what the update found. */
    method BeginUpdate(pre: Pre, keep: set<Bck>, begin: seq<Reply>, saved: bool) returns (updated: bool, ghost mid: BMD)
      requires Valid()
      modifies this
      ensures Valid() && SameOn(keep, old(bmd), mid) && Sound(mid) && old(bmd).version <= mid.version
      ensures updated <==> !AnyFailed(begin) && Run(pre, mid).Updated? && saved
      ensures if updated then Run(pre, mid) == Updated(bmd) else bmd == mid
      ensures own == old(own) + if updated then [pre] else []
      ensures sent == old(sent) + if updated then [Begin2PC] else [Begin2PC, Abort2PC]
    {
      mid := bmd;
      PublishedIsSound();
      updated := Begin(begin);
      if !updated { return; }
      Others(keep);
      PublishedIsSound();
      mid := bmd;
      var res := Modify(pre, saved, true);
      updated := res == Published;
      if !updated { BcastAbort(); }
    }

    /** The steps that all transactions share: begin, update, commit. `next` is what the
        update made of `mid`, and `aborts` says whether a failed commit is followed by an
        abort. */
    method TwoPhase(pre: Pre, keep: set<Bck>, begin: seq<Reply>, saved: bool, commit: seq<Reply>, aborts: bool)
      returns (updated: bool, ok: bool, ghost mid: BMD, ghost next: BMD)
      requires Valid()
      modifies this
      ensures Valid() && SameOn(keep, old(bmd), mid) && Sound(mid) && old(bmd).version <= mid.version
      ensures updated <==> !AnyFailed(begin) && Run(pre, mid).Updated? && saved
      ensures SameOn(keep, next, bmd) && if updated then Run(pre, mid) == Updated(next) else next == mid
      ensures ok <==> updated && !AnyFailed(commit)
      ensures own == old(own) + if updated then [pre] else []
      ensures sent == old(sent) + Protocol(!AnyFailed(begin), updated, !AnyFailed(commit), aborts)
    {
      updated, mid := BeginUpdate(pre, keep, begin, saved);
      next, ok := bmd, false;
      if updated {
        Others(keep);
        ok := CommitPhase(commit);
        if !ok && aborts { BcastAbort(); }
      }
    }

    /** Create a bucket. The bucket is there in the end exactly if it was there before, or
        was added and not taken back; it is taken back after a failed commit, provided that
        can be saved. Targets are not told to abort then. */
    method CreateBucket(bck: Bck, props: Props, begin: seq<Reply>, saved: bool, commit: seq<Reply>, undone: bool)
      returns (ok: bool)
      requires Valid()
      modifies this
      ensures Valid()
      ensures var isNew, begun, committed := bck !in old(bmd).buckets, !AnyFailed(begin), !AnyFailed(commit);
              && (ok <==> isNew && begun && saved && committed)
              && (bck in bmd.buckets <==> !isNew || (begun && saved && (committed || !undone)))
              && (!isNew ==> SameBck(old(bmd), bmd, bck))
              && (isNew && bck in bmd.buckets ==> IsNew(old(bmd), bmd, bck, props))
              && own == old(own)
                        + (if isNew && begun && saved then [Create(bck, props)] else [])
                        + (if isNew && begun && saved && !committed && undone then [Rm(bck)] else [])
              && sent == old(sent) + if isNew then Protocol(begun, saved, committed, false) else []
    {
      if Present(bck) { return false; }
      var updated;
      ghost var mid, next;
      updated, ok, mid, next := TwoPhase(Create(bck, props), {bck}, begin, saved, commit, false);
      if updated && !ok { var _ := Modify(Rm(bck), undone, true); }
    }

    /** Destroy a bucket, while others leave `keep` alone. Only the begin phase and saving
        the BMD decide whether it goes. */
    method DestroyBucket(bck: Bck, keep: set<Bck>, begin: seq<Reply>, saved: bool, commit: seq<Reply>)
      returns (ok: bool)
      requires Valid() && bck !in keep
      modifies this
      ensures Valid() && SameOn(keep, old(bmd), bmd)
      ensures var present, begun, committed := bck in old(bmd).buckets, !AnyFailed(begin), !AnyFailed(commit);
              && (ok <==> present && begun && saved && committed)
              && (bck in bmd.buckets <==> present && !(begun && saved))
              && (bck in bmd.buckets ==> SameBck(old(bmd), bmd, bck))
              && own == old(own) + (if present && begun && saved then [Rm(bck)] else [])
              && sent == old(sent) + Protocol(begun, present && saved, committed, true)
    {
      var updated;
      ghost var mid, next;
      updated, ok, mid, next := TwoPhase(Rm(bck), keep + {bck}, begin, saved, commit, true);
      assert forall b :: b in keep ==> b in keep + {bck};
    }

    /** Change the number of copies. A failed commit restores the mirroring properties,
        provided that can be saved; nothing else of the bucket ever changes. */
    method MakeNCopies(bck: Bck, copies: int, begin: seq<Reply>, saved: bool, commit: seq<Reply>, undone: bool)
      returns (ok: bool)
      requires Valid()
      modifies this
      ensures Valid()
      ensures var present, begun, committed := bck in old(bmd).buckets, !AnyFailed(begin), !AnyFailed(commit);
              && (ok <==> present && begun && saved && committed)
              && (bck in bmd.buckets <==> present)
              && (present ==>
                    bmd.buckets[bck] ==
                    if begun && saved && (committed || !undone)
                    then old(bmd).buckets[bck].(copies := copies, mirrored := copies > 1)
                    else old(bmd).buckets[bck])
              && sent == old(sent) + if present then Protocol(begun, saved, committed, true) else []
    {
      if !Present(bck) { return false; }
      var revert := obj.buckets[bck].value;
      var updated;
      ghost var mid, next;
      updated, ok, mid, next := TwoPhase(Mirror(bck, copies), {bck}, begin, saved, commit, true);
      if updated && !ok { var _ := Modify(UpdateCopies(bck, revert.copies, revert.mirrored), undone, true); }
    }

    /** Set the properties. A failed commit does not bring the old ones back: they are the
        new ones as soon as the targets have begun and the BMD is saved. The BID stays. */
    method SetBprops(bck: Bck, props: Props, begin: seq<Reply>, saved: bool, commit: seq<Reply>) returns (ok: bool)
      requires Valid()
      modifies this
      ensures Valid()
      ensures var present, begun, committed := bck in old(bmd).buckets, !AnyFailed(begin), !AnyFailed(commit);
              && (ok <==> present && begun && saved && committed)
              && (bck in bmd.buckets <==> present)
              && (present ==>
                    bmd.buckets[bck] ==
                    if begun && saved then props.(bid := old(bmd).buckets[bck].bid) else old(bmd).buckets[bck])
              && sent == old(sent) + if present then Protocol(begun, saved, committed, true) else []
    {
      if !Present(bck) { return false; }
      var updated;
      ghost var mid, next;
      updated, ok, mid, next := TwoPhase(SetProps(bck, props), {bck}, begin, saved, commit, true);
    }

    /** Rename a bucket: the old one is marked and keeps its BID, the new one gets the
        properties and a BID of its own; a failed commit leaves both in place. */
    method RenameBucket(from: Bck, to: Bck, begin: seq<Reply>, saved: bool, commit: seq<Reply>) returns (ok: bool)
      requires Valid()
      modifies this
      ensures Valid()
      ensures var able := from in old(bmd).buckets && to !in old(bmd).buckets;
              var begun, committed := !AnyFailed(begin), !AnyFailed(commit);
              && (ok <==> able && begun && saved && committed)
              && (if !(able && begun && saved) then SameBck(old(bmd), bmd, from) && SameBck(old(bmd), bmd, to)
                  else
                    && from in bmd.buckets && bmd.buckets[from] == old(bmd).buckets[from].(renamed := true)
                    && IsNew(old(bmd), bmd, to, old(bmd).buckets[from]))
              && sent == old(sent) + if able then Protocol(begun, saved, committed, true) else []
    {
      if !Present(from) { return false; }
      if Present(to) { return false; }
      var updated;
      ghost var mid, next;
      updated, ok, mid, next := TwoPhase(Mv(from, to), {from, to}, begin, saved, commit, true);
    }

    /** Copy or transform a bucket, creating the destination if need be. `rival` says that
        somebody else creates the destination after its absence has been noticed. A
        destination that was there before is left alone. One that this transaction has
        created is removed after a failed commit, provided that the removal can begin and
        be saved. A dry run creates nothing, and yet, if its commit fails, it removes the
        rival's bucket. */
    method CopyBucket(from: Bck, to: Bck, inherited: Props, dryRun: bool, rival: bool, rivalProps: Props,
                      begin: seq<Reply>, saved: bool, commit: seq<Reply>,
                      rmBegin: seq<Reply>, rmSaved: bool, rmCommit: seq<Reply>) returns (ok: bool)
      requires Valid()
      modifies this
      ensures Valid()
      ensures var source, existed := from in old(bmd).buckets, to in old(bmd).buckets;
              var begun, committed, removed := !AnyFailed(begin), !AnyFailed(commit), !AnyFailed(rmBegin) && rmSaved;
              var rivaled := source && !existed && rival;
              var created := source && !existed && !rival && begun && !dryRun && saved;
              && (ok <==> source && begun && committed && (created || existed || rivaled || dryRun))
              && SameBck(old(bmd), bmd, from)
              && (existed ==> SameBck(old(bmd), bmd, to))
              && (created ==> (to in bmd.buckets <==> committed || !removed))
              && (created && to in bmd.buckets ==>
                    IsNew(old(bmd), bmd, to, if from.isAis then old(bmd).buckets[from] else inherited))
              && (rivaled ==> (to !in bmd.buckets <==> dryRun && begun && !committed && removed))
              && (!existed && !created && !rivaled ==> to !in bmd.buckets)
              && (source ==>
                    old(sent) + Protocol(begun, created || existed || rivaled || dryRun, committed, true) <= sent)
    {
      if !Present(from) { return false; }
      var existsTo;
      ok, existsTo := BeginCopy(from, to, inherited, dryRun, rival, rivalProps, begin, saved);
      if !ok { return false; }
      ok := CommitCopy(from, to, existsTo, commit, rmBegin, rmSaved, rmCommit);
    }

    /** Whether the destination is there, and what may happen to it next. */
    method LookUp(from: Bck, to: Bck, rival: bool, rivalProps: Props) returns (existsTo: bool)
      requires Valid() && from in bmd.buckets
      modifies `obj, `bmd, `log, `pres, `own
      ensures Valid() && SameBck(old(bmd), bmd, from) && old(bmd).version <= bmd.version
      ensures existsTo <==> to in old(bmd).buckets
      ensures if existsTo then SameBck(old(bmd), bmd, to) else to in bmd.buckets <==> rival
    {
      existsTo := Present(to);
      Others({from, to});
      if rival && !existsTo { var _ := Modify(Create(to, rivalProps), true, false); }
    }

    /** The begin phase of a copy, and the creation of its destination. `existsTo` in the end
        says that the destination was there before, or that its creation found it there. */
    method BeginCopy(from: Bck, to: Bck, inherited: Props, dryRun: bool, rival: bool, rivalProps: Props,
                     begin: seq<Reply>, saved: bool) returns (ok: bool, existsTo: bool)
      requires Valid() && from in bmd.buckets
      modifies this
      ensures Valid() && SameBck(old(bmd), bmd, from)
      ensures var existed, begun := to in old(bmd).buckets, !AnyFailed(begin);
              var creates := !existed && !rival && !dryRun;
              && (ok <==> begun && (creates ==> saved))
              && (existed ==> SameBck(old(bmd), bmd, to))
              && (!existed ==> (to in bmd.buckets <==> rival || (creates && ok)))
              && (creates && ok ==>
                    IsNew(old(bmd), bmd, to, if from.isAis then old(bmd).buckets[from] else inherited))
              && (ok ==> (existsTo <==> existed || (rival && !dryRun)))
              && sent == old(sent) + if ok then [Begin2PC] else [Begin2PC, Abort2PC]
    {
      existsTo := LookUp(from, to, rival, rivalProps);
      ok := Begin(begin);
      if !ok { return; }
      Others({from, to});
      if !dryRun && !existsTo {
        var res := Modify(CpProps(from, to, inherited), saved, true);
        if res == Failed {
          BcastAbort();
          return false, existsTo;
        }
        existsTo := res == Terminated;
      }
    }

    /** The last phase of a copy, and the removal of its destination if that fails. */
    method CommitCopy(from: Bck, to: Bck, existsTo: bool, commit: seq<Reply>,
                      rmBegin: seq<Reply>, rmSaved: bool, rmCommit: seq<Reply>) returns (ok: bool)
      requires Valid() && (from == to ==> existsTo)
      modifies this
      ensures Valid() && SameBck(old(bmd), bmd, from)
      ensures ok <==> !AnyFailed(commit)
      ensures if !ok && !existsTo && !AnyFailed(rmBegin) && rmSaved then to !in bmd.buckets
              else SameBck(old(bmd), bmd, to)
      ensures old(sent) + (if ok then [Commit2PC] else [Commit2PC, Abort2PC]) <= sent
    {
      Others({from, to});
      ok := CommitPhase(commit);
      if !ok {
        BcastAbort();
        if !existsTo { var _ := DestroyBucket(to, {from}, rmBegin, rmSaved, rmCommit); }
      }
    }
  }

  lemma FirstNamedExists(rs: seq<Reply>, n: nat) returns (k: nat)
    requires n <= |rs| && forall i :: 0 <= i < n ==> rs[i].xid == ""
    ensures FirstNamed(rs, k)
    decreases |rs| - n
  {
    if n == |rs| || rs[n].xid != "" { return n; }
    k := FirstNamedExists(rs, n + 1);
  }

  lemma ExtendRun(log: seq<BMD>, pres: seq<Pre>, pre: Pre, next: BMD)
    requires IsRun(log, pres) && Updates(pre, log[|log| - 1], next)
    ensures IsRun(log + [next], pres + [pre])
  {
  }
}
