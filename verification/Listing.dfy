/** Paged list-objects: every target lists its own inventory after a continuation
    token; the proxy merges the replies into one page and picks the next token
    (`ais/plstcx.go`); `lsAllPagesS3` drives the pages until the token is empty. */
module Listing {
  import opened Names

  /** One listed name: an object, or a virtual directory in a non-recursive listing.
      `status` is the location status of the copy, `attrs` all its other properties. */
  datatype Entry = Entry(name: string, isDir: bool, status: nat, attrs: int)

  /** A list-objects response: the entries and the token to continue from. */
  datatype Page = Page(entries: seq<Entry>, token: string)

  // ----- sorting ------------------------------------------------------------

  /** The default entry order: directories first, then by name, then by status. */
  predicate EntryLess(a: Entry, b: Entry) {
    if a.isDir then b.isDir ==> Less(a.name, b.name)
    else !b.isDir && (if a.name == b.name then a.status < b.status else Less(a.name, b.name))
  }

  /** The order each listing mode sorts by: by name first when not recursive. */
  predicate Before(noRecursion: bool, a: Entry, b: Entry) {
    if noRecursion && a.name != b.name then Less(a.name, b.name) else EntryLess(a, b)
  }

  ghost predicate SortedBy(noRecursion: bool, s: seq<Entry>) {
    forall i, j :: 0 <= i < j < |s| ==> !Before(noRecursion, s[j], s[i])
  }

  ghost predicate NameSorted(s: seq<Entry>) {
    forall i, j :: 0 <= i < j < |s| ==> AtMost(s[i].name, s[j].name)
  }

  ghost predicate StrictlySorted(s: seq<Entry>) {
    forall i, j :: 0 <= i < j < |s| ==> Less(s[i].name, s[j].name)
  }

  ghost predicate NoDirs(s: seq<Entry>) {
    forall i :: 0 <= i < |s| ==> !s[i].isDir
  }

  /** Of two entries with one name, `a` is as good as `b`: a directory goes first, and of
      objects the one with the lower status. */
  ghost predicate AsGood(a: Entry, b: Entry) { a.isDir || (!b.isDir && a.status <= b.status) }

  /** What a listing mode promises of its order: by name when not recursive; otherwise
      directories first, and by name within each group; the best first of one name. */
  ghost predicate InOrder(noRecursion: bool, s: seq<Entry>) {
    forall i, j :: 0 <= i < j < |s| ==>
      if s[i].name == s[j].name then AsGood(s[i], s[j])
      else if noRecursion || s[i].isDir == s[j].isDir then Less(s[i].name, s[j].name)
      else s[i].isDir
  }

  lemma SameNameOrder(a: Entry, b: Entry)
    requires a.name == b.name
    ensures EntryLess(a, b) <==> !AsGood(b, a)
  {
    LessTrichotomy(a.name, b.name);
  }

  /** Sorting by comparison gives that order, and nothing else does. */
  lemma SortedMeansInOrder(noRecursion: bool, s: seq<Entry>)
    ensures SortedBy(noRecursion, s) <==> InOrder(noRecursion, s)
  {
    LessIsTotalOrder();
  }

  lemma NotBeforeTransitive(noRecursion: bool, a: Entry, b: Entry, c: Entry)
    requires !Before(noRecursion, b, a) && !Before(noRecursion, c, b)
    ensures !Before(noRecursion, c, a)
  {
    LessIsTotalOrder();
  }

  /** Sorting keeps the entries, as a multiset, and orders them; the order of
      entries that compare equal is not specified. */
  method SortLso(entries: seq<Entry>, noRecursion: bool) returns (r: seq<Entry>)
    ensures multiset(r) == multiset(entries)
    ensures SortedBy(noRecursion, r) && InOrder(noRecursion, r)
  {
    r := [];
    for n := 0 to |entries|
      invariant multiset(r) == multiset(entries[..n])
      invariant SortedBy(noRecursion, r)
    {
      var k := |r|;
      while k > 0 && Before(noRecursion, entries[n], r[k - 1])
        invariant 0 <= k <= |r|
        invariant forall i :: k <= i < |r| ==> Before(noRecursion, entries[n], r[i])
      {
        k := k - 1;
      }
      InsertKeepsSorted(noRecursion, r, k, entries[n]);
      assert entries[..n + 1] == entries[..n] + [entries[n]];
      assert r == r[..k] + r[k..];
      r := r[..k] + [entries[n]] + r[k..];
    }
    assert entries[..|entries|] == entries;
    SortedMeansInOrder(noRecursion, r);
  }

  lemma InsertKeepsSorted(noRecursion: bool, r: seq<Entry>, k: nat, e: Entry)
    requires k <= |r| && SortedBy(noRecursion, r)
    requires forall i :: k <= i < |r| ==> Before(noRecursion, e, r[i])
    requires k > 0 ==> !Before(noRecursion, e, r[k - 1])
    ensures SortedBy(noRecursion, r[..k] + [e] + r[k..])
  {
    LessIsTotalOrder();
    forall i | 0 <= i < k ensures !Before(noRecursion, e, r[i]) {
      if i < k - 1 { NotBeforeTransitive(noRecursion, r[i], r[k - 1], e); }
    }
    forall i | k <= i < |r| ensures !Before(noRecursion, r[i], e) {}
  }

  /** Sorted by either order, entries without directories are sorted by name; so are
      entries of a non-recursive listing with or without directories. */
  lemma SortedByName(noRecursion: bool, s: seq<Entry>)
    requires SortedBy(noRecursion, s)
    requires noRecursion || NoDirs(s)
    ensures NameSorted(s)
  {
    LessIsTotalOrder();
  }

  // ----- what a page, and a whole run, must list ------------------------------

  predicate InRange(name: string, lo: string, hi: string) {
    Less(lo, name) && (hi == "" || AtMost(name, hi))
  }

  /** The entries of `m` named after `lo`, up to and including `hi` ("" for no bound). */
  ghost function Within(m: multiset<Entry>, lo: string, hi: string): (r: multiset<Entry>)
    ensures forall e :: r[e] == if InRange(e.name, lo, hi) then m[e] else 0
    decreases |m|
  {
    if m == multiset{} then m
    else
      var x :| x in m;
      var rest := Within(m[x := 0], lo, hi);
      if InRange(x.name, lo, hi) then rest[x := m[x]] else rest
  }

  /** The simple listing every run is compared with: all entries of all targets. */
  ghost function All(invs: seq<seq<Entry>>): multiset<Entry> {
    if invs == [] then multiset{} else multiset(invs[0]) + All(invs[1..])
  }

  /** How a listing presents the entries it covers: every copy (`Whole`); one entry per
      name, the best-status one (`Collapsed`); or some per name, with the best-status one
      among them (`Covering`). */
  datatype Mode = Whole | Collapsed | Covering

  ghost predicate HasName(s: seq<Entry>, name: string) {
    exists i :: 0 <= i < |s| && s[i].name == name
  }

  ghost predicate Covers(r: seq<Entry>, pool: multiset<Entry>) {
    forall e :: e in pool ==> HasName(r, e.name)
  }

  ghost predicate BestOfName(r: seq<Entry>, pool: multiset<Entry>) {
    forall i, e :: 0 <= i < |r| && e in pool && e.name == r[i].name ==> AsGood(r[i], e)
  }

  /** No entry of the same name is better. */
  ghost predicate IsBest(e: Entry, pool: multiset<Entry>) {
    forall f :: f in pool && f.name == e.name ==> AsGood(e, f)
  }

  ghost predicate ListsBestOf(r: seq<Entry>, pool: multiset<Entry>, name: string) {
    exists i :: 0 <= i < |r| && r[i].name == name && IsBest(r[i], pool)
  }

  ghost predicate HasBest(r: seq<Entry>, pool: multiset<Entry>) {
    forall e :: e in pool ==> ListsBestOf(r, pool, e.name)
  }

  /** Entries of the pool by name, with every name that is in the pool. */
  ghost predicate ListsNames(r: seq<Entry>, pool: multiset<Entry>) {
    && NameSorted(r)
    && (forall i :: 0 <= i < |r| ==> r[i] in pool)
    && Covers(r, pool)
  }

  ghost predicate Lists(mode: Mode, r: seq<Entry>, pool: multiset<Entry>) {
    && ListsNames(r, pool)
    && (mode == Whole ==> multiset(r) == pool)
    && (mode == Covering ==> multiset(r) <= pool && HasBest(r, pool))
    && (mode == Collapsed ==> StrictlySorted(r) && BestOfName(r, pool))
  }

  /** No two entries share a name. */
  ghost predicate NameDistinct(m: multiset<Entry>) {
    forall e, f :: e in m && f in m && e.name == f.name ==> e == f && m[e] == 1
  }

  lemma WithinSplits(m: multiset<Entry>, lo: string, mid: string, hi: string)
    requires Less(lo, mid) && (hi == "" || AtMost(mid, hi))
    ensures Within(m, lo, hi) == Within(m, lo, mid) + Within(m, mid, hi)
  {
    LessIsTotalOrder();
    forall e: Entry ensures Within(m, lo, hi)[e] == Within(m, lo, mid)[e] + Within(m, mid, hi)[e] {
      assert mid != "";
      assert Less(lo, e.name) || !Less(lo, e.name);
      assert Less(mid, e.name) || !Less(mid, e.name);
    }
  }

  ghost predicate Separated(p: multiset<Entry>, mid: string, q: multiset<Entry>) {
    (forall e :: e in p ==> AtMost(e.name, mid)) && (forall e :: e in q ==> Less(mid, e.name))
  }

  lemma AppendSorted(a: seq<Entry>, mid: string, b: seq<Entry>)
    requires NameSorted(a) && NameSorted(b)
    requires (forall i :: 0 <= i < |a| ==> AtMost(a[i].name, mid))
             && (forall i :: 0 <= i < |b| ==> Less(mid, b[i].name))
    ensures NameSorted(a + b)
    ensures StrictlySorted(a) && StrictlySorted(b) ==> StrictlySorted(a + b)
  {
    forall i, j | 0 <= i < |a| && 0 <= j < |b| ensures Less(a[i].name, b[j].name) {
      if a[i].name != mid { LessTransitive(a[i].name, mid, b[j].name); }
    }
  }

  lemma AppendCovers(a: seq<Entry>, b: seq<Entry>, p: multiset<Entry>, q: multiset<Entry>)
    requires Covers(a, p) && Covers(b, q)
    ensures Covers(a + b, p + q)
  {
    forall e: Entry | e in p + q ensures HasName(a + b, e.name) {
      if e in p {
        var i :| 0 <= i < |a| && a[i].name == e.name;
        assert (a + b)[i] == a[i];
      } else {
        var i :| 0 <= i < |b| && b[i].name == e.name;
        assert (a + b)[|a| + i] == b[i];
      }
    }
  }

  lemma AppendBest(a: seq<Entry>, b: seq<Entry>, p: multiset<Entry>, mid: string, q: multiset<Entry>)
    requires BestOfName(a, p) && BestOfName(b, q) && Separated(p, mid, q)
    requires (forall i :: 0 <= i < |a| ==> a[i] in p) && (forall i :: 0 <= i < |b| ==> b[i] in q)
    ensures BestOfName(a + b, p + q)
  {
    var r := a + b;
    forall i, e: Entry | 0 <= i < |r| && e in p + q && e.name == r[i].name ensures AsGood(r[i], e) {
      LessTrichotomy(mid, e.name);
      if i < |a| {
        assert r[i] == a[i];
        assert e in p;
      } else {
        assert r[i] == b[i - |a|];
        assert e in q;
      }
    }
  }

  lemma AppendHasBest(a: seq<Entry>, b: seq<Entry>, p: multiset<Entry>, mid: string, q: multiset<Entry>)
    requires HasBest(a, p) && HasBest(b, q) && Separated(p, mid, q)
    ensures HasBest(a + b, p + q)
  {
    forall e: Entry | e in p + q ensures ListsBestOf(a + b, p + q, e.name) {
      LessTrichotomy(mid, e.name);
      if e in p {
        var i :| 0 <= i < |a| && a[i].name == e.name && IsBest(a[i], p);
        assert (a + b)[i] == a[i] && IsBest(a[i], p + q);
      } else {
        var i :| 0 <= i < |b| && b[i].name == e.name && IsBest(b[i], q);
        assert (a + b)[|a| + i] == b[i] && IsBest(b[i], p + q);
      }
    }
  }

  /** Consecutive ranges listed one after the other list the joined range. */
  lemma ListsAppend(mode: Mode, m: multiset<Entry>, a: seq<Entry>, b: seq<Entry>, lo: string, mid: string, hi: string)
    requires Less(lo, mid) && (hi == "" || AtMost(mid, hi))
    requires Lists(mode, a, Within(m, lo, mid)) && Lists(mode, b, Within(m, mid, hi))
    ensures Lists(mode, a + b, Within(m, lo, hi))
  {
    WithinSplits(m, lo, mid, hi);
    var p, q := Within(m, lo, mid), Within(m, mid, hi);
    assert Separated(p, mid, q);
    AppendLists(mode, a, b, p, mid, q);
  }

  lemma AppendLists(mode: Mode, a: seq<Entry>, b: seq<Entry>, p: multiset<Entry>, mid: string, q: multiset<Entry>)
    requires Separated(p, mid, q) && Lists(mode, a, p) && Lists(mode, b, q)
    ensures Lists(mode, a + b, p + q)
  {
    AppendListsNames(a, b, p, mid, q);
    match mode
    case Whole =>
    case Collapsed =>
      AppendSorted(a, mid, b);
      AppendBest(a, b, p, mid, q);
    case Covering => AppendHasBest(a, b, p, mid, q);
  }

  lemma AppendListsNames(a: seq<Entry>, b: seq<Entry>, p: multiset<Entry>, mid: string, q: multiset<Entry>)
    requires Separated(p, mid, q) && ListsNames(a, p) && ListsNames(b, q)
    ensures ListsNames(a + b, p + q)
  {
    AppendSorted(a, mid, b);
    AppendCovers(a, b, p, q);
  }

  /** In a sorted sequence, the k-th of some strictly sorted names found in it cannot
      come before position k. */
  lemma {:induction false} RankBound(s: seq<Entry>, t: seq<Entry>, k: nat) returns (p: nat)
    requires NameSorted(s) && StrictlySorted(t) && k < |t|
    requires forall i :: 0 <= i < |t| ==> HasName(s, t[i].name)
    ensures k <= p < |s| && s[p].name == t[k].name
  {
    LessIsTotalOrder();
    if k > 0 {
      var q := RankBound(s, t, k - 1);
    }
    p :| 0 <= p < |s| && s[p].name == t[k].name;
  }

  lemma RankAtMost(s: seq<Entry>, t: seq<Entry>, k: nat)
    requires NameSorted(s) && StrictlySorted(t) && k < |t|
    requires forall i :: 0 <= i < |t| ==> HasName(s, t[i].name)
    ensures k < |s| && AtMost(s[k].name, t[k].name)
  {
    var p := RankBound(s, t, k);
  }

  // ----- de-duplication -------------------------------------------------------

  /** The first entry of every run of equal names, over the first `n` entries. */
  function DedupTo(s: seq<Entry>, n: nat): (d: seq<Entry>)
    requires n <= |s|
  {
    if n == 0 then []
    else
      var d := DedupTo(s, n - 1);
      if d != [] && d[|d| - 1].name == s[n - 1].name then d else d + [s[n - 1]]
  }

  function Dedup(s: seq<Entry>): seq<Entry> {
    DedupTo(s, |s|)
  }

  function Truncated<T>(s: seq<T>, maxSize: nat): seq<T> {
    if 0 < maxSize < |s| then s[..maxSize] else s
  }

  lemma {:induction false} DedupIsMonotone(s: seq<Entry>, k: nat, n: nat)
    requires k <= n <= |s|
    ensures DedupTo(s, k) <= DedupTo(s, n)
    decreases n - k
  {
    if k < n { DedupIsMonotone(s, k + 1, n); }
  }

  lemma {:induction false} DedupStrict(s: seq<Entry>, n: nat)
    requires NameSorted(s) && n <= |s|
    ensures StrictlySorted(DedupTo(s, n))
    ensures n > 0 ==> DedupTo(s, n) != [] && DedupTo(s, n)[|DedupTo(s, n)| - 1].name == s[n - 1].name
  {
    if n > 0 {
      DedupStrict(s, n - 1);
      var d, last := DedupTo(s, n - 1), s[n - 1];
      if d != [] && d[|d| - 1].name != last.name {
        forall i | 0 <= i < |d| - 1 ensures Less(d[i].name, last.name) {
          LessTransitive(d[i].name, d[|d| - 1].name, last.name);
        }
      }
    }
  }

  /** Every name keeps one entry, and every kept entry is one of the originals. */
  lemma {:induction false} DedupKeepsNames(s: seq<Entry>, n: nat)
    requires n <= |s|
    ensures forall k :: 0 <= k < n ==> HasName(DedupTo(s, n), s[k].name)
    ensures forall i :: 0 <= i < |DedupTo(s, n)| ==> DedupTo(s, n)[i] in s
  {
    if n > 0 {
      DedupKeepsNames(s, n - 1);
      var d, r := DedupTo(s, n - 1), DedupTo(s, n);
      assert r[|r| - 1].name == s[n - 1].name;
      forall k | 0 <= k < n ensures HasName(r, s[k].name) {
        if k < n - 1 {
          var i :| 0 <= i < |d| && d[i].name == s[k].name;
          assert r[i] == d[i];
        }
      }
    }
  }

  /** An entry is kept when its name has not come up before. */
  lemma KeptNameIsNew(s: seq<Entry>, n: nat)
    requires NameSorted(s) && 0 < n <= |s| && |DedupTo(s, n)| > |DedupTo(s, n - 1)|
    ensures forall k :: 0 <= k < n - 1 ==> s[k].name != s[n - 1].name
  {
    DedupStrict(s, n - 1);
    if n > 1 { LessTrichotomy(s[n - 2].name, s[n - 1].name); }
  }

  /** The kept entry is the one that sorts first among those of its name. */
  lemma {:induction false} DedupKeepsBest(noRecursion: bool, s: seq<Entry>, n: nat)
    requires SortedBy(noRecursion, s) && NameSorted(s) && n <= |s|
    ensures forall i, k :: 0 <= i < |DedupTo(s, n)| && 0 <= k < n && s[k].name == DedupTo(s, n)[i].name
                           ==> AsGood(DedupTo(s, n)[i], s[k])
  {
    if n > 0 {
      DedupKeepsBest(noRecursion, s, n - 1);
      var d, r, last := DedupTo(s, n - 1), DedupTo(s, n), s[n - 1];
      if |r| > |d| { KeptNameIsNew(s, n); }
      forall i, k | 0 <= i < |r| && 0 <= k < n && s[k].name == r[i].name ensures AsGood(r[i], s[k]) {
        if i < |d| && k == n - 1 { KeptBeatsLast(noRecursion, s, n, i); }
      }
    }
  }

  lemma KeptBeatsLast(noRecursion: bool, s: seq<Entry>, n: nat, i: nat)
    requires SortedBy(noRecursion, s) && 0 < n <= |s| && i < |DedupTo(s, n - 1)|
    requires DedupTo(s, n - 1)[i].name == s[n - 1].name
    ensures AsGood(DedupTo(s, n - 1)[i], s[n - 1])
  {
    DedupFrom(s, n - 1, i);
    var j :| 0 <= j < n - 1 && s[j] == DedupTo(s, n - 1)[i];
    assert !Before(noRecursion, s[n - 1], s[j]);
    SameNameOrder(s[n - 1], s[j]);
  }

  lemma {:induction false} DedupFrom(s: seq<Entry>, n: nat, i: nat)
    requires n <= |s| && i < |DedupTo(s, n)|
    ensures exists j :: 0 <= j < n && s[j] == DedupTo(s, n)[i]
  {
    if i < |DedupTo(s, n - 1)| { DedupFrom(s, n - 1, i); }
  }

  /** De-duplicating a sorted sequence keeps exactly one entry per name, strictly
      sorted: the one that sorts first, that is, the one with the best status. */
  lemma DedupCollapses(noRecursion: bool, s: seq<Entry>)
    requires SortedBy(noRecursion, s) && NameSorted(s)
    ensures Lists(Collapsed, Dedup(s), multiset(s))
  {
    DedupStrict(s, |s|);
    DedupKeepsNames(s, |s|);
    DedupKeepsBest(noRecursion, s, |s|);
    assert forall e :: e in multiset(s) ==> e in s;
  }

  /** Removes adjacent entries with the same name, in place, and stops after
      `maxSize` entries (0 for no limit); the result is the first `j` elements. */
  method DedupLso(entries: array<Entry>, maxSize: nat) returns (j: nat)
    modifies entries
    ensures j <= entries.Length
    ensures entries[..j] == Truncated(Dedup(old(entries[..])), maxSize)
  {
    ghost var was, d := entries[..], [];
    j := 0;
    var i := 0;
    while i < entries.Length
      invariant 0 <= j <= i <= entries.Length
      invariant entries[..j] == d == DedupTo(was, i)
      invariant forall k :: i <= k < entries.Length ==> entries[k] == was[k]
      invariant maxSize > 0 ==> j < maxSize
    {
      var en := entries[i];
      DedupStep(was, i);
      i := i + 1;
      if j == 0 || entries[j - 1].name != en.name {
        Keep(entries, j, en);
        j, d := j + 1, d + [en];
        if maxSize > 0 && j == maxSize {
          StopsEarly(was, i);
          return;
        }
      }
    }
  }

  method Keep(entries: array<Entry>, j: nat, en: Entry)
    requires j < entries.Length
    modifies entries
    ensures entries[..j + 1] == old(entries[..j]) + [en]
    ensures forall k :: j < k < entries.Length ==> entries[k] == old(entries[k])
  {
    entries[j] := en;
  }

  lemma StopsEarly(s: seq<Entry>, i: nat)
    requires i <= |s| && DedupTo(s, i) != []
    ensures Truncated(Dedup(s), |DedupTo(s, i)|) == DedupTo(s, i)
  {
    DedupIsMonotone(s, i, |s|);
  }

  lemma DedupStep(s: seq<Entry>, i: nat)
    requires i < |s|
    ensures var d := DedupTo(s, i);
            DedupTo(s, i + 1) == if d != [] && d[|d| - 1].name == s[i].name then d else d + [s[i]]
  {
  }

  // ----- target replies -------------------------------------------------------

  /** What a target must answer to "list after `token`": exactly its entries up to the
      returned token, or all the remaining ones when the returned token is empty. */
  ghost predicate Reply(inv: seq<Entry>, token: string, reply: Page) {
    && multiset(reply.entries) == Within(multiset(inv), token, reply.token)
    && (reply.token != "" ==> Less(token, reply.token))
  }

  /** The reply of a listing with a page size: the first `size` entries after the token. */
  ghost predicate SizedReply(inv: seq<Entry>, token: string, size: nat, reply: Page) {
    && Reply(inv, token, reply)
    && StrictlySorted(reply.entries)
    && (if reply.token == "" then |reply.entries| < size
        else |reply.entries| == size > 0 && reply.token == reply.entries[size - 1].name)
  }

  ghost predicate Replies(invs: seq<seq<Entry>>, token: string, replies: seq<Page>) {
    |invs| == |replies| && forall t :: 0 <= t < |invs| ==> Reply(invs[t], token, replies[t])
  }

  ghost predicate SizedReplies(invs: seq<seq<Entry>>, token: string, size: nat, replies: seq<Page>) {
    |invs| == |replies| && forall t :: 0 <= t < |invs| ==> SizedReply(invs[t], token, size, replies[t])
  }

  function Concat(lists: seq<Page>): seq<Entry> {
    if lists == [] then [] else lists[0].entries + Concat(lists[1..])
  }

  /** Every target has answered at least as far as `hi`. */
  ghost predicate Reaches(replies: seq<Page>, hi: string) {
    forall t :: 0 <= t < |replies| ==>
      replies[t].token == "" || (hi != "" && AtMost(hi, replies[t].token))
  }

  lemma {:induction false} RepliesCount(invs: seq<seq<Entry>>, token: string, replies: seq<Page>, hi: string, e: Entry)
    requires Replies(invs, token, replies)
    ensures !Less(token, e.name) ==> multiset(Concat(replies))[e] == 0
    ensures Reaches(replies, hi) && InRange(e.name, token, hi) ==> multiset(Concat(replies))[e] == All(invs)[e]
  {
    if invs != [] {
      assert Reply(invs[0], token, replies[0]);
      assert Replies(invs[1..], token, replies[1..]) by {
        forall t | 0 <= t < |invs| - 1 ensures Reply(invs[1..][t], token, replies[1..][t]) {
          assert Reply(invs[t + 1], token, replies[t + 1]);
        }
      }
      RepliesCount(invs[1..], token, replies[1..], hi, e);
      if Reaches(replies, hi) && InRange(e.name, token, hi) {
        assert Reaches(replies[1..], hi);
        ReachedIsIncluded(token, replies[0].token, hi, e.name);
      }
    }
  }

  lemma ReachedIsIncluded(token: string, reached: string, hi: string, name: string)
    requires InRange(name, token, hi)
    requires reached == "" || (hi != "" && AtMost(hi, reached))
    ensures InRange(name, token, reached)
  {
    if reached != "" && name != hi && hi != reached { LessTransitive(name, hi, reached); }
  }

  /** The merged replies hold exactly the listed range of all inventories. */
  lemma RepliesHoldRange(invs: seq<seq<Entry>>, token: string, replies: seq<Page>, hi: string)
    requires Replies(invs, token, replies) && Reaches(replies, hi)
    ensures Within(multiset(Concat(replies)), "", hi) == Within(All(invs), token, hi)
  {
    var c := multiset(Concat(replies));
    forall e: Entry ensures Within(c, "", hi)[e] == Within(All(invs), token, hi)[e] {
      RepliesCount(invs, token, replies, hi, e);
      LessTrichotomy("", e.name);
    }
  }

  // ----- the inventory flow ---------------------------------------------------

  /** The least non-empty continuation token of the lists, if any. */
  ghost predicate IsMinToken(lists: seq<Page>, token: string) {
    if token == "" then forall t :: 0 <= t < |lists| ==> lists[t].token == ""
    else
      && (exists t :: 0 <= t < |lists| && lists[t].token == token)
      && (forall t :: 0 <= t < |lists| ==> lists[t].token == "" || AtMost(token, lists[t].token))
  }

  lemma MinTokenIsReached(lists: seq<Page>, token: string)
    requires IsMinToken(lists, token)
    ensures Reaches(lists, token)
  {
  }

  /** `i` is where the names of `r` pass `hi`. */
  ghost predicate CutAt(r: seq<Entry>, i: nat, hi: string) {
    && i <= |r|
    && (forall k :: 0 <= k < i ==> hi == "" || AtMost(r[k].name, hi))
    && (forall k :: i <= k < |r| ==> hi != "" && Less(hi, r[k].name))
  }

  ghost predicate Named(r: seq<Entry>) {
    forall k :: 0 <= k < |r| ==> r[k].name != ""
  }

  lemma CutCovers(r: seq<Entry>, pool: multiset<Entry>, i: nat, hi: string)
    requires Covers(r, pool) && CutAt(r, i, hi)
    ensures Covers(r[..i], Within(pool, "", hi))
  {
    forall e | e in Within(pool, "", hi) ensures HasName(r[..i], e.name) {
      var k :| 0 <= k < |r| && r[k].name == e.name;
      LessTrichotomy(e.name, hi);
      assert r[..i][k] == r[k];
    }
  }

  lemma CutKeepsOrder(r: seq<Entry>, i: nat)
    requires i <= |r|
    ensures NameSorted(r) ==> NameSorted(r[..i])
    ensures StrictlySorted(r) ==> StrictlySorted(r[..i])
  {
  }

  lemma CutKeepsBest(r: seq<Entry>, pool: multiset<Entry>, i: nat, part: multiset<Entry>)
    requires BestOfName(r, pool) && i <= |r| && forall e :: e in part ==> e in pool
    ensures BestOfName(r[..i], part)
  {
    forall k, e: Entry | 0 <= k < i && e in part && e.name == r[..i][k].name ensures AsGood(r[..i][k], e) {
      assert r[..i][k] == r[k] && e in pool;
    }
  }

  lemma CutMembers(r: seq<Entry>, pool: multiset<Entry>, i: nat, hi: string)
    requires Named(r) && CutAt(r, i, hi) && forall k :: 0 <= k < |r| ==> r[k] in pool
    ensures forall k :: 0 <= k < i ==> r[..i][k] in Within(pool, "", hi)
  {
  }

  /** Keeping the names up to `hi` of a listing lists the part of the pool up to `hi`. */
  lemma CutLists(mode: Mode, r: seq<Entry>, pool: multiset<Entry>, i: nat, hi: string)
    requires Lists(mode, r, pool) && Named(r) && CutAt(r, i, hi)
    ensures Lists(mode, r[..i], Within(pool, "", hi))
  {
    CutListsNames(r, pool, i, hi);
    match mode
    case Whole => CutCounts(r, i, hi);
    case Collapsed =>
      CutKeepsOrder(r, i);
      CutKeepsBest(r, pool, i, Within(pool, "", hi));
    case Covering =>
      CutCountsIn(r, pool, i, hi);
      CutKeepsHasBest(r, pool, i, hi);
  }

  lemma CutListsNames(r: seq<Entry>, pool: multiset<Entry>, i: nat, hi: string)
    requires ListsNames(r, pool) && Named(r) && CutAt(r, i, hi)
    ensures ListsNames(r[..i], Within(pool, "", hi))
  {
    CutMembers(r, pool, i, hi);
    CutCovers(r, pool, i, hi);
    CutKeepsOrder(r, i);
  }

  lemma CutCountsIn(r: seq<Entry>, pool: multiset<Entry>, i: nat, hi: string)
    requires Named(r) && CutAt(r, i, hi) && multiset(r) <= pool
    ensures multiset(r[..i]) <= Within(pool, "", hi)
  {
    CutCounts(r, i, hi);
    forall e: Entry ensures multiset(r[..i])[e] <= Within(pool, "", hi)[e] {
      assert multiset(r)[e] <= pool[e];
    }
  }

  lemma CutKeepsHasBest(r: seq<Entry>, pool: multiset<Entry>, i: nat, hi: string)
    requires HasBest(r, pool) && CutAt(r, i, hi)
    ensures HasBest(r[..i], Within(pool, "", hi))
  {
    var part := Within(pool, "", hi);
    forall e | e in part ensures ListsBestOf(r[..i], part, e.name) {
      var k :| 0 <= k < |r| && r[k].name == e.name && IsBest(r[k], pool);
      LessTrichotomy(e.name, hi);
      assert r[..i][k] == r[k] && IsBest(r[k], part);
    }
  }

  lemma CutCounts(r: seq<Entry>, i: nat, hi: string)
    requires Named(r) && CutAt(r, i, hi)
    ensures multiset(r[..i]) == Within(multiset(r), "", hi)
  {
    assert r == r[..i] + r[i..];
    forall e: Entry ensures multiset(r[..i])[e] == Within(multiset(r), "", hi)[e] {
      if e in multiset(r[i..]) {
        var k := IndexOf(r[i..], e);
        LessTrichotomy(hi, r[i + k].name);
      }
      if e in multiset(r[..i]) {
        var k := IndexOf(r[..i], e);
        assert r[..i][k] == r[k];
      }
    }
  }

  lemma IndexOf(s: seq<Entry>, e: Entry) returns (j: nat)
    requires e in multiset(s)
    ensures j < |s| && s[j] == e
  {
    assert e in s;
    j :| 0 <= j < |s| && s[j] == e;
  }

  /** The binary search of Go's `sort.Search`: the first entry named after `token`. */
  method SearchAfter(entries: seq<Entry>, token: string) returns (i: nat)
    requires NameSorted(entries)
    ensures i <= |entries|
    ensures forall k :: 0 <= k < i ==> AtMost(entries[k].name, token)
    ensures forall k :: i <= k < |entries| ==> Less(token, entries[k].name)
  {
    i := 0;
    var j := |entries|;
    while i < j
      invariant 0 <= i <= j <= |entries|
      invariant forall k :: 0 <= k < i ==> AtMost(entries[k].name, token)
      invariant forall k :: j <= k < |entries| ==> Less(token, entries[k].name)
    {
      var h := (i + j) / 2;
      LessIsTotalOrder();
      if !Less(token, entries[h].name) { i := h + 1; } else { j := h; }
    }
  }

  /** Sorts the merged entries and, when not recursive, de-duplicates them. */
  method SortAndDedup(entries: seq<Entry>, noRecursion: bool, maxSize: nat) returns (r: seq<Entry>)
    requires noRecursion || NoDirs(entries)
    ensures exists m :: IsMerge(m, entries, noRecursion) && r == if noRecursion then Truncated(Dedup(m), maxSize) else m
  {
    r := SortLso(entries, noRecursion);
    MergeOf(r, entries, noRecursion);
    ghost var m := r;
    if noRecursion {
      var a := new Entry[|r|](i requires 0 <= i < |r| => r[i]);
      assert a[..] == m;
      var j := DedupLso(a, maxSize);
      r := a[..j];
    }
  }

  /** `m` is the merged `entries` in listing order. */
  ghost predicate IsMerge(m: seq<Entry>, entries: seq<Entry>, noRecursion: bool) {
    multiset(m) == multiset(entries) && SortedBy(noRecursion, m) && NameSorted(m)
  }

  lemma MergeOf(m: seq<Entry>, entries: seq<Entry>, noRecursion: bool)
    requires multiset(m) == multiset(entries) && SortedBy(noRecursion, m)
    requires noRecursion || NoDirs(entries)
    ensures IsMerge(m, entries, noRecursion)
  {
    if !noRecursion {
      forall i | 0 <= i < |m| ensures !m[i].isDir {
        assert m[i] in multiset(m);
        var j := IndexOf(entries, m[i]);
      }
    }
    SortedByName(noRecursion, m);
  }

  lemma NamedMerge(m: seq<Entry>, entries: seq<Entry>)
    requires multiset(m) == multiset(entries) && Named(entries)
    ensures Named(m)
  {
    forall i | 0 <= i < |m| ensures m[i].name != "" {
      assert m[i] in multiset(m);
      var j := IndexOf(entries, m[i]);
    }
  }

  ghost function NbiMode(noRecursion: bool): Mode {
    if noRecursion then Collapsed else Whole
  }

  /** Merging lists of an inventory: at the speed of the slowest target. */
  method FinLsoNBI(lists: seq<Page>, noRecursion: bool) returns (page: Page)
    requires Named(Concat(lists)) && (noRecursion || NoDirs(Concat(lists)))
    ensures IsMinToken(lists, page.token)
    ensures Lists(NbiMode(noRecursion), page.entries, Within(multiset(Concat(lists)), "", page.token))
  {
    var minToken := "";
    for t := 0 to |lists|
      invariant IsMinToken(lists[..t], minToken)
    {
      MinTokenStep(lists, t, minToken);
      if lists[t].token != "" && (minToken == "" || Less(lists[t].token, minToken)) {
        minToken := lists[t].token;
      }
    }
    assert lists[..|lists|] == lists;

    ghost var merged := Concat(lists);
    var r := SortAndDedup(Concat(lists), noRecursion, 0);
    ghost var m :| IsMerge(m, merged, noRecursion) && r == if noRecursion then Truncated(Dedup(m), 0) else m;
    NamedMerge(m, merged);
    MergedLists(noRecursion, m, r);
    var i := |r|;
    if minToken != "" {
      i := SearchAfter(r, minToken);
    }
    CutLists(NbiMode(noRecursion), r, multiset(m), i, minToken);
    page := Page(r[..i], minToken);
  }

  lemma MergedLists(noRecursion: bool, m: seq<Entry>, r: seq<Entry>)
    requires SortedBy(noRecursion, m) && NameSorted(m) && Named(m)
    requires r == if noRecursion then Dedup(m) else m
    ensures Lists(NbiMode(noRecursion), r, multiset(m)) && Named(r)
  {
    if noRecursion {
      DedupCollapses(noRecursion, m);
      forall i | 0 <= i < |r| ensures r[i].name != "" { var j := IndexOf(m, r[i]); }
    } else {
      forall e | e in multiset(m) ensures HasName(m, e.name) { var j := IndexOf(m, e); }
    }
  }

  lemma MinTokenStep(lists: seq<Page>, t: nat, least: string)
    requires t < |lists| && IsMinToken(lists[..t], least)
    ensures var tok := lists[t].token;
            IsMinToken(lists[..t + 1], if tok != "" && (least == "" || Less(tok, least)) then tok else least)
  {
    var tok, next := lists[t].token, lists[..t + 1];
    assert next == lists[..t] + [lists[t]];
    LessIsTotalOrder();
    assert next[t].token == tok;
    if least != "" {
      var k :| 0 <= k < t && lists[..t][k].token == least;
      assert next[k].token == least;
    }
  }

  /** One page of an inventory listing: it lists exactly the entries of all targets
      between the previous token and its own, and an empty token means the end. */
  lemma NbiPageIsExact(invs: seq<seq<Entry>>, token: string, replies: seq<Page>, noRecursion: bool, page: Page)
    requires Replies(invs, token, replies)
    requires IsMinToken(replies, page.token)
    requires Lists(NbiMode(noRecursion), page.entries, Within(multiset(Concat(replies)), "", page.token))
    ensures Lists(NbiMode(noRecursion), page.entries, Within(All(invs), token, page.token))
    ensures page.token != "" ==> Less(token, page.token)
  {
    MinTokenIsReached(replies, page.token);
    RepliesHoldRange(invs, token, replies, page.token);
    if page.token != "" {
      var t :| 0 <= t < |replies| && replies[t].token == page.token;
      assert Reply(invs[t], token, replies[t]);
    }
  }

  // ----- the regular flow -----------------------------------------------------

  /** Combine the lists and sort the result. */
  method ConcatLso(lists: seq<Page>, noRecursion: bool) returns (m: seq<Entry>)
    requires noRecursion || NoDirs(Concat(lists))
    ensures IsMerge(m, Concat(lists), noRecursion)
  {
    var entries := [];
    for t := 0 to |lists|
      invariant entries == Concat(lists[..t])
    {
      ConcatStep(lists, t);
      entries := entries + lists[t].entries;
    }
    assert lists[..|lists|] == lists;
    m := SortLso(entries, noRecursion);
    MergeOf(m, entries, noRecursion);
  }

  lemma {:induction false} ConcatStep(lists: seq<Page>, t: nat)
    requires t < |lists|
    ensures Concat(lists[..t + 1]) == Concat(lists[..t]) + lists[t].entries
  {
    if t == 0 {
      assert lists[..1] == [lists[0]];
    } else {
      ConcatStep(lists[1..], t - 1);
      assert lists[1..][..t] == lists[..t + 1][1..] && lists[1..][..t - 1] == lists[..t][1..];
    }
  }

  function Shown(m: seq<Entry>, noRecursion: bool): seq<Entry> {
    if noRecursion then Dedup(m) else m
  }

  /** The final page: at most `maxSize` entries; a full page continues from its last name. */
  method FinLsoA(entries: seq<Entry>, noRecursion: bool, maxSize: nat) returns (page: Page)
    requires maxSize > 0
    ensures IsFinalPage(Shown(entries, noRecursion), maxSize, page)
  {
    var r := entries;
    if noRecursion {
      var a := new Entry[|r|](i requires 0 <= i < |r| => r[i]);
      assert a[..] == entries;
      var j := DedupLso(a, maxSize);
      r := a[..j];
    }
    page := Page(r, "");
    if |r| >= maxSize {
      page := Page(r[..maxSize], r[maxSize - 1].name);
    }
  }

  lemma ShownCovers(m: seq<Entry>, noRecursion: bool)
    requires NameSorted(m)
    ensures NameSorted(Shown(m, noRecursion)) && Covers(Shown(m, noRecursion), multiset(m))
  {
    if noRecursion {
      DedupStrict(m, |m|);
      DedupKeepsNames(m, |m|);
    }
    forall e | e in multiset(m) ensures HasName(Shown(m, noRecursion), e.name) { var k := IndexOf(m, e); }
  }

  lemma {:induction false} ReplyInConcat(replies: seq<Page>, t: nat, i: nat)
    requires t < |replies| && i < |replies[t].entries|
    ensures replies[t].entries[i] in multiset(Concat(replies))
  {
    if t == 0 {
      assert replies[0].entries[i] in multiset(replies[0].entries);
    } else {
      ReplyInConcat(replies[1..], t - 1, i);
    }
  }

  /** A full target reply bounds the merged page: `size` names of the merge are at most
      the reply's last name. */
  lemma FullReplyBounds(replies: seq<Page>, t: nat, size: nat, d: seq<Entry>)
    requires t < |replies| && StrictlySorted(replies[t].entries) && |replies[t].entries| == size > 0
    requires NameSorted(d) && Covers(d, multiset(Concat(replies)))
    ensures |d| >= size && AtMost(d[size - 1].name, replies[t].entries[size - 1].name)
  {
    ReplyIsCovered(replies, t, d);
    RankAtMost(d, replies[t].entries, size - 1);
  }

  lemma ReplyIsCovered(replies: seq<Page>, t: nat, d: seq<Entry>)
    requires t < |replies| && Covers(d, multiset(Concat(replies)))
    ensures forall i :: 0 <= i < |replies[t].entries| ==> HasName(d, replies[t].entries[i].name)
  {
    forall i | 0 <= i < |replies[t].entries| ensures HasName(d, replies[t].entries[i].name) {
      ReplyInConcat(replies, t, i);
    }
  }

  lemma ReplyIsReached(inv: seq<Entry>, token: string, size: nat, replies: seq<Page>, t: nat, d: seq<Entry>)
    requires t < |replies| && SizedReply(inv, token, size, replies[t]) && replies[t].token != ""
    requires NameSorted(d) && Named(d) && Covers(d, multiset(Concat(replies)))
    ensures |d| >= size > 0 && d[size - 1].name != "" && AtMost(d[size - 1].name, replies[t].token)
  {
    FullReplyBounds(replies, t, size, d);
  }

  lemma PageIsReached(invs: seq<seq<Entry>>, token: string, size: nat, replies: seq<Page>, d: seq<Entry>)
    requires SizedReplies(invs, token, size, replies) && size > 0
    requires NameSorted(d) && Named(d) && Covers(d, multiset(Concat(replies)))
    ensures Reaches(replies, if |d| >= size then d[size - 1].name else "")
  {
    var hi := if |d| >= size then d[size - 1].name else "";
    forall t | 0 <= t < |replies| ensures replies[t].token == "" || (hi != "" && AtMost(hi, replies[t].token)) {
      assert SizedReply(invs[t], token, size, replies[t]);
      if replies[t].token != "" { ReplyIsReached(invs[t], token, size, replies, t, d); }
    }
  }

  lemma CutCoversNames(m: seq<Entry>, i: nat)
    requires NameSorted(m) && Named(m) && 0 < i <= |m|
    ensures Covers(m[..i], Within(multiset(m), "", m[i - 1].name))
  {
    var hi := m[i - 1].name;
    forall e | e in Within(multiset(m), "", hi) ensures HasName(m[..i], e.name) {
      var k := IndexOf(m, e);
      LessTrichotomy(e.name, hi);
      assert m[..i][if k < i then k else i - 1].name == e.name;
    }
  }

  lemma CutCountsAtMost(m: seq<Entry>, i: nat, hi: string)
    requires NameSorted(m) && Named(m) && 0 < i <= |m| && hi == m[i - 1].name
    ensures multiset(m[..i]) <= Within(multiset(m), "", hi)
  {
    assert m == m[..i] + m[i..];
    forall e: Entry ensures multiset(m[..i])[e] <= Within(multiset(m), "", hi)[e] {
      if e in multiset(m[..i]) { CutIsInRange(m, i, hi, e); }
    }
  }

  lemma CutIsInRange(m: seq<Entry>, i: nat, hi: string, e: Entry)
    requires NameSorted(m) && Named(m) && 0 < i <= |m| && hi == m[i - 1].name && e in multiset(m[..i])
    ensures InRange(e.name, "", hi)
  {
    var k := IndexOf(m[..i], e);
    assert m[k] == e;
  }

  /** The first of its name in a merge is the best of its name. */
  lemma {:induction false} FirstIsBest(m: seq<Entry>, k: nat, n: nat) returns (i: nat)
    requires SortedBy(false, m) && k < |m| && n <= k && forall j :: 0 <= j < n ==> m[j].name != m[k].name
    ensures i <= k && m[i].name == m[k].name && IsBest(m[i], multiset(m))
    decreases k - n
  {
    if m[n].name == m[k].name {
      i := n;
      forall f | f in multiset(m) && f.name == m[n].name ensures AsGood(m[n], f) {
        var j := IndexOf(m, f);
        SameNameOrder(f, m[n]);
        if j > n { assert !Before(false, m[j], m[n]); }
      }
    } else {
      i := FirstIsBest(m, k, n + 1);
    }
  }

  lemma CutHasBest(m: seq<Entry>, i: nat)
    requires SortedBy(false, m) && NameSorted(m) && Named(m) && 0 < i <= |m|
    ensures HasBest(m[..i], Within(multiset(m), "", m[i - 1].name))
  {
    var part := Within(multiset(m), "", m[i - 1].name);
    forall e | e in part ensures ListsBestOf(m[..i], part, e.name) {
      var k := IndexOf(m, e);
      LessTrichotomy(e.name, m[i - 1].name);
      var j := FirstIsBest(m, if k < i then k else i - 1, 0);
      assert m[..i][j] == m[j] && IsBest(m[j], part);
    }
  }

  /** Cutting a sorted merge inside a group of equal names still covers the names up to the
      cut, each with its best-status copy. */
  lemma CutCovering(m: seq<Entry>, i: nat)
    requires SortedBy(false, m) && NameSorted(m) && Named(m) && 0 < i <= |m|
    ensures Lists(Covering, m[..i], Within(multiset(m), "", m[i - 1].name))
  {
    CutKeepsOrder(m, i);
    CutCoversNames(m, i);
    CutCountsAtMost(m, i, m[i - 1].name);
    CutHasBest(m, i);
    forall k | 0 <= k < i ensures m[..i][k] in multiset(m[..i]) {}
  }

  ghost predicate IsFinalPage(d: seq<Entry>, size: nat, page: Page) {
    page == if 0 < size <= |d| then Page(d[..size], d[size - 1].name) else Page(d, "")
  }

  lemma FinalPageStrict(noRecursion: bool, m: seq<Entry>, size: nat, page: Page)
    requires SortedBy(noRecursion, m) && NameSorted(m) && Named(m) && (noRecursion || StrictlySorted(m))
    requires IsFinalPage(Shown(m, noRecursion), size, page)
    ensures Lists(NbiMode(noRecursion), page.entries, Within(multiset(m), "", page.token))
  {
    var d := Shown(m, noRecursion);
    MergedLists(noRecursion, m, d);
    if 0 < size <= |d| {
      StrictCut(d, size, page.token, false);
      CutLists(NbiMode(noRecursion), d, multiset(m), size, page.token);
    } else {
      assert d[..|d|] == d;
      StrictCut(d, |d|, "", true);
      CutLists(NbiMode(noRecursion), d, multiset(m), |d|, "");
    }
  }

  lemma FinalPageCovers(m: seq<Entry>, size: nat, page: Page)
    requires SortedBy(false, m) && NameSorted(m) && Named(m)
    requires IsFinalPage(m, size, page)
    ensures Lists(Covering, page.entries, Within(multiset(m), "", page.token))
  {
    if 0 < size <= |m| {
      CutCovering(m, size);
    } else {
      MergedLists(false, m, m);
      assert m[..|m|] == m;
      StrictCut(m, |m|, "", true);
      MergeHasBest(m);
      CutLists(Covering, m, multiset(m), |m|, "");
    }
  }

  lemma MergeHasBest(m: seq<Entry>)
    requires SortedBy(false, m)
    ensures HasBest(m, multiset(m))
  {
    forall e | e in multiset(m) ensures ListsBestOf(m, multiset(m), e.name) {
      var k := IndexOf(m, e);
      var j := FirstIsBest(m, k, 0);
    }
  }

  lemma StrictCut(d: seq<Entry>, i: nat, hi: string, whole: bool)
    requires NameSorted(d) && i <= |d|
    requires if whole then i == |d| && hi == "" else StrictlySorted(d) && i > 0 && hi == d[i - 1].name && hi != ""
    ensures CutAt(d, i, hi)
  {
  }

  lemma TwoPlaces(m: seq<Entry>, i: nat, j: nat)
    requires i < j < |m| && m[i] == m[j]
    ensures multiset(m)[m[i]] >= 2
  {
    assert m == m[..j] + m[j..];
    assert m[i] == m[..j][i] && m[j] == m[j..][0];
    assert m[i] in multiset(m[..j]) && m[j] in multiset(m[j..]);
  }

  lemma DistinctMergeIsStrict(m: seq<Entry>, pool: multiset<Entry>)
    requires NameSorted(m) && multiset(m) <= pool && NameDistinct(pool)
    ensures StrictlySorted(m)
  {
    forall i, j | 0 <= i < j < |m| ensures m[i].name != m[j].name {
      assert m[i] in multiset(m) && m[j] in multiset(m);
      if m[i] == m[j] { TwoPlaces(m, i, j); }
    }
  }

  lemma {:induction false} RepliesWithin(invs: seq<seq<Entry>>, token: string, replies: seq<Page>)
    requires Replies(invs, token, replies)
    ensures multiset(Concat(replies)) <= All(invs)
  {
    if invs != [] {
      assert Reply(invs[0], token, replies[0]);
      assert Replies(invs[1..], token, replies[1..]) by {
        forall t | 0 <= t < |invs| - 1 ensures Reply(invs[1..][t], token, replies[1..][t]) {
          assert Reply(invs[t + 1], token, replies[t + 1]);
        }
      }
      RepliesWithin(invs[1..], token, replies[1..]);
    }
  }

  /** What a recursive listing in pages of a fixed size can promise: every copy of every
      name when no name is shared by targets, otherwise every name. */
  ghost function SizedMode(invs: seq<seq<Entry>>, noRecursion: bool): Mode {
    if noRecursion then Collapsed else if NameDistinct(All(invs)) then Whole else Covering
  }

  /** The range a page has to list is in the merge, whatever part of it the replies hold. */
  lemma PageRange(invs: seq<seq<Entry>>, token: string, size: nat, replies: seq<Page>,
                  noRecursion: bool, m: seq<Entry>, page: Page)
    requires SizedReplies(invs, token, size, replies) && size > 0
    requires IsMerge(m, Concat(replies), noRecursion) && Named(m)
    requires IsFinalPage(Shown(m, noRecursion), size, page)
    ensures Within(multiset(m), "", page.token) == Within(All(invs), token, page.token)
    ensures multiset(m) <= All(invs)
  {
    MergedLists(noRecursion, m, Shown(m, noRecursion));
    ShownCovers(m, noRecursion);
    PageIsReached(invs, token, size, replies, Shown(m, noRecursion));
    assert Replies(invs, token, replies) by {
      forall t | 0 <= t < |invs| ensures Reply(invs[t], token, replies[t]) {
        assert SizedReply(invs[t], token, size, replies[t]);
      }
    }
    RepliesHoldRange(invs, token, replies, page.token);
    RepliesWithin(invs, token, replies);
  }

  /** One page of a regular listing: the first `size` names of the union after the token;
      a shorter page is the last one, and its token is empty. */
  lemma SizedPageIsExact(invs: seq<seq<Entry>>, token: string, size: nat, replies: seq<Page>,
                         noRecursion: bool, m: seq<Entry>, page: Page)
    requires SizedReplies(invs, token, size, replies) && size > 0
    requires IsMerge(m, Concat(replies), noRecursion) && Named(m)
    requires IsFinalPage(Shown(m, noRecursion), size, page)
    ensures Lists(SizedMode(invs, noRecursion), page.entries, Within(All(invs), token, page.token))
    ensures IsSizedPage(page, token, size)
  {
    PageRange(invs, token, size, replies, noRecursion, m, page);
    if noRecursion {
      FinalPageStrict(true, m, size, page);
    } else if NameDistinct(All(invs)) {
      DistinctMergeIsStrict(m, All(invs));
      FinalPageStrict(false, m, size, page);
    } else {
      FinalPageCovers(m, size, page);
    }
    NamedMergeShown(m, noRecursion);
    if page.token != "" {
      assert page.entries[size - 1] in Within(All(invs), token, page.token);
    }
  }

  /** A full page continues after its last name; only the last page is not full. */
  ghost predicate IsSizedPage(page: Page, token: string, size: nat) {
    if page.token == "" then |page.entries| < size
    else |page.entries| == size > 0 && page.token == page.entries[size - 1].name && Less(token, page.token)
  }

  lemma NamedMergeShown(m: seq<Entry>, noRecursion: bool)
    requires Named(m)
    ensures Named(Shown(m, noRecursion))
  {
    if noRecursion {
      DedupKeepsNames(m, |m|);
    }
  }
}
