/** Where a page boundary may fall: what pages of a fixed size lose when a boundary falls
    between two entries of the same name (`ais/plstcx.go`, `ais/prxs3.go`). */
module ListingCuts {
  import opened Names
  import opened Listing

  /** The entries of `m` named before `name`. */
  ghost function Below(m: multiset<Entry>, name: string): (r: multiset<Entry>)
    ensures forall e :: r[e] == if Less(e.name, name) then m[e] else 0
    decreases |m|
  {
    if m == multiset{} then m
    else
      var x :| x in m;
      var rest := Below(m[x := 0], name);
      if Less(x.name, name) then rest[x := m[x]] else rest
  }

  /** In the order of names, the `n`-th entry and the one after it are both called `name`. */
  ghost predicate Cut(m: multiset<Entry>, n: nat, name: string) {
    |Below(m, name)| < n < |Within(m, "", name)|
  }

  /** A boundary after `n` entries falls between names. */
  ghost predicate EndsWithName(m: multiset<Entry>, n: nat) { forall name :: name != "" ==> !Cut(m, n, name) }

  /** How many entries `k` full pages have. */
  function Boundary(size: nat, k: nat): nat { if k == 0 then 0 else Boundary(size, k - 1) + size }

  /** The boundary after page `k` does. */
  ghost predicate PageEnds(m: multiset<Entry>, size: nat, k: nat) { EndsWithName(m, Boundary(size, k)) }

  lemma {:induction false} BoundariesGrow(size: nat, j: nat, k: nat)
    requires j <= k
    ensures Boundary(size, j) <= Boundary(size, k)
  {
    if j < k { BoundariesGrow(size, j, k - 1); }
  }

  lemma {:induction false} BoundaryIsMultiple(size: nat, k: nat)
    ensures Boundary(size, k) == k * size
  {
    if k > 0 {
      BoundaryIsMultiple(size, k - 1);
      assert k * size == (k - 1) * size + size;
    }
  }

  lemma SizeAtMost(a: multiset<Entry>, b: multiset<Entry>)
    requires a <= b
    ensures |a| <= |b| && (|a| == |b| ==> a == b)
  {
    assert b == a + (b - a);
  }

  lemma PartIn(m: seq<Entry>, i: nat, part: multiset<Entry>)
    requires i <= |m| && forall e: Entry :: part[e] <= multiset(m)[e]
    requires forall k :: i <= k < |m| ==> m[k] !in part
    ensures |part| <= i
  {
    assert m == m[..i] + m[i..];
    forall e: Entry ensures part[e] <= multiset(m[..i])[e] {
      assert e in m[i..] ==> e !in part;
    }
    SizeAtMost(part, multiset(m[..i]));
  }

  lemma PrefixIn(m: seq<Entry>, i: nat, part: multiset<Entry>)
    requires i <= |m| && forall k :: 0 <= k < i ==> part[m[k]] == multiset(m)[m[k]]
    ensures i <= |part|
  {
    assert m == m[..i] + m[i..];
    forall e: Entry ensures multiset(m[..i])[e] <= part[e] {
      if e in multiset(m[..i]) { var k := IndexOf(m[..i], e); }
    }
    SizeAtMost(multiset(m[..i]), part);
  }

  /** Which names come up to, or before, a given one, in a sorted sequence. */
  lemma SortedAround(m: seq<Entry>, n: nat, name: string)
    requires NameSorted(m) && n < |m|
    ensures AtMost(m[n].name, name) ==> forall k :: 0 <= k <= n ==> AtMost(m[k].name, name)
    ensures !AtMost(m[n].name, name) ==> forall k :: n <= k < |m| ==> !AtMost(m[k].name, name)
    ensures Less(m[n].name, name) ==> forall k :: 0 <= k <= n ==> Less(m[k].name, name)
    ensures !Less(m[n].name, name) ==> forall k :: n <= k < |m| ==> !Less(m[k].name, name)
  {
    LessIsTotalOrder();
  }

  /** How many entries are named up to the name at some place in the order. */
  lemma RankOfName(m: seq<Entry>, n: nat, name: string)
    requires NameSorted(m) && Named(m) && name != "" && n < |m|
    ensures if AtMost(m[n].name, name) then n < |Within(multiset(m), "", name)|
            else |Within(multiset(m), "", name)| <= n
  {
    SortedAround(m, n, name);
    if AtMost(m[n].name, name) {
      forall k | 0 <= k <= n ensures Within(multiset(m), "", name)[m[k]] == multiset(m)[m[k]] {
        LessTrichotomy("", m[k].name);
      }
      PrefixIn(m, n + 1, Within(multiset(m), "", name));
    } else {
      PartIn(m, n, Within(multiset(m), "", name));
    }
  }

  /** How many are named before it. */
  lemma RankBelow(m: seq<Entry>, n: nat, name: string)
    requires NameSorted(m) && name != "" && n < |m|
    ensures if Less(m[n].name, name) then n < |Below(multiset(m), name)| else |Below(multiset(m), name)| <= n
  {
    SortedAround(m, n, name);
    if Less(m[n].name, name) {
      PrefixIn(m, n + 1, Below(multiset(m), name));
    } else {
      PartIn(m, n, Below(multiset(m), name));
    }
  }

  lemma BetweenSame(m: seq<Entry>, n: nat, name: string)
    requires NameSorted(m) && 0 < n < |m|
    ensures AtMost(m[n].name, name) && !Less(m[n - 1].name, name) <==> m[n - 1].name == name == m[n].name
  {
    SortedAround(m, n, name);
    SortedAround(m, n - 1, name);
    LessTrichotomy(name, name);
  }

  /** Which boundaries are cuts, read off the sorted sequence. */
  lemma CutInOrder(m: seq<Entry>, n: nat, name: string)
    requires NameSorted(m) && Named(m) && name != ""
    ensures Cut(multiset(m), n, name) <==> 0 < n < |m| && m[n - 1].name == name == m[n].name
  {
    PartIn(m, |m|, Within(multiset(m), "", name));
    if 0 < n < |m| {
      RankOfName(m, n, name);
      RankBelow(m, n - 1, name);
      BetweenSame(m, n, name);
    }
  }

  // ----- one page ---------------------------------------------------------------------

  ghost predicate NamedPool(m: multiset<Entry>) { forall e :: e in m ==> e.name != "" }

  lemma WithinGrows(m: multiset<Entry>, a: string, b: string)
    requires a != "" && b != "" && AtMost(a, b)
    ensures |Within(m, "", a)| <= |Within(m, "", b)|
  {
    forall e: Entry ensures Within(m, "", a)[e] <= Within(m, "", b)[e] {
      if AtMost(e.name, a) && e.name != a && a != b { LessTransitive(e.name, a, b); }
    }
    SizeAtMost(Within(m, "", a), Within(m, "", b));
  }

  lemma WithinIsBelow(m: multiset<Entry>, a: string, b: string)
    requires a != "" && Less(a, b)
    ensures |Within(m, "", a)| <= |Below(m, b)|
  {
    forall e: Entry ensures Within(m, "", a)[e] <= Below(m, b)[e] {
      if AtMost(e.name, a) && e.name != a { LessTransitive(e.name, a, b); }
    }
    SizeAtMost(Within(m, "", a), Below(m, b));
  }

  /** A boundary that takes all entries up to some name is not a cut. */
  lemma FullRangeEnds(pool: multiset<Entry>, hi: string)
    requires hi != ""
    ensures EndsWithName(pool, |Within(pool, "", hi)|)
  {
    forall name | name != "" ensures !Cut(pool, |Within(pool, "", hi)|, name) {
      LessTrichotomy(name, hi);
      if AtMost(name, hi) { WithinGrows(pool, name, hi); } else { WithinIsBelow(pool, hi, name); }
    }
  }

  lemma SameBelow(m: multiset<Entry>, pool: multiset<Entry>, hi: string)
    requires hi != "" && NamedPool(m) && NamedPool(pool) && Within(m, "", hi) == Within(pool, "", hi)
    ensures Below(m, hi) == Below(pool, hi)
  {
    forall e: Entry ensures Below(m, hi)[e] == Below(pool, hi)[e] {
      assert Within(m, "", hi)[e] == Within(pool, "", hi)[e];
    }
  }

  lemma BelowLast(m: seq<Entry>, size: nat, hi: string)
    requires NameSorted(m) && 0 < size <= |m| && hi == m[size - 1].name && hi != ""
    ensures |Below(multiset(m), hi)| < size
  {
    LessTrichotomy(hi, hi);
    RankBelow(m, size - 1, hi);
  }

  /** A page that leaves out a copy of its range ends inside a name. */
  lemma ShortPageIsCut(m: seq<Entry>, size: nat, pool: multiset<Entry>, hi: string)
    requires NameSorted(m) && Named(m) && 0 < size <= |m| && NamedPool(pool) && hi == m[size - 1].name
    requires Within(multiset(m), "", hi) == Within(pool, "", hi) && size < |Within(pool, "", hi)|
    ensures Cut(pool, size, hi)
  {
    BelowLast(m, size, hi);
    NamedIsPool(m);
    SameBelow(multiset(m), pool, hi);
  }

  lemma NamedIsPool(m: seq<Entry>)
    requires Named(m)
    ensures NamedPool(multiset(m))
  {
    forall e | e in multiset(m) ensures e.name != "" { var k := IndexOf(m, e); }
  }

  /** A full page has every copy of its range exactly if it does not end inside a name. */
  lemma FullPageIsWholeIff(m: seq<Entry>, size: nat, pool: multiset<Entry>)
    requires NameSorted(m) && Named(m) && 0 < size <= |m| && NamedPool(pool)
    requires Within(multiset(m), "", m[size - 1].name) == Within(pool, "", m[size - 1].name)
    ensures multiset(m[..size]) == Within(pool, "", m[size - 1].name) <==> EndsWithName(pool, size)
  {
    var hi := m[size - 1].name;
    var page, range := multiset(m[..size]), Within(pool, "", hi);
    assert page <= range by { CutCountsAtMost(m, size, hi); }
    SizeAtMost(page, range);
    if page == range { FullRangeEnds(pool, hi); } else { ShortPageIsCut(m, size, pool, hi); }
  }

  lemma ShortPoolEnds(pool: multiset<Entry>, n: nat)
    requires |pool| <= n
    ensures EndsWithName(pool, n)
  {
    forall name | name != "" ensures !Cut(pool, n, name) {
      assert Within(pool, "", name) <= pool;
      SizeAtMost(Within(pool, "", name), pool);
    }
  }

  // ----- runs ---------------------------------------------------------------------------

  /** The boundaries of the first `p` pages fall between names. */
  ghost predicate FirstEnd(m: multiset<Entry>, size: nat, p: nat) {
    forall k :: 1 <= k <= p ==> PageEnds(m, size, k)
  }

  /** No page boundary falls between two entries of the same name. */
  ghost predicate AllEnd(m: multiset<Entry>, size: nat) { forall k :: 1 <= k ==> PageEnds(m, size, k) }

  lemma RestCount(all: multiset<Entry>, token: string, name: string, e: Entry)
    requires NamedPool(all) && token != "" && Less(token, name)
    ensures var rest, head := Within(all, token, ""), Within(all, "", token);
            && Within(all, "", name)[e] == head[e] + Within(rest, "", name)[e]
            && Below(all, name)[e] == head[e] + Below(rest, name)[e]
  {
    LessTrichotomy(e.name, token);
    LessTrichotomy("", e.name);
    if Less(e.name, token) { LessTransitive(e.name, token, name); }
  }

  lemma RestCounts(all: multiset<Entry>, token: string, name: string)
    requires NamedPool(all) && token != "" && Less(token, name)
    ensures var rest, head := Within(all, token, ""), Within(all, "", token);
            && |Within(all, "", name)| == |head| + |Within(rest, "", name)|
            && |Below(all, name)| == |head| + |Below(rest, name)|
  {
    var rest, head := Within(all, token, ""), Within(all, "", token);
    assert Within(all, "", name) == head + Within(rest, "", name) by {
      forall e: Entry ensures Within(all, "", name)[e] == (head + Within(rest, "", name))[e] {
        RestCount(all, token, name, e);
      }
    }
    assert Below(all, name) == head + Below(rest, name) by {
      forall e: Entry ensures Below(all, name)[e] == (head + Below(rest, name))[e] { RestCount(all, token, name, e); }
    }
  }

  lemma NothingBefore(all: multiset<Entry>, token: string, name: string)
    requires name != "" && AtMost(name, token)
    ensures Within(Within(all, token, ""), "", name) == multiset{}
  {
    forall e: Entry ensures Within(Within(all, token, ""), "", name)[e] == 0 {
      if AtMost(e.name, name) && Less(token, e.name) { LessIsTotalOrder(); }
    }
  }

  /** Boundaries of the rest are boundaries of the whole, further on. */
  lemma RestEndsIff(all: multiset<Entry>, token: string, size: nat, total: nat)
    requires NamedPool(all) && token != "" && size > 0 && total == |Within(all, "", token)| + size
    ensures EndsWithName(Within(all, token, ""), size) <==> EndsWithName(all, total)
  {
    var rest := Within(all, token, "");
    forall name | name != "" ensures Cut(rest, size, name) <==> Cut(all, total, name) {
      LessTrichotomy(name, token);
      if Less(token, name) {
        RestCounts(all, token, name);
      } else {
        WithinGrows(all, name, token);
        NothingBefore(all, token, name);
      }
    }
  }

  /** Parts that are within theirs add up to the whole exactly if both are whole. */
  lemma BothWhole(a: multiset<Entry>, p: multiset<Entry>, b: multiset<Entry>, q: multiset<Entry>)
    requires a <= p && b <= q
    ensures a + b == p + q <==> a == p && b == q
  {
    SizeAtMost(a, p);
    SizeAtMost(b, q);
    assert |a + b| == |a| + |b| && |p + q| == |p| + |q|;
  }

  lemma OneMoreEnds(all: multiset<Entry>, token: string, size: nat, p: nat)
    requires NamedPool(all) && token != "" && size > 0 && |Within(all, "", token)| == Boundary(size, p)
    ensures PageEnds(all, size, p + 1) <==> EndsWithName(Within(all, token, ""), size)
  {
    RestEndsIff(all, token, size, Boundary(size, p + 1));
  }

  lemma FirstEndMore(m: multiset<Entry>, size: nat, p: nat)
    ensures FirstEnd(m, size, p + 1) <==> FirstEnd(m, size, p) && PageEnds(m, size, p + 1)
  {
  }

  /** After one more page. */
  lemma RunStep(all: multiset<Entry>, lst: seq<Entry>, token: string, page: seq<Entry>, next: string, size: nat, p: nat)
    requires NamedPool(all) && token != "" && size > 0 && (next != "" ==> Less(token, next))
             && |lst| == Boundary(size, p)
    requires multiset(lst) <= Within(all, "", token) && multiset(page) <= Within(all, token, next)
    requires multiset(lst) == Within(all, "", token) <==> FirstEnd(all, size, p)
    requires multiset(page) == Within(all, token, next) <==> EndsWithName(Within(all, token, ""), size)
    ensures multiset(lst + page) == Within(all, "", next) <==> FirstEnd(all, size, p + 1)
  {
    var head, tail := Within(all, "", token), Within(all, token, next);
    assert Within(all, "", next) == head + tail by {
      LessTrichotomy("", token);
      WithinSplits(all, "", token, next);
    }
    BothWhole(multiset(lst), head, multiset(page), tail);
    FirstEndMore(all, size, p);
    if multiset(lst) == head { OneMoreEnds(all, token, size, p); }
    assert multiset(lst + page) == multiset(lst) + multiset(page);
  }

  /** After the last page. */
  lemma RunEnds(all: multiset<Entry>, lst: seq<Entry>, size: nat, p: nat)
    requires multiset(lst) == all <==> FirstEnd(all, size, p)
    requires |lst| <= Boundary(size, p)
    ensures multiset(lst) == all <==> AllEnd(all, size)
  {
    if multiset(lst) == all {
      forall k | 1 <= k ensures PageEnds(all, size, k) {
        if k > p {
          BoundariesGrow(size, p, k);
          ShortPoolEnds(all, Boundary(size, k));
        }
      }
    }
  }

  /** In the sorted listing, page `k` ends between two entries of the same name. */
  ghost predicate Splits(m: seq<Entry>, size: nat, k: nat) {
    var n := Boundary(size, k);
    0 < n < |m| && m[n - 1].name == m[n].name
  }

  /** In terms of the sorted listing: which page boundaries matter. */
  lemma AllEndInOrder(m: seq<Entry>, size: nat)
    requires NameSorted(m) && Named(m)
    ensures AllEnd(multiset(m), size) <==> forall k :: 1 <= k ==> !Splits(m, size, k)
  {
    forall k: nat ensures PageEnds(multiset(m), size, k) <==> !Splits(m, size, k) {
      PageEndsInOrder(m, size, k);
    }
  }

  lemma PageEndsInOrder(m: seq<Entry>, size: nat, k: nat)
    requires NameSorted(m) && Named(m)
    ensures PageEnds(multiset(m), size, k) <==> !Splits(m, size, k)
  {
    var n := Boundary(size, k);
    forall name | name != "" ensures Cut(multiset(m), n, name) <==> 0 < n < |m| && m[n - 1].name == name == m[n].name {
      CutInOrder(m, n, name);
    }
    if Splits(m, size, k) { assert Cut(multiset(m), n, m[n].name); }
  }

  /** Pages of one entry lose nothing exactly if no name is listed twice. */
  lemma OneEntryPages(all: multiset<Entry>)
    requires NamedPool(all)
    ensures AllEnd(all, 1) <==> NameDistinct(all)
  {
    if AllEnd(all, 1) {
      forall e, f | e in all && f in all && e.name == f.name ensures e == f && all[e] == 1 {
        var n := |Below(all, e.name)| + 1;
        BoundaryIsMultiple(1, n);
        assert PageEnds(all, 1, n) && !Cut(all, n, e.name);
        if e != f || all[e] > 1 { TwoOfName(all, e, f); }
      }
    }
    if NameDistinct(all) { DistinctEnds(all, 1); }
  }

  lemma TwoOfName(all: multiset<Entry>, e: Entry, f: Entry)
    requires NamedPool(all) && e.name == f.name && multiset{e, f} <= all
    ensures Cut(all, |Below(all, e.name)| + 1, e.name)
  {
    var name := e.name;
    LessTrichotomy(name, name);
    LessTrichotomy("", name);
    var more := Below(all, name) + multiset{e, f};
    forall x: Entry ensures more[x] <= Within(all, "", name)[x] {
      if x in all { LessTrichotomy("", x.name); }
    }
    SizeAtMost(more, Within(all, "", name));
  }

  /** Distinct names leave nothing to lose, whatever the size of the pages. */
  lemma DistinctEnds(all: multiset<Entry>, size: nat)
    requires NamedPool(all) && NameDistinct(all)
    ensures AllEnd(all, size)
  {
    forall k, name | 1 <= k && name != "" ensures !Cut(all, Boundary(size, k), name) { AtMostOneOfName(all, name); }
  }

  lemma AtMostOneOfName(all: multiset<Entry>, name: string)
    requires NamedPool(all) && NameDistinct(all) && name != ""
    ensures |Within(all, "", name)| <= |Below(all, name)| + 1
  {
    var below, within := Below(all, name), Within(all, "", name);
    WithinName(all, name);
    var group := within - below;
    assert within == below + group;
    if e :| e in group {
      forall x: Entry ensures group[x] <= multiset{e}[x] {
        assert x in group ==> x.name == e.name && x in all && all[x] == 1;
      }
      SizeAtMost(group, multiset{e});
    }
  }

  /** Up to a name there is what is below it, and the entries of that name. */
  lemma WithinName(all: multiset<Entry>, name: string)
    requires NamedPool(all) && name != ""
    ensures forall x: Entry ::
              Within(all, "", name)[x] == Below(all, name)[x] + if x.name == name then all[x] else 0
  {
    forall x: Entry ensures Within(all, "", name)[x] == Below(all, name)[x] + if x.name == name then all[x] else 0 {
      if x in all { LessTrichotomy("", x.name); }
      LessTrichotomy(x.name, name);
    }
  }
}
