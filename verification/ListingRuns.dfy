/** Whole listings: `lsAllPagesS3` asks for page after page until the continuation
    token is empty. The theorem is that the pages add up to the simple listing. */
module ListingRuns {
  import opened Basics
  import opened Names
  import opened Listing
  import opened ListingCuts

  const MAX_PAGE_SIZE_AIS := 10000

  /** The page size asked for, or ten thousand. */
  ghost function SizeOf(pageSize: nat): nat { if pageSize > 0 then pageSize else 10000 }

  /** The inventories of the targets: each sorted, without repeated or empty names, and
      without directory entries when the listing is recursive. */
  ghost predicate Inventories(invs: seq<seq<Entry>>, noRecursion: bool) {
    forall t :: 0 <= t < |invs| ==>
      StrictlySorted(invs[t]) && Named(invs[t]) && (noRecursion || NoDirs(invs[t]))
  }

  // ----- targets --------------------------------------------------------------

  /** `inv[i..j]` is the part of a sorted inventory after `lo` and up to `hi`. */
  ghost predicate SliceAt(inv: seq<Entry>, i: nat, j: nat, lo: string, hi: string) {
    && i <= j <= |inv|
    && (forall k :: 0 <= k < i ==> AtMost(inv[k].name, lo))
    && (forall k :: i <= k < |inv| ==> Less(lo, inv[k].name))
    && (if hi == "" then j == |inv| else j > i && hi == inv[j - 1].name)
  }

  lemma SliceRange(inv: seq<Entry>, i: nat, j: nat, lo: string, hi: string, k: nat)
    requires StrictlySorted(inv) && SliceAt(inv, i, j, lo, hi) && k < |inv|
    ensures InRange(inv[k].name, lo, hi) <==> i <= k < j
  {
    LessTrichotomy(lo, inv[k].name);
    LessTrichotomy(inv[k].name, hi);
  }

  lemma SliceIsWithin(inv: seq<Entry>, i: nat, j: nat, lo: string, hi: string)
    requires StrictlySorted(inv) && SliceAt(inv, i, j, lo, hi)
    ensures multiset(inv[i..j]) == Within(multiset(inv), lo, hi)
  {
    forall e: Entry ensures multiset(inv[i..j])[e] == Within(multiset(inv), lo, hi)[e] {
      SliceCounts(inv, i, j, lo, hi, e);
    }
  }

  /** An entry is in range exactly if it is in the slice, and not before or after it. */
  lemma PartInRange(inv: seq<Entry>, i: nat, j: nat, lo: string, hi: string, a: nat, b: nat, e: Entry)
    requires StrictlySorted(inv) && SliceAt(inv, i, j, lo, hi) && a <= b <= |inv| && e in multiset(inv[a..b])
    ensures i <= a && b <= j ==> InRange(e.name, lo, hi)
    ensures b <= i || j <= a ==> !InRange(e.name, lo, hi)
  {
    var k := IndexOf(inv[a..b], e);
    SliceRange(inv, i, j, lo, hi, a + k);
  }

  lemma SplitCounts(inv: seq<Entry>, i: nat, j: nat, e: Entry)
    requires i <= j <= |inv|
    ensures multiset(inv)[e] == multiset(inv[0..i])[e] + multiset(inv[i..j])[e] + multiset(inv[j..|inv|])[e]
  {
    assert inv == inv[0..i] + inv[i..j] + inv[j..|inv|];
  }

  lemma SliceCounts(inv: seq<Entry>, i: nat, j: nat, lo: string, hi: string, e: Entry)
    requires StrictlySorted(inv) && SliceAt(inv, i, j, lo, hi)
    ensures multiset(inv[i..j])[e] == if InRange(e.name, lo, hi) then multiset(inv)[e] else 0
  {
    var n := |inv|;
    SplitCounts(inv, i, j, e);
    if e in multiset(inv[i..j]) { PartInRange(inv, i, j, lo, hi, i, j, e); }
    if e in multiset(inv[0..i]) { PartInRange(inv, i, j, lo, hi, 0, i, e); }
    if e in multiset(inv[j..n]) { PartInRange(inv, i, j, lo, hi, j, n, e); }
  }

  lemma RestIsReply(inv: seq<Entry>, i: nat, token: string)
    requires StrictlySorted(inv) && SliceAt(inv, i, |inv|, token, "")
    ensures Reply(inv, token, Page(inv[i..], "")) && StrictlySorted(inv[i..])
  {
    assert inv[i..] == inv[i..|inv|];
    SliceIsWithin(inv, i, |inv|, token, "");
  }

  lemma SliceIsReply(inv: seq<Entry>, i: nat, j: nat, token: string)
    requires StrictlySorted(inv) && Named(inv) && i < j <= |inv| && SliceAt(inv, i, j, token, inv[j - 1].name)
    ensures Reply(inv, token, Page(inv[i..j], inv[j - 1].name)) && StrictlySorted(inv[i..j])
  {
    SliceIsWithin(inv, i, j, token, inv[j - 1].name);
  }

  /** A target lists the next `size` of its names after the token (`doPageA`). */
  method TargetPage(inv: seq<Entry>, token: string, size: nat) returns (reply: Page)
    requires StrictlySorted(inv) && Named(inv) && size > 0
    ensures SizedReply(inv, token, size, reply)
  {
    var i := SearchAfter(inv, token);
    if |inv| - i >= size {
      SliceIsReply(inv, i, i + size, token);
      reply := Page(inv[i..i + size], inv[i + size - 1].name);
      assert reply.entries[size - 1] == inv[i + size - 1];
    } else {
      RestIsReply(inv, i, token);
      reply := Page(inv[i..], "");
    }
  }

  /** A target lists some next names of its inventory after the token: the size of the
      page is the target's choice, and it may or may not notice that it is the last one. */
  method TargetInventoryPage(inv: seq<Entry>, token: string) returns (reply: Page)
    requires StrictlySorted(inv) && Named(inv)
    ensures Reply(inv, token, reply)
    ensures reply.token != "" ==> HasName(inv, reply.token)
  {
    var size: nat :| size > 0;
    reply := TargetPage(inv, token, size);
    if reply.token != "" {
      assert reply.entries[size - 1] in multiset(reply.entries);
      var k := IndexOf(inv, reply.entries[size - 1]);
    }
    var i := SearchAfter(inv, token);
    if * {
      RestIsReply(inv, i, token);
      reply := Page(inv[i..], "");
    }
  }

  // ----- one page -------------------------------------------------------------

  lemma {:induction false} EntryOfAll(invs: seq<seq<Entry>>, t: nat, name: string)
    requires t < |invs| && HasName(invs[t], name)
    ensures NameIn(All(invs), name)
  {
    if t == 0 {
      var i :| 0 <= i < |invs[0]| && invs[0][i].name == name;
      assert invs[0][i] in multiset(invs[0]);
      assert invs[0][i] in All(invs);
    } else {
      EntryOfAll(invs[1..], t - 1, name);
      var e :| e in All(invs[1..]) && e.name == name;
      assert e in All(invs);
    }
  }

  ghost predicate NameIn(m: multiset<Entry>, name: string) {
    exists e :: e in m && e.name == name
  }

  /** What merging the replies needs to know about them. */
  ghost predicate Proper(entries: seq<Entry>, noRecursion: bool) {
    Named(entries) && (noRecursion || NoDirs(entries))
  }

  lemma {:induction false} RepliesAreProper(invs: seq<seq<Entry>>, token: string, replies: seq<Page>, noRecursion: bool)
    requires Inventories(invs, noRecursion) && Replies(invs, token, replies)
    ensures Proper(Concat(replies), noRecursion)
  {
    if invs != [] {
      assert Reply(invs[0], token, replies[0]);
      assert Replies(invs[1..], token, replies[1..]) by {
        forall t | 0 <= t < |invs| - 1 ensures Reply(invs[1..][t], token, replies[1..][t]) {
          assert Reply(invs[t + 1], token, replies[t + 1]);
        }
      }
      RepliesAreProper(invs[1..], token, replies[1..], noRecursion);
      var own := replies[0].entries;
      forall i | 0 <= i < |own| ensures own[i].name != "" && (noRecursion || !own[i].isDir) {
        assert own[i] in multiset(own);
        var k := IndexOf(invs[0], own[i]);
      }
    }
  }

  ghost function RunMode(invs: seq<seq<Entry>>, noRecursion: bool, nbi: bool): Mode {
    if nbi then NbiMode(noRecursion) else SizedMode(invs, noRecursion)
  }

  ghost predicate Answer(inv: seq<Entry>, token: string, size: nat, nbi: bool, reply: Page) {
    && Reply(inv, token, reply)
    && (nbi || SizedReply(inv, token, size, reply))
    && (reply.token != "" ==> HasName(inv, reply.token))
  }

  method AskTarget(inv: seq<Entry>, token: string, size: nat, nbi: bool) returns (reply: Page)
    requires StrictlySorted(inv) && Named(inv) && size > 0
    ensures Answer(inv, token, size, nbi, reply)
  {
    if nbi {
      reply := TargetInventoryPage(inv, token);
    } else {
      reply := TargetPage(inv, token, size);
      SizedTokenIsName(inv, token, size, reply);
    }
  }

  /** Which targets fail to list after which tokens. */
  type Failures = (int, string) -> bool

  ghost predicate AnyFails(n: nat, token: string, fails: Failures) { exists t :: 0 <= t < n && fails(t, token) }

  /** The replies of the first targets. */
  ghost predicate Answers(invs: seq<seq<Entry>>, token: string, size: nat, nbi: bool, replies: seq<Page>) {
    |replies| <= |invs| && forall t :: 0 <= t < |replies| ==> Answer(invs[t], token, size, nbi, replies[t])
  }

  /** Ask every target for the next page; a failed target fails the call. */
  method BcastList(invs: seq<seq<Entry>>, token: string, size: nat, nbi: bool, fails: Failures)
    returns (replies: Option<seq<Page>>)
    requires size > 0
    requires forall t :: 0 <= t < |invs| ==> StrictlySorted(invs[t]) && Named(invs[t])
    ensures replies.None? <==> AnyFails(|invs|, token, fails)
    ensures replies.Some? ==> |replies.value| == |invs| && Answers(invs, token, size, nbi, replies.value)
  {
    var all: seq<Page> := [];
    for t := 0 to |invs|
      invariant |all| == t && !AnyFails(t, token, fails) && Answers(invs, token, size, nbi, all)
    {
      if fails(t, token) { return None; }
      var reply := AskTarget(invs[t], token, size, nbi);
      all := all + [reply];
    }
    replies := Some(all);
  }

  lemma AnswersAreReplies(invs: seq<seq<Entry>>, token: string, size: nat, nbi: bool, replies: seq<Page>)
    requires |replies| == |invs| && Answers(invs, token, size, nbi, replies)
    ensures Replies(invs, token, replies) && (nbi || SizedReplies(invs, token, size, replies))
  {
  }

  lemma SizedTokenIsName(inv: seq<Entry>, token: string, size: nat, reply: Page)
    requires SizedReply(inv, token, size, reply)
    ensures reply.token != "" ==> HasName(inv, reply.token)
  {
  }

  /** Whether a target's reply is kept for merging. */
  predicate Kept(p: Page, nbi: bool) { |p.entries| > 0 || (nbi && p.token != "") }

  ghost function KeptOf(replies: seq<Page>, nbi: bool, n: nat): seq<Page>
    requires n <= |replies|
  {
    if n == 0 then []
    else if Kept(replies[n - 1], nbi) then KeptOf(replies, nbi, n - 1) + [replies[n - 1]]
    else KeptOf(replies, nbi, n - 1)
  }

  lemma {:induction false} KeptFrom(replies: seq<Page>, nbi: bool, n: nat, t: nat) returns (i: nat)
    requires n <= |replies| && t < |KeptOf(replies, nbi, n)|
    ensures i < n && replies[i] == KeptOf(replies, nbi, n)[t]
  {
    if t < |KeptOf(replies, nbi, n - 1)| { i := KeptFrom(replies, nbi, n - 1, t); } else { i := n - 1; }
  }

  lemma {:induction false} KeptAt(replies: seq<Page>, nbi: bool, n: nat, i: nat) returns (t: nat)
    requires i < n <= |replies| && Kept(replies[i], nbi)
    ensures t < |KeptOf(replies, nbi, n)| && KeptOf(replies, nbi, n)[t] == replies[i]
  {
    if i < n - 1 { t := KeptAt(replies, nbi, n - 1, i); } else { t := |KeptOf(replies, nbi, n - 1)|; }
  }

  lemma ConcatMore(lists: seq<Page>, p: Page)
    ensures Concat(lists + [p]) == Concat(lists) + p.entries
  {
    var more := lists + [p];
    ConcatStep(more, |lists|);
    assert more[..|lists|] == lists && more[..|lists| + 1] == more;
  }

  /** Dropping empty replies does not change what is merged. */
  lemma {:induction false} KeptEntries(replies: seq<Page>, nbi: bool, n: nat)
    requires n <= |replies|
    ensures Concat(KeptOf(replies, nbi, n)) == Concat(replies[..n])
  {
    if n > 0 {
      KeptEntries(replies, nbi, n - 1);
      ConcatStep(replies, n - 1);
      ConcatMore(KeptOf(replies, nbi, n - 1), replies[n - 1]);
    }
  }

  /** Nor does it change how far the slowest target has come. */
  lemma KeptTokens(replies: seq<Page>, token: string)
    requires IsMinToken(KeptOf(replies, true, |replies|), token)
    ensures IsMinToken(replies, token)
  {
    var lists := KeptOf(replies, true, |replies|);
    forall i | 0 <= i < |replies| && replies[i].token != "" ensures token != "" && AtMost(token, replies[i].token) {
      var t := KeptAt(replies, true, |replies|, i);
    }
    if token != "" {
      var t :| 0 <= t < |lists| && lists[t].token == token;
      var i := KeptFrom(replies, true, |replies|, t);
    }
  }

  method DropEmpty(replies: seq<Page>, nbi: bool) returns (lists: seq<Page>)
    ensures lists == KeptOf(replies, nbi, |replies|) && Concat(lists) == Concat(replies)
    ensures nbi ==> forall token :: IsMinToken(lists, token) ==> IsMinToken(replies, token)
  {
    lists := [];
    for i := 0 to |replies|
      invariant lists == KeptOf(replies, nbi, i)
    {
      if Kept(replies[i], nbi) { lists := lists + [replies[i]]; }
    }
    KeptEntries(replies, nbi, |replies|);
    assert replies[..|replies|] == replies;
    if nbi {
      forall token | IsMinToken(lists, token) ensures IsMinToken(replies, token) { KeptTokens(replies, token); }
    }
  }

  lemma RangeInRest(all: multiset<Entry>, token: string, hi: string)
    ensures NamedPool(Within(all, token, "")) && Within(Within(all, token, ""), "", hi) == Within(all, token, hi)
  {
    forall e: Entry ensures Within(Within(all, token, ""), "", hi)[e] == Within(all, token, hi)[e] {
      LessTrichotomy("", e.name);
      LessTrichotomy(token, e.name);
    }
  }

  /** A page of a recursive listing has every copy of its range exactly if the entries that
      are left, in the order of names, do not have the same name right before and right
      after the end of the page. */
  lemma PageIsWholeIff(invs: seq<seq<Entry>>, token: string, size: nat, replies: seq<Page>, m: seq<Entry>, page: Page)
    requires SizedReplies(invs, token, size, replies) && size > 0
    requires IsMerge(m, Concat(replies), false) && Named(m) && IsFinalPage(m, size, page)
    ensures multiset(page.entries) == Within(All(invs), token, page.token) <==>
            EndsWithName(Within(All(invs), token, ""), size)
  {
    var rest := Within(All(invs), token, "");
    PageRange(invs, token, size, replies, false, m, page);
    RangeInRest(All(invs), token, page.token);
    if size <= |m| {
      FullPageIsWholeIff(m, size, rest);
    } else {
      assert m[..|m|] == m;
      StrictCut(m, |m|, "", true);
      CutCounts(m, |m|, "");
      ShortPoolEnds(rest, size);
    }
  }

  /** One page of a listing: exactly the entries after the request's token up to the
      page's own token, in the mode of the listing. */
  method LsObjsA(invs: seq<seq<Entry>>, token: string, pageSize: nat, noRecursion: bool, nbi: bool, fails: Failures)
    returns (page: Option<Page>)
    requires Inventories(invs, noRecursion)
    ensures page.None? <==> AnyFails(|invs|, token, fails)
    ensures page.Some? ==>
              Lists(RunMode(invs, noRecursion, nbi), page.value.entries, Within(All(invs), token, page.value.token))
    ensures page.Some? && page.value.token != "" ==>
            Less(token, page.value.token) && NameIn(All(invs), page.value.token)
    ensures page.Some? && !nbi ==> IsSizedPage(page.value, token, SizeOf(pageSize))
    ensures page.Some? && !nbi && !noRecursion ==>
              (IsWhole(All(invs), token, page.value) <==>
               EndsWithName(Within(All(invs), token, ""), SizeOf(pageSize)))
  {
    var size := if pageSize == 0 then MAX_PAGE_SIZE_AIS else pageSize;
    var replies := BcastList(invs, token, size, nbi, fails);
    if replies.None? { return None; }
    AnswersAreReplies(invs, token, size, nbi, replies.value);
    RepliesAreProper(invs, token, replies.value, noRecursion);
    var p;
    if nbi {
      p := MergeInventories(invs, token, size, noRecursion, replies.value);
    } else {
      p := MergePages(invs, token, size, noRecursion, replies.value);
    }
    page := Some(p);
  }

  method MergeInventories(ghost invs: seq<seq<Entry>>, ghost token: string, ghost size: nat, noRecursion: bool,
                          replies: seq<Page>) returns (p: Page)
    requires Inventories(invs, noRecursion) && |replies| == |invs| && Answers(invs, token, size, true, replies)
    requires Replies(invs, token, replies) && Proper(Concat(replies), noRecursion)
    ensures Lists(NbiMode(noRecursion), p.entries, Within(All(invs), token, p.token))
    ensures p.token != "" ==> Less(token, p.token) && NameIn(All(invs), p.token)
  {
    var lists := DropEmpty(replies, true);
    p := FinLsoNBI(lists, noRecursion);
    NbiPageIsExact(invs, token, replies, noRecursion, p);
    if p.token != "" {
      ghost var t :| 0 <= t < |invs| && replies[t].token == p.token;
      assert Answer(invs[t], token, size, true, replies[t]);
      EntryOfAll(invs, t, p.token);
    }
  }

  method MergePages(ghost invs: seq<seq<Entry>>, ghost token: string, size: nat, noRecursion: bool, replies: seq<Page>)
    returns (p: Page)
    requires Inventories(invs, noRecursion) && size > 0 && SizedReplies(invs, token, size, replies)
    requires Replies(invs, token, replies) && Proper(Concat(replies), noRecursion)
    ensures Lists(SizedMode(invs, noRecursion), p.entries, Within(All(invs), token, p.token))
    ensures p.token != "" ==> Less(token, p.token) && NameIn(All(invs), p.token)
    ensures IsSizedPage(p, token, size)
    ensures !noRecursion ==> (IsWhole(All(invs), token, p) <==> EndsWithName(Within(All(invs), token, ""), size))
  {
    var lists := DropEmpty(replies, false);
    var m := ConcatLso(lists, noRecursion);
    NamedMerge(m, Concat(replies));
    p := FinLsoA(m, noRecursion, size);
    SizedPageIsExact(invs, token, size, replies, noRecursion, m, p);
    if !noRecursion { PageIsWholeIff(invs, token, size, replies, m, p); }
    if p.token != "" {
      assert p.entries[size - 1] in Within(All(invs), token, p.token);
      assert p.entries[size - 1] in All(invs);
    }
  }

  // ----- whole runs -----------------------------------------------------------

  ghost function NamesAfter(m: multiset<Entry>, token: string): set<string> {
    set e | e in m && Less(token, e.name) :: e.name
  }

  lemma TokenAdvances(m: multiset<Entry>, token: string, next: string)
    requires Less(token, next) && NameIn(m, next)
    ensures NamesAfter(m, next) < NamesAfter(m, token)
  {
    var e :| e in m && e.name == next;
    assert next in NamesAfter(m, token);
    LessIsTotalOrder();
  }

  lemma {:induction false} EverythingIsNamed(invs: seq<seq<Entry>>)
    requires forall t :: 0 <= t < |invs| ==> Named(invs[t])
    ensures Within(All(invs), "", "") == All(invs)
  {
    if invs != [] {
      EverythingIsNamed(invs[1..]);
      forall e | e in All(invs) ensures Less("", e.name) {
        if e in multiset(invs[0]) {
          var k := IndexOf(invs[0], e);
        } else {
          assert e in Within(All(invs[1..]), "", "");
        }
      }
    }
  }

  lemma StrictCountsOnce(s: seq<Entry>, i: nat)
    requires StrictlySorted(s) && i < |s|
    ensures multiset(s)[s[i]] == 1
  {
    LessTrichotomy(s[i].name, s[i].name);
    assert s == s[..i] + [s[i]] + s[i + 1..];
    assert s[i] !in s[..i] && s[i] !in s[i + 1..];
  }

  /** A listing without repeated names returns every copy only if no name has two. */
  lemma StrictIsDistinct(s: seq<Entry>)
    requires StrictlySorted(s)
    ensures NameDistinct(multiset(s))
  {
    forall e, f | e in multiset(s) && f in multiset(s) && e.name == f.name ensures e == f && multiset(s)[e] == 1 {
      var i := IndexOf(s, e);
      var j := IndexOf(s, f);
      LessTrichotomy(e.name, f.name);
      StrictCountsOnce(s, i);
    }
  }

  /** The page, or the listing so far, has every copy of its range. */
  ghost predicate IsWhole(all: multiset<Entry>, lo: string, p: Page) { multiset(p.entries) == Within(all, lo, p.token) }

  /** What the first `p` pages of a recursive regular listing have: a page's worth of
      entries each, and every copy exactly if none of them ends inside a name. */
  ghost predicate Progress(all: multiset<Entry>, lst: Page, size: nat, p: nat) {
    && |lst.entries| <= Boundary(size, p) && (lst.token != "" ==> |lst.entries| == Boundary(size, p))
    && multiset(lst.entries) <= Within(all, "", lst.token)
    && (IsWhole(all, "", lst) <==> FirstEnd(all, size, p))
  }

  lemma FirstPage(all: multiset<Entry>, page: Page, size: nat)
    requires Within(all, "", "") == all && IsSizedPage(page, "", size)
    requires multiset(page.entries) <= Within(all, "", page.token)
    requires IsWhole(all, "", page) <==> EndsWithName(Within(all, "", ""), size)
    ensures Progress(all, page, size, 1)
  {
    FirstPageEnds(all, size);
  }

  lemma FirstPageEnds(all: multiset<Entry>, size: nat)
    ensures Boundary(size, 1) == size && (FirstEnd(all, size, 1) <==> EndsWithName(all, size))
  {
    assert Boundary(size, 1) == Boundary(size, 0) + size;
    FirstEndMore(all, size, 0);
    assert FirstEnd(all, size, 0);
  }

  lemma NextPage(all: multiset<Entry>, lst: Page, page: Page, size: nat, p: nat)
    requires NamedPool(all) && size > 0 && lst.token != "" && Progress(all, lst, size, p)
    requires multiset(page.entries) <= Within(all, lst.token, page.token) && IsSizedPage(page, lst.token, size)
    requires IsWhole(all, lst.token, page) <==> EndsWithName(Within(all, lst.token, ""), size)
    ensures Progress(all, Page(lst.entries + page.entries, page.token), size, p + 1)
  {
    RunStep(all, lst.entries, lst.token, page.entries, page.token, size, p);
    LessTrichotomy("", lst.token);
    WithinSplits(all, "", lst.token, page.token);
  }

  /** The listing so far; `sized` for a recursive regular one. */
  ghost predicate SoFar(mode: Mode, all: multiset<Entry>, lst: Page, sized: bool, size: nat, p: nat) {
    && Lists(mode, lst.entries, Within(all, "", lst.token))
    && (sized ==> Progress(all, lst, size, p))
  }

  /** What a page adds to the listing before it. */
  ghost predicate Adds(mode: Mode, all: multiset<Entry>, token: string, page: Page, sized: bool, size: nat) {
    && Lists(mode, page.entries, Within(all, token, page.token))
    && (page.token != "" ==> Less(token, page.token))
    && (sized ==>
          && mode != Collapsed && IsSizedPage(page, token, size)
          && (IsWhole(all, token, page) <==> EndsWithName(Within(all, token, ""), size)))
  }

  lemma FirstAdds(mode: Mode, all: multiset<Entry>, page: Page, sized: bool, size: nat)
    requires Adds(mode, all, "", page, sized, size) && Within(all, "", "") == all
    ensures SoFar(mode, all, page, sized, size, 1)
  {
    if sized { FirstPage(all, page, size); }
  }

  lemma NextAdds(mode: Mode, all: multiset<Entry>, lst: Page, page: Page, sized: bool, size: nat, p: nat)
    requires NamedPool(all) && size > 0 && lst.token != ""
    requires SoFar(mode, all, lst, sized, size, p) && Adds(mode, all, lst.token, page, sized, size)
    ensures SoFar(mode, all, Page(lst.entries + page.entries, page.token), sized, size, p + 1)
  {
    LessTrichotomy("", lst.token);
    ListsAppend(mode, all, lst.entries, page.entries, "", lst.token, page.token);
    if sized { NextPage(all, lst, page, size, p); }
  }

  lemma RunIsListed(mode: Mode, all: multiset<Entry>, lst: Page, sized: bool, size: nat, p: nat)
    requires SoFar(mode, all, lst, sized, size, p) && lst.token == "" && Within(all, "", "") == all
    ensures Lists(mode, lst.entries, all)
    ensures sized ==> (multiset(lst.entries) == all <==> AllEnd(all, size))
    ensures mode == Collapsed ==> (multiset(lst.entries) == all <==> NameDistinct(all))
  {
    if sized { RunEnds(all, lst.entries, size, p); }
    if mode == Collapsed { CollapsedIsWholeIff(all, lst.entries); }
  }

  /** Listing all pages terminates and returns the simple listing: the sorted union of all
      inventories. A run that fails, because a target fails to list after the last
      token reached, returns the listing up to that token.
      Every copy of every object comes back, in a recursive regular listing, exactly if no
      page boundary falls between two entries of the same name, and in a listing that is not
      recursive exactly if no name is shared. */
  method LsAllPagesS3(invs: seq<seq<Entry>>, pageSize: nat, noRecursion: bool, nbi: bool, fails: Failures)
    returns (lst: Page, ok: bool)
    requires Inventories(invs, noRecursion)
    ensures !ok ==> AnyFails(|invs|, lst.token, fails)
    ensures ok ==> lst.token == "" && Lists(RunMode(invs, noRecursion, nbi), lst.entries, All(invs))
    ensures !ok ==> lst == Page([], "")
                    || Lists(RunMode(invs, noRecursion, nbi), lst.entries, Within(All(invs), "", lst.token))
    ensures ok && !nbi && !noRecursion ==>
              (multiset(lst.entries) == All(invs) <==> AllEnd(All(invs), SizeOf(pageSize)))
    ensures ok && noRecursion ==> (multiset(lst.entries) == All(invs) <==> NameDistinct(All(invs)))
  {
    lst := Page([], "");
    ghost var mode, all, size, p := RunMode(invs, noRecursion, nbi), All(invs), SizeOf(pageSize), 0;
    ghost var sized := !nbi && !noRecursion;
    EverythingIsNamed(invs);
    RangeInRest(all, "", "");
    var first := true;
    while true
      invariant first ==> lst == Page([], "")
      invariant !first ==> lst.token != "" && SoFar(mode, all, lst, sized, size, p)
      decreases NamesAfter(all, lst.token)
    {
      var page := LsObjsA(invs, lst.token, pageSize, noRecursion, nbi, fails);
      if page.None? { return lst, false; }
      ghost var prev := lst;
      assert Adds(mode, all, lst.token, page.value, sized, size);
      if first {
        FirstAdds(mode, all, page.value, sized, size);
        lst, p := page.value, 1;
      } else {
        NextAdds(mode, all, lst, page.value, sized, size, p);
        lst, p := Page(lst.entries + page.value.entries, page.value.token), p + 1;
      }
      first := false;
      if lst.token == "" {
        RunIsListed(mode, all, lst, sized, size, p);
        return lst, true;
      }
      TokenAdvances(all, prev.token, lst.token);
    }
  }

  /** One entry per name is every copy exactly if no name is shared. */
  lemma CollapsedIsWholeIff(all: multiset<Entry>, entries: seq<Entry>)
    requires Lists(Collapsed, entries, all)
    ensures multiset(entries) == all <==> NameDistinct(all)
  {
    StrictIsDistinct(entries);
    if NameDistinct(all) {
      forall e: Entry ensures multiset(entries)[e] == all[e] {
        if e in all {
          var k :| 0 <= k < |entries| && entries[k].name == e.name by { assert HasName(entries, e.name); }
          assert entries[k] in all && entries[k] in multiset(entries);
        } else if e in multiset(entries) {
          var k := IndexOf(entries, e);
        }
      }
    }
  }
}
