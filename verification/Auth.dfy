/** Token revocation at a proxy, as a state machine over the steps of concurrent
    validations, list updates and clean-ups (`ais/prxauth.go`). The parser's verdicts and
    the passage of time are nondeterministic. */
module Auth {

  type Token = string

  datatype Phase = Idle | Started | Unlisted | Uncached | Accepted | Rejected

  /** A validation in progress. `late` says that the token had been revoked by the time the
      validation started; `at` is when it was accepted. */
  datatype Validation = Validation(token: Token, phase: Phase, late: bool, at: nat)

  /** `ever` are all tokens of all revocation lists accepted so far; `expires` has no entry
      for tokens without an expiration time. */
  datatype State = State(
    now: nat, expires: map<Token, nat>,
    version: int, revoked: set<Token>, ever: set<Token>, cache: set<Token>,
    ops: seq<Validation>)

  /** The check of cached claims: expired after the expiration time. */
  predicate Expired(s: State, t: Token) { t !in s.expires || s.expires[t] < s.now }

  /** The parser's: no longer valid as of the expiration time. */
  predicate Expires(s: State, t: Token) { t !in s.expires || s.expires[t] <= s.now }

  datatype Verdict = Valid | ErrExpired | OtherErr

  datatype Act =
    | Tick
    | Start(i: nat)
    | Contains(i: nat)
    | Lookup(i: nat)
    | Parse(i: nat, verdict: Verdict)
    | Update(version: int, tokens: set<Token>)
    | DeleteMultiple(tokens: set<Token>)
    | Cleanup(verdicts: map<Token, Verdict>)

  /** What a verdict of the parser implies about the token. */
  predicate Truthful(s: State, t: Token, v: Verdict) {
    (v == Valid ==> !Expires(s, t)) && (v == ErrExpired ==> Expires(s, t))
  }

  ghost predicate Enabled(s: State, a: Act) {
    match a
    case Tick => true
    case Start(i) => i < |s.ops| && s.ops[i].phase == Idle
    case Contains(i) => i < |s.ops| && s.ops[i].phase == Started
    case Lookup(i) => i < |s.ops| && s.ops[i].phase == Unlisted
    case Parse(i, v) => i < |s.ops| && s.ops[i].phase == Uncached && Truthful(s, s.ops[i].token, v)
    case Update(_, _) => true
    case DeleteMultiple(_) => true
    case Cleanup(vs) => vs.Keys == s.revoked && forall t :: t in vs ==> Truthful(s, t, vs[t])
  }

  function Move(s: State, i: nat, p: Phase): State
    requires i < |s.ops|
  {
    s.(ops := s.ops[i := s.ops[i].(phase := p, at := s.now)])
  }

  /** An update without a version increments the current one; an update with a version must
      be newer. */
  function NewVersion(cur: int, v: int): int { if v == 0 then cur + 1 else if v > cur then v else cur }

  predicate Accepts(cur: int, v: int) { v == 0 || v > cur }

  function Next(s: State, a: Act): State
    requires Enabled(s, a)
  {
    match a
    case Tick => s.(now := s.now + 1)
    case Start(i) => s.(ops := s.ops[i := Validation(s.ops[i].token, Started, s.ops[i].token in s.ever, 0)])
    case Contains(i) => Move(s, i, if s.ops[i].token in s.revoked then Rejected else Unlisted)
    case Lookup(i) =>
      var t := s.ops[i].token;
      if t !in s.cache then Move(s, i, Uncached)
      else if Expired(s, t) then Move(s, i, Rejected).(cache := s.cache - {t})
      else Move(s, i, Accepted)
    case Parse(i, v) =>
      if v == Valid then Move(s, i, Accepted).(cache := s.cache + {s.ops[i].token}) else Move(s, i, Rejected)
    case Update(v, ts) =>
      if !Accepts(s.version, v) then s
      else s.(version := NewVersion(s.version, v), revoked := s.revoked + ts, ever := s.ever + ts)
    case DeleteMultiple(ts) => s.(cache := s.cache - ts)
    case Cleanup(vs) => s.(revoked := set t | t in s.revoked && vs[t] != ErrExpired)
  }

  ghost predicate Init(s: State) {
    && s.revoked == {} && s.ever == {} && s.cache == {}
    && forall i :: 0 <= i < |s.ops| ==> s.ops[i].phase == Idle && !s.ops[i].late
  }

  ghost predicate ExpiresAt(s: State, t: Token, at: nat) { t in s.expires && s.expires[t] == at }

  ghost predicate Inv(s: State) {
    && s.revoked <= s.ever
    && (forall t :: t in s.ever ==> t in s.revoked || Expires(s, t))
    && (forall i :: 0 <= i < |s.ops| && s.ops[i].late ==> s.ops[i].phase != Idle && s.ops[i].token in s.ever)
    && (forall i :: 0 <= i < |s.ops| && s.ops[i].late && (s.ops[i].phase == Unlisted || s.ops[i].phase == Uncached) ==>
          Expires(s, s.ops[i].token))
    && (forall i :: 0 <= i < |s.ops| && s.ops[i].late && s.ops[i].phase == Accepted ==>
       ExpiresAt(s, s.ops[i].token, s.ops[i].at))
  }

  lemma StepInv(s: State, a: Act)
    requires Inv(s) && Enabled(s, a)
    ensures Inv(Next(s, a)) && s.version <= Next(s, a).version
  {
  }

  /** A run, state by state. */
  ghost predicate IsRun(ss: seq<State>, acts: seq<Act>) {
    && |ss| == |acts| + 1 && Init(ss[0])
    && forall i :: 0 <= i < |acts| ==> Enabled(ss[i], acts[i]) && ss[i + 1] == Next(ss[i], acts[i])
  }

  lemma {:induction false} RunInv(ss: seq<State>, acts: seq<Act>, i: nat, j: nat)
    requires IsRun(ss, acts) && i <= j < |ss|
    ensures Inv(ss[j]) && ss[i].version <= ss[j].version
    decreases j
  {
    if j > 0 {
      RunInv(ss, acts, if i < j then i else j - 1, j - 1);
      StepInv(ss[j - 1], acts[j - 1]);
    }
  }

  /** Over every run: a validation that starts after its token has been revoked does not
      accept it, not even if it overlaps with validations that had started before, with
      further updates and with clean-ups. The one exception is the very instant at which the
      token expires, when the parser already rejects it and cached claims still pass. */
  lemma RevokedIsNotAccepted(ss: seq<State>, acts: seq<Act>, n: nat, i: nat)
    requires IsRun(ss, acts) && n < |ss| && i < |ss[n].ops|
    requires ss[n].ops[i].late && ss[n].ops[i].phase == Accepted
    ensures ExpiresAt(ss[n], ss[n].ops[i].token, ss[n].ops[i].at)
  {
    RunInv(ss, acts, 0, n);
  }

  /** Nothing is on the list that was not revoked, and whatever has been revoked stays on it
      until it expires. */
  lemma ListIsExact(ss: seq<State>, acts: seq<Act>, n: nat, t: Token)
    requires IsRun(ss, acts) && n < |ss|
    ensures t in ss[n].revoked ==> t in ss[n].ever
    ensures t in ss[n].ever && !Expires(ss[n], t) ==> t in ss[n].revoked
  {
    RunInv(ss, acts, 0, n);
  }

  /** `late` means what it says: it is decided when the validation starts and stays. */
  lemma LateMeansRevokedBefore(s: State, a: Act, i: nat)
    requires Enabled(s, a) && i < |s.ops|
    ensures Next(s, a).ops[i].token == s.ops[i].token
    ensures a == Start(i) ==> (Next(s, a).ops[i].late <==> s.ops[i].token in s.ever)
    ensures a != Start(i) ==> Next(s, a).ops[i].late == s.ops[i].late
  {
  }

  /** The exception, exactly: when a validation accepts a token that had been revoked before
      it started. */
  lemma LateIsAcceptedIff(ss: seq<State>, acts: seq<Act>, n: nat, i: nat)
    requires IsRun(ss, acts) && n < |acts| && i < |ss[n].ops|
    requires ss[n].ops[i].late && ss[n].ops[i].phase != Accepted
    ensures ss[n + 1].ops[i].phase == Accepted <==>
            acts[n] == Lookup(i) && ss[n].ops[i].token in ss[n].cache && ExpiresAt(ss[n], ss[n].ops[i].token, ss[n].now)
  {
    RunInv(ss, acts, 0, n);
  }

  lemma RunMore(ss: seq<State>, acts: seq<Act>, s: State, a: Act, t: State)
    requires IsRun(ss, acts) && ss[|acts|] == s && Enabled(s, a) && Next(s, a) == t
    ensures IsRun(ss + [t], acts + [a]) && (ss + [t])[|acts| + 1] == t
  {
  }

  /** Two validations of one token that expires at time one. */
  function Two(now: nat, version: int, revoked: set<Token>, ever: set<Token>, cache: set<Token>, a: Phase, at: nat,
               b: Validation): State {
    State(now, map["t" := 1], version, revoked, ever, cache, [Validation("t", a, false, at), b])
  }

  /** The run in which it happens: one validation is about to cache the token when the token
      is revoked; the token expires, clean-up takes it off the list, and in that very
      instant another validation finds it in the cache. */
  lemma AcceptedInTheInstant() returns (ss: seq<State>, acts: seq<Act>)
    ensures IsRun(ss, acts) && |ss[|acts|].ops| == 2
    ensures ss[|acts|].ops[1].late && ss[|acts|].ops[1].phase == Accepted
  {
    ss, acts := CachedAfterRevoked();
    var t, idle := {"t"}, Validation("t", Idle, false, 0);
    var started := Validation("t", Started, true, 0);
    var unlisted, accepted := Validation("t", Unlisted, true, 1), Validation("t", Accepted, true, 1);
    RunMore(ss, acts, Two(0, 2, t, t, t, Accepted, 0, idle), Tick, Two(1, 2, t, t, t, Accepted, 0, idle));
    ss, acts := ss + [Two(1, 2, t, t, t, Accepted, 0, idle)], acts + [Tick];
    RunMore(ss, acts, Two(1, 2, t, t, t, Accepted, 0, idle), Cleanup(map["t" := ErrExpired]),
      Two(1, 2, {}, t, t, Accepted, 0, idle));
    ss, acts := ss + [Two(1, 2, {}, t, t, Accepted, 0, idle)], acts + [Cleanup(map["t" := ErrExpired])];
    RunMore(ss, acts, Two(1, 2, {}, t, t, Accepted, 0, idle), Start(1), Two(1, 2, {}, t, t, Accepted, 0, started));
    ss, acts := ss + [Two(1, 2, {}, t, t, Accepted, 0, started)], acts + [Start(1)];
    RunMore(ss, acts, Two(1, 2, {}, t, t, Accepted, 0, started), Contains(1),
      Two(1, 2, {}, t, t, Accepted, 0, unlisted));
    ss, acts := ss + [Two(1, 2, {}, t, t, Accepted, 0, unlisted)], acts + [Contains(1)];
    RunMore(ss, acts, Two(1, 2, {}, t, t, Accepted, 0, unlisted), Lookup(1),
      Two(1, 2, {}, t, t, Accepted, 0, accepted));
    ss, acts := ss + [Two(1, 2, {}, t, t, Accepted, 0, accepted)], acts + [Lookup(1)];
  }

  lemma CachedAfterRevoked() returns (ss: seq<State>, acts: seq<Act>)
    ensures IsRun(ss, acts)
    ensures ss[|acts|] == Two(0, 2, {"t"}, {"t"}, {"t"}, Accepted, 0, Validation("t", Idle, false, 0))
  {
    var t, idle := {"t"}, Validation("t", Idle, false, 0);
    ss, acts := [Two(0, 1, {}, {}, {}, Idle, 0, idle)], [];
    RunMore(ss, acts, Two(0, 1, {}, {}, {}, Idle, 0, idle), Start(0), Two(0, 1, {}, {}, {}, Started, 0, idle));
    ss, acts := ss + [Two(0, 1, {}, {}, {}, Started, 0, idle)], acts + [Start(0)];
    RunMore(ss, acts, Two(0, 1, {}, {}, {}, Started, 0, idle), Contains(0), Two(0, 1, {}, {}, {}, Unlisted, 0, idle));
    ss, acts := ss + [Two(0, 1, {}, {}, {}, Unlisted, 0, idle)], acts + [Contains(0)];
    RunMore(ss, acts, Two(0, 1, {}, {}, {}, Unlisted, 0, idle), Lookup(0), Two(0, 1, {}, {}, {}, Uncached, 0, idle));
    ss, acts := ss + [Two(0, 1, {}, {}, {}, Uncached, 0, idle)], acts + [Lookup(0)];
    RunMore(ss, acts, Two(0, 1, {}, {}, {}, Uncached, 0, idle), Update(0, t), Two(0, 2, t, t, {}, Uncached, 0, idle));
    ss, acts := ss + [Two(0, 2, t, t, {}, Uncached, 0, idle)], acts + [Update(0, t)];
    RunMore(ss, acts, Two(0, 2, t, t, {}, Uncached, 0, idle), DeleteMultiple(t),
      Two(0, 2, t, t, {}, Uncached, 0, idle));
    ss, acts := ss + [Two(0, 2, t, t, {}, Uncached, 0, idle)], acts + [DeleteMultiple(t)];
    RunMore(ss, acts, Two(0, 2, t, t, {}, Uncached, 0, idle), Parse(0, Valid), Two(0, 2, t, t, t, Accepted, 0, idle));
    ss, acts := ss + [Two(0, 2, t, t, t, Accepted, 0, idle)], acts + [Parse(0, Valid)];
  }

  // ----- what clean-up and late lists can do -----------------------------------------------

  /** An undisturbed validation of a token with a valid signature would accept it now. */
  predicate Acceptable(s: State, t: Token) {
    t !in s.revoked && if t in s.cache then !Expired(s, t) else !Expires(s, t)
  }

  /** Clean-up makes no difference to any validation, in any state of any run, but for a
      cached token that is dropped in the instant of its expiration. */
  lemma CleanupIsInvisible(ss: seq<State>, acts: seq<Act>, n: nat, vs: map<Token, Verdict>, t: Token)
    requires IsRun(ss, acts) && n < |ss| && Enabled(ss[n], Cleanup(vs))
    ensures var s, next := ss[n], Next(ss[n], Cleanup(vs));
            Acceptable(next, t) <==>
            Acceptable(s, t) || (t in s.revoked && vs[t] == ErrExpired && t in s.cache && ExpiresAt(s, t, s.now))
  {
    RunInv(ss, acts, 0, n);
  }

  /** Over every run a versioned list counts at most once: once it has been processed, that
      version and all older ones change nothing any more, whatever comes in between. */
  lemma OldListsChangeNothing(ss: seq<State>, acts: seq<Act>, i: nat, j: nat, v: int, ts: set<Token>)
    requires IsRun(ss, acts) && i < j < |ss| && acts[i].Update? && acts[i].version != 0
    requires v != 0 && v <= acts[i].version
    ensures Next(ss[j], Update(v, ts)) == ss[j]
  {
    assert ss[i + 1] == Next(ss[i], acts[i]);
    RunInv(ss, acts, i + 1, j);
  }

  /** And a list newer than all before it is taken in full, as long as lists are numbered. */
  lemma NewListsAreTaken(ss: seq<State>, acts: seq<Act>, n: nat, v: int, ts: set<Token>)
    requires IsRun(ss, acts) && n < |ss| && 0 <= ss[0].version < v
    requires forall k :: 0 <= k < n && acts[k].Update? ==> 0 < acts[k].version < v
    ensures var next := Next(ss[n], Update(v, ts)); next.version == v && next.revoked == ss[n].revoked + ts
  {
    VersionBelow(ss, acts, n, v);
  }

  lemma {:induction false} VersionBelow(ss: seq<State>, acts: seq<Act>, n: nat, v: int)
    requires IsRun(ss, acts) && n < |ss| && 0 <= ss[0].version < v
    requires forall k :: 0 <= k < n && acts[k].Update? ==> 0 < acts[k].version < v
    ensures 0 <= ss[n].version < v
  {
    if n > 0 {
      VersionBelow(ss, acts, n - 1, v);
      assert ss[n] == Next(ss[n - 1], acts[n - 1]);
    }
  }

  /** One without a number is always taken, as the next version. */
  lemma UnnumberedListsAreTaken(s: State, ts: set<Token>)
    ensures var next := Next(s, Update(0, ts)); next.version == s.version + 1 && next.revoked == s.revoked + ts
  {
  }

  // ----- what is cached, and what decides ------------------------------------------------------

  ghost predicate PastExpiration(s: State, t: Token) { t in s.expires ==> s.expires[t] < s.now }

  /** Step `k` finds the token valid by parsing it. */
  ghost predicate Parses(ss: seq<State>, acts: seq<Act>, k: nat, t: Token)
    requires IsRun(ss, acts) && k < |acts|
  {
    acts[k].Parse? && acts[k].verdict == Valid && ss[k].ops[acts[k].i].token == t
  }

  /** Step `k` takes it out of the cache: as revoked, or because it has expired. */
  ghost predicate Evicts(ss: seq<State>, acts: seq<Act>, k: nat, t: Token)
    requires IsRun(ss, acts) && k < |acts|
  {
    || (acts[k].DeleteMultiple? && t in acts[k].tokens)
    || (acts[k].Lookup? && ss[k].ops[acts[k].i].token == t && PastExpiration(ss[k], t))
  }

  ghost predicate ParsedSince(ss: seq<State>, acts: seq<Act>, k: nat, n: nat, t: Token)
    requires IsRun(ss, acts) && k < n <= |acts|
  {
    Parses(ss, acts, k, t) && forall j :: k < j < n ==> !Evicts(ss, acts, j, t)
  }

  /** Over every run the cache has exactly the tokens that have been parsed as valid and not
      been taken out since. */
  lemma {:induction false} CacheIs(ss: seq<State>, acts: seq<Act>, n: nat, t: Token)
    requires IsRun(ss, acts) && n < |ss|
    ensures t in ss[n].cache <==> exists k :: 0 <= k < n && ParsedSince(ss, acts, k, n, t)
  {
    if n > 0 {
      var last := n - 1;
      CacheIs(ss, acts, last, t);
      assert ss[n] == Next(ss[last], acts[last]) && Enabled(ss[last], acts[last]);
      forall k | 0 <= k < last && ParsedSince(ss, acts, k, n, t)
        ensures ParsedSince(ss, acts, k, last, t) && !Evicts(ss, acts, last, t)
      {
      }
      if Parses(ss, acts, last, t) {
        assert ParsedSince(ss, acts, last, n, t);
      } else if t in ss[n].cache {
        var k :| 0 <= k < last && ParsedSince(ss, acts, k, last, t);
        assert ParsedSince(ss, acts, k, n, t);
      }
    }
  }

  /** What decides a validation, in every state of every run: the list, the expiration of
      what is cached, or the parser; so a token that was never revoked is not rejected but
      for having expired or on the parser's verdict. */
  lemma DecidedBy(ss: seq<State>, acts: seq<Act>, n: nat, i: nat)
    requires IsRun(ss, acts) && n < |acts| && i < |ss[n].ops|
    requires ss[n].ops[i].phase != Accepted && ss[n].ops[i].phase != Rejected
    ensures var s, a, t, after := ss[n], acts[n], ss[n].ops[i].token, ss[n + 1].ops[i].phase;
            && (after == Rejected <==>
                || (a == Contains(i) && t in s.revoked)
                || (a == Lookup(i) && t in s.cache && PastExpiration(s, t))
                || (a.Parse? && a.i == i && a.verdict != Valid))
            && (after == Accepted <==>
                (a == Lookup(i) && t in s.cache && !PastExpiration(s, t)) || a == Parse(i, Valid))
            && (after == Rejected && t !in s.ever ==> a != Contains(i))
  {
    RunInv(ss, acts, 0, n);
    assert ss[n + 1] == Next(ss[n], acts[n]) && Enabled(ss[n], acts[n]);
  }
}
