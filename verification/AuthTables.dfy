/** The tables behind token validation: the list of revoked tokens and the sharded cache of
    validated ones, both updated in place (`ais/prxauth.go`). */
module AuthTables {

  import opened Basics
  import opened Auth

  class RevokedTokens {
    var revoked: set<Token>
    var version: int

    constructor ()
      ensures revoked == {} && version == 1
    {
      revoked, version := {}, 1;
    }

    /** Refuses a list that is not newer, and otherwise adds all of it. */
    method Update(newVersion: int, tokens: seq<Token>) returns (ok: bool)
      modifies this
      ensures ok == Accepts(old(version), newVersion)
      ensures version == NewVersion(old(version), newVersion)
      ensures forall t :: t in revoked <==> t in old(revoked) || (ok && t in tokens)
    {
      if newVersion == 0 {
        version := version + 1;
      } else if newVersion > version {
        version := newVersion;
      } else {
        return false;
      }
      for i := 0 to |tokens|
        invariant forall t :: t in revoked <==> t in old(revoked) || t in tokens[..i]
        invariant version == NewVersion(old(version), newVersion)
      {
        revoked := revoked + {tokens[i]};
      }
      assert tokens[..|tokens|] == tokens;
      ok := true;
    }

    /** Drops what the parser finds expired, and lists the rest. */
    method Cleanup(verdicts: map<Token, Verdict>) returns (all: Option<seq<Token>>)
      requires verdicts.Keys == revoked
      modifies `revoked
      ensures revoked == set t | t in old(revoked) && verdicts[t] != ErrExpired
      ensures all.None? <==> revoked == {}
      ensures all.Some? ==> forall t :: t in all.value <==> t in revoked
    {
      var left, kept := revoked, [];
      while left != {}
        invariant left <= old(revoked) && left <= revoked <= old(revoked)
        invariant forall t :: t in old(revoked) && t !in left ==> (t in revoked <==> verdicts[t] != ErrExpired)
        invariant forall t :: t in kept <==> t in revoked - left
        decreases left
      {
        var t :| t in left;
        left := left - {t};
        if verdicts[t] == ErrExpired { revoked := revoked - {t}; } else { kept := kept + [t]; }
      }
      if |kept| == 0 {
        assert forall t :: t in revoked ==> t in kept;
        return None;
      }
      assert kept[0] in kept;
      all := Some(kept);
    }
  }

  // ----- the cache -------------------------------------------------------------------------

  type Claims = int
  type Shard = map<Token, Claims>

  /** The shards hold exactly the entries of the flat table, each where its hash says. */
  ghost predicate Shards(shards: seq<Shard>, hash: Token -> nat, flat: Shard) {
    && |shards| > 0
    && (forall t :: t in flat <==> t in shards[hash(t) % |shards|])
    && (forall t :: t in flat ==> flat[t] == shards[hash(t) % |shards|][t])
  }

  class TokenCache {
    const hash: Token -> nat
    var shards: seq<Shard>
    ghost var flat: Shard

    ghost predicate Valid()
      reads this
    {
      Shards(shards, hash, flat)
    }

    constructor (exponent: nat, hash: Token -> nat)
      ensures Valid() && flat == map[] && this.hash == hash
    {
      var size := Pow2(exponent);
      this.hash, shards, flat := hash, seq(size, _ => map[]), map[];
    }

    function Index(t: Token): nat
      requires |shards| > 0
      reads this
    {
      hash(t) % |shards|
    }

    method GetClaims(t: Token) returns (c: Option<Claims>)
      requires Valid()
      ensures c == if t in flat then Some(flat[t]) else None
    {
      var m := shards[Index(t)];
      c := if t in m then Some(m[t]) else None;
    }

    method Set(t: Token, c: Claims)
      requires Valid()
      modifies this
      ensures Valid() && |shards| == old(|shards|) && flat == old(flat)[t := c]
    {
      var i := Index(t);
      ShardChanges(shards, hash, flat, i, shards[i][t := c], flat[t := c]);
      shards := shards[i := shards[i][t := c]];
      flat := flat[t := c];
    }

    method Delete(t: Token)
      requires Valid()
      modifies this
      ensures Valid() && |shards| == old(|shards|) && flat == old(flat) - {t}
    {
      DeleteIn(Index(t), [t]);
    }

    /** Deletes from one shard tokens that belong there. */
    method DeleteIn(i: nat, tokens: seq<Token>)
      requires Valid() && i < |shards| && forall t :: t in tokens ==> Index(t) == i
      modifies this
      ensures Valid() && |shards| == old(|shards|) && flat == old(flat) - set t | t in tokens
    {
      ghost var gone := set t | t in tokens;
      var m := shards[i];
      for k := 0 to |tokens|
        invariant forall t :: t in m <==> t in shards[i] && t !in tokens[..k]
        invariant forall t :: t in m ==> m[t] == shards[i][t]
      {
        m := m - {tokens[k]};
      }
      assert tokens[..|tokens|] == tokens;
      ShardChanges(shards, hash, flat, i, m, flat - gone);
      shards := shards[i := m];
      flat := flat - gone;
    }

    /** Groups the tokens by shard, and goes over the shards in any order. */
    method DeleteMultiple(tokens: seq<Token>)
      requires Valid()
      modifies this
      ensures Valid() && flat == old(flat) - set t | t in tokens
    {
      var byShard := Group(tokens);
      var left := byShard.Keys;
      ghost var size, gone: set<Token> := |shards|, {};
      assert flat - {} == flat;
      while left != {}
        invariant Valid() && |shards| == size && left <= byShard.Keys
        invariant flat == old(flat) - gone
        invariant forall t :: t in gone <==> t in tokens && hash(t) % size !in left
        decreases left
      {
        var i :| i in left;
        left := left - {i};
        WithoutBoth(old(flat), gone, set t | t in byShard[i]);
        DeleteIn(i, byShard[i]);
        gone := gone + set t | t in byShard[i];
      }
      assert gone == set t | t in tokens;
    }

    method Group(tokens: seq<Token>) returns (byShard: map<nat, seq<Token>>)
      requires |shards| > 0
      ensures forall t :: t in tokens ==> Index(t) in byShard
      ensures forall i :: i in byShard ==> i < |shards| && forall t :: t in byShard[i] <==> t in tokens && Index(t) == i
    {
      byShard := map[];
      for k := 0 to |tokens|
        invariant forall t :: t in tokens[..k] ==> Index(t) in byShard
        invariant forall i :: i in byShard ==>
                  i < |shards| && forall t :: t in byShard[i] <==> t in tokens[..k] && Index(t) == i
      {
        var i := Index(tokens[k]);
        byShard := byShard[i := (if i in byShard then byShard[i] else []) + [tokens[k]]];
      }
      assert tokens[..|tokens|] == tokens;
    }
  }

  function Pow2(n: nat): (p: nat)
    ensures p > 0
  {
    if n == 0 then 1 else 2 * Pow2(n - 1)
  }

  lemma WithoutBoth(m: Shard, a: set<Token>, b: set<Token>)
    ensures m - a - b == m - (a + b)
  {
  }

  lemma ShardChanges(shards: seq<Shard>, hash: Token -> nat, flat: Shard, i: nat, m: Shard, next: Shard)
    requires Shards(shards, hash, flat) && i < |shards|
    requires forall t :: hash(t) % |shards| != i ==> (t in next <==> t in flat) && (t in flat ==> next[t] == flat[t])
    requires forall t :: hash(t) % |shards| == i ==> (t in next <==> t in m) && (t in m ==> next[t] == m[t])
    ensures Shards(shards[i := m], hash, next)
  {
    var changed := shards[i := m];
    assert forall k :: 0 <= k < |shards| && k != i ==> changed[k] == shards[k];
  }
}
