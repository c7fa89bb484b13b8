/** `basicInvalidateCache`: the round-based cascade over top-level entries,
    then the pruning of `ROOT_QUERY` fields. */
module Invalidate {
  import opened Json
  import opened Text
  import opened Cache
  import opened ReferenceMatch

  /** The body of one `for (const key of temp)` iteration: every non-root
      entry of a snapshot of the keys that references `key` is deleted. The
      keys are visited in an unspecified order; the outcome does not depend
      on it. */
  method RemoveReferrers(key: string, s0: Store) returns (s: Store, removed: seq<string>)
    ensures Within(s, s0)
    ensures forall t :: t in s0 && t !in s <==> t in removed
    ensures forall t :: t in removed ==> t != RootKey && Mentions(key, s0[t])
    ensures forall t :: t in s && t != RootKey ==> !Mentions(key, s[t])
    ensures |s.Keys| + |removed| == |s0.Keys|
    ensures |removed| == 0 ==> s == s0
  {
    var rest := s0.Keys;
    s := s0;
    removed := [];
    while rest != {}
      invariant rest <= s.Keys
      invariant Within(s, s0)
      invariant forall t :: t in s0 && t !in s <==> t in removed
      invariant forall t :: t in removed ==> Links(s0, key, t)
      invariant forall t :: t in s && t !in rest ==> !Links(s0, key, t)
      invariant |s.Keys| + |removed| == |s0.Keys|
      decreases rest
    {
      var topKey :| topKey in rest;
      rest := rest - {topKey};
      var hit := IsReferrer(key, topKey, s[topKey]);
      if hit {
        assert (s - {topKey}).Keys == s.Keys - {topKey};
        s := s - {topKey};
        removed := removed + [topKey];
      }
    }
    forall t | t in s && t != RootKey
      ensures !Mentions(key, s[t])
    {
      assert !Links(s0, key, t);
    }
    if |removed| == 0 {
      assert s == s0;
    }
  }

  /** The test of lines 81-84 for one top-level entry. */
  method IsReferrer(key: string, topKey: string, v: Value) returns (hit: bool)
    ensures hit <==> topKey != RootKey && Mentions(key, v)
  {
    hit := false;
    if topKey != RootKey {
      hit := CheckValueFromAnyObject(key, v);
    }
  }

  /** What the cascade keeps true between steps: only keys of `store` were
      removed and never the root; `deleted` lists the seeds and the removed
      keys; every deleted key has a chain witness, of length two or more
      when the key was removed by the cascade. */
  ghost predicate CascadeInvariant(store: Store, S: set<string>, s: Store, deleted: seq<string>, chain: map<string, seq<string>>)
  {
    && Within(s, store)
    && s.Keys <= store.Keys
    && (RootKey in store ==> RootKey in s)
    && (forall k :: k in deleted <==> k in S || (k in store && k !in s))
    && (forall k :: k in deleted ==> Witnessed(store, S, chain, k))
    && (forall t :: t in store && t !in s ==> t in chain && |chain[t]| >= 2)
  }

  /** `chain[k]` is a chain from a seed that ends at `k`. */
  ghost predicate Witnessed(store: Store, S: set<string>, chain: map<string, seq<string>>, k: string)
  {
    k in chain && IsChain(store, S, chain[k]) && chain[k][|chain[k]| - 1] == k
  }

  /** Every deleted key outside `pending` has been tested against every
      surviving entry. */
  ghost predicate CheckedExcept(s: Store, deleted: seq<string>, pending: seq<string>)
  {
    forall k, t :: k in deleted && k !in pending && t in s && t != RootKey ==> !Mentions(k, s[t])
  }

  /** The `while (flag)` loop: each round tests every pending key against
      every surviving non-root entry; a round that deletes nothing ends it.
      What it removes is exactly what a chain of references reaches from a
      seed, no survivor references a deleted key, and the number of rounds
      is at most one more than the number of entries removed. */
  method Cascade(store: Store, seeds: seq<string>) returns (s: Store, deleted: seq<string>, rounds: nat)
    ensures Within(s, store)
    ensures RootKey in store ==> RootKey in s
    ensures forall t :: t in store ==> (t !in s <==> Cascades(store, Elems(seeds), t))
    ensures forall t, k :: t in s && t != RootKey && k in deleted ==> !Mentions(k, s[t])
    ensures forall k :: k in deleted <==> k in seeds || (k in store && k !in s)
    ensures 1 <= rounds <= |store.Keys| - |s.Keys| + 1
  {
    s := store;
    deleted := seeds;
    var pending := seeds;
    var flag := true;
    rounds := 0;
    ghost var S := Elems(seeds);
    ghost var chain: map<string, seq<string>> := map k | k in S :: [k];
    while flag
      invariant CascadeInvariant(store, S, s, deleted, chain)
      invariant forall k :: k in pending ==> k in deleted
      invariant CheckedExcept(s, deleted, pending)
      invariant !flag ==> pending == []
      invariant rounds + |s.Keys| <= |store.Keys| + (if flag then 0 else 1)
      invariant flag || rounds >= 1
      decreases |s.Keys| + (if flag then 1 else 0)
    {
      s, deleted, pending, flag, chain := Round(store, S, s, deleted, pending, chain);
      rounds := rounds + 1;
    }
    CascadeSettled(store, S, s, deleted, chain);
  }

  /** Once nothing is pending, the invariant yields the cascade's contract. */
  lemma CascadeSettled(store: Store, S: set<string>, s: Store, deleted: seq<string>, chain: map<string, seq<string>>)
    requires CascadeInvariant(store, S, s, deleted, chain)
    requires CheckedExcept(s, deleted, [])
    ensures forall t :: t in store ==> (t !in s <==> Cascades(store, S, t))
    ensures forall t, k :: t in s && t != RootKey && k in deleted ==> !Mentions(k, s[t])
  {
    SettledClosed(s, deleted);
    SettledReachedRemoved(store, S, s, deleted);
    forall t | t in store && t !in s
      ensures Cascades(store, S, t)
    {
      assert Witnessed(store, S, chain, t);
    }
  }

  lemma SettledClosed(s: Store, deleted: seq<string>)
    requires CheckedExcept(s, deleted, [])
    ensures forall t, k :: t in s && t != RootKey && k in deleted ==> !Mentions(k, s[t])
  {
    forall t, k | t in s && t != RootKey && k in deleted
      ensures !Mentions(k, s[t])
    {
      assert k !in [];
    }
  }

  lemma SettledReachedRemoved(store: Store, S: set<string>, s: Store, deleted: seq<string>)
    requires Within(s, store)
    requires forall k :: k in S ==> k in deleted
    requires forall t :: t in store && t !in s ==> t in deleted
    requires forall t, k :: t in s && t != RootKey && k in deleted ==> !Mentions(k, s[t])
    ensures forall t :: t in store && Cascades(store, S, t) ==> t !in s
  {
    var D := Elems(deleted);
    forall t | t in store && Cascades(store, S, t)
      ensures t !in s
    {
      var c :| IsChain(store, S, c) && |c| >= 2 && c[|c| - 1] == t;
      ClosedStateRemovesChains(store, s, S, D, c, |c| - 1);
    }
  }

  /** One round: `temp` is the pending list, each of its keys is tested in
      turn, and the keys deleted now become the next round's pending list. */
  method Round(store: Store, ghost S: set<string>, s0: Store, deleted0: seq<string>, pending0: seq<string>, ghost chain0: map<string, seq<string>>)
    returns (s: Store, deleted: seq<string>, pending: seq<string>, flag: bool, ghost chain: map<string, seq<string>>)
    requires CascadeInvariant(store, S, s0, deleted0, chain0)
    requires forall k :: k in pending0 ==> k in deleted0
    requires CheckedExcept(s0, deleted0, pending0)
    ensures CascadeInvariant(store, S, s, deleted, chain)
    ensures forall k :: k in pending ==> k in deleted
    ensures CheckedExcept(s, deleted, pending)
    ensures !flag ==> pending == [] && s == s0
    ensures flag ==> |s.Keys| < |s0.Keys|
    ensures s.Keys <= s0.Keys
  {
    s, deleted, chain := s0, deleted0, chain0;
    flag := false;
    var temp := pending0;
    pending := [];
    var m := 0;
    assert temp[m..] + pending == pending0;
    while m < |temp|
      invariant 0 <= m <= |temp|
      invariant RoundInvariant(store, S, s0, temp, m, s, deleted, pending, flag, chain)
      invariant RoundProgress(s0, s, pending, flag)
    {
      s, deleted, pending, flag, chain := Visit(store, S, s0, temp, m, s, deleted, pending, flag, chain);
      m := m + 1;
    }
    assert temp[m..] + pending == pending;
  }

  /** Between two keys of `temp`: the first `m` have been tested, and their
      referrers removed and queued. */
  ghost predicate RoundInvariant(store: Store, S: set<string>, s0: Store, temp: seq<string>, m: nat, s: Store, deleted: seq<string>, pending: seq<string>, flag: bool, chain: map<string, seq<string>>)
    requires m <= |temp|
  {
    && CascadeInvariant(store, S, s, deleted, chain)
    && (forall k :: k in temp ==> k in deleted)
    && (forall k :: k in pending ==> k in deleted)
    && CheckedExcept(s, deleted, temp[m..] + pending)
  }

  /** A round that has set `flag` has removed an entry; one that has not has
      changed nothing. */
  ghost predicate RoundProgress(s0: Store, s: Store, pending: seq<string>, flag: bool)
  {
    && (!flag ==> pending == [] && s == s0)
    && (flag ==> |s.Keys| < |s0.Keys|)
    && s.Keys <= s0.Keys
  }

  lemma ProgressStep(s0: Store, s: Store, s': Store, pending: seq<string>, newly: seq<string>, flag: bool)
    requires RoundProgress(s0, s, pending, flag)
    requires s'.Keys <= s.Keys
    requires |newly| == 0 ==> s' == s
    requires |s'.Keys| + |newly| == |s.Keys|
    ensures RoundProgress(s0, s', pending + newly, flag || |newly| > 0)
  {
    if |newly| == 0 {
      assert pending + newly == pending;
    }
  }

  /** The iteration of `for (const key of temp)` for `temp[m]`. */
  method Visit(store: Store, ghost S: set<string>, s0: Store, temp: seq<string>, m: nat, s: Store, deleted: seq<string>, pending: seq<string>, flag: bool, ghost chain: map<string, seq<string>>)
    returns (s': Store, deleted': seq<string>, pending': seq<string>, flag': bool, ghost chain': map<string, seq<string>>)
    requires m < |temp|
    requires RoundInvariant(store, S, s0, temp, m, s, deleted, pending, flag, chain)
    requires RoundProgress(s0, s, pending, flag)
    ensures RoundInvariant(store, S, s0, temp, m + 1, s', deleted', pending', flag', chain')
    ensures RoundProgress(s0, s', pending', flag')
  {
    var key := temp[m];
    var newly;
    s', newly, chain' := Step(store, S, key, s, deleted, chain);
    RoundAdvances(s, s', deleted, newly, temp, m, pending);
    ProgressStep(s0, s, s', pending, newly, flag);
    deleted' := deleted + newly;
    pending' := pending + newly;
    flag' := flag || |newly| > 0;
  }

  /** Testing `temp[m]` moves it out of the untested part, and the keys it
      deletes join both `deleted` and the next round's pending list. */
  lemma RoundAdvances(s: Store, s1: Store, deleted: seq<string>, newly: seq<string>, temp: seq<string>, m: nat, pending: seq<string>)
    requires m < |temp|
    requires CheckedExcept(s, deleted, temp[m..] + pending)
    requires Within(s1, s)
    requires forall t :: t in s1 && t != RootKey ==> !Mentions(temp[m], s1[t])
    requires forall k :: k in temp ==> k in deleted
    requires forall k :: k in pending ==> k in deleted
    ensures CheckedExcept(s1, deleted + newly, temp[m + 1..] + (pending + newly))
    ensures forall k :: k in temp ==> k in deleted + newly
    ensures forall k :: k in pending + newly ==> k in deleted + newly
  {
    assert temp[m..] == [temp[m]] + temp[m + 1..];
    forall k, t | k in deleted + newly && k !in temp[m + 1..] + (pending + newly) && t in s1 && t != RootKey
      ensures !Mentions(k, s1[t])
    {
      if k != temp[m] {
        assert k in deleted && k !in temp[m..] + pending;
      }
    }
  }

  /** One `key` of `temp`: its referrers are deleted and each gets the chain
      of `key` extended by itself. */
  method Step(store: Store, ghost S: set<string>, key: string, s0: Store, deleted0: seq<string>, ghost chain0: map<string, seq<string>>)
    returns (s: Store, newly: seq<string>, ghost chain: map<string, seq<string>>)
    requires CascadeInvariant(store, S, s0, deleted0, chain0)
    requires key in deleted0
    ensures CascadeInvariant(store, S, s, deleted0 + newly, chain)
    ensures Within(s, s0)
    ensures s.Keys <= s0.Keys
    ensures forall t :: t in s && t != RootKey ==> !Mentions(key, s[t])
    ensures |newly| == 0 ==> s == s0
    ensures |s.Keys| + |newly| == |s0.Keys|
  {
    s, newly := RemoveReferrers(key, s0);
    StepKeepsInvariant(store, S, s0, deleted0, chain0, key, s, newly);
    chain := ExtendChains(chain0, key, newly);
  }

  /** Each key of `newly` is witnessed by the chain of `key` followed by it. */
  ghost function ExtendChains(chain0: map<string, seq<string>>, key: string, newly: seq<string>): (chain: map<string, seq<string>>)
    requires key in chain0
    ensures forall t :: t in newly ==> t in chain && chain[t] == chain0[key] + [t]
    ensures forall t :: t in chain0 && t !in newly ==> t in chain && chain[t] == chain0[t]
  {
    map t | t in chain0.Keys + Elems(newly) :: if t in newly then chain0[key] + [t] else chain0[t]
  }

  lemma StepKeepsInvariant(store: Store, S: set<string>, s0: Store, deleted0: seq<string>, chain0: map<string, seq<string>>, key: string, s: Store, newly: seq<string>)
    requires CascadeInvariant(store, S, s0, deleted0, chain0)
    requires key in deleted0
    requires Within(s, s0)
    requires forall t :: t in s0 && t !in s <==> t in newly
    requires forall t :: t in newly ==> t != RootKey && Mentions(key, s0[t])
    ensures key in chain0
    ensures CascadeInvariant(store, S, s, deleted0 + newly, ExtendChains(chain0, key, newly))
  {
    StepKeepsShape(store, S, s0, deleted0, chain0, s, newly);
    StepKeepsChains(store, S, s0, deleted0, chain0, key, s, newly);
  }

  /** The bookkeeping half of the invariant after one step. */
  lemma StepKeepsShape(store: Store, S: set<string>, s0: Store, deleted0: seq<string>, chain0: map<string, seq<string>>, s: Store, newly: seq<string>)
    requires CascadeInvariant(store, S, s0, deleted0, chain0)
    requires Within(s, s0)
    requires forall t :: t in s0 && t !in s <==> t in newly
    requires forall t :: t in newly ==> t != RootKey
    ensures Within(s, store)
    ensures s.Keys <= store.Keys
    ensures RootKey in store ==> RootKey in s
    ensures forall k :: k in deleted0 + newly <==> k in S || (k in store && k !in s)
  {
    assert forall k :: k in deleted0 + newly <==> k in deleted0 || k in newly;
  }

  /** The witness half of the invariant after one step. */
  lemma StepKeepsChains(store: Store, S: set<string>, s0: Store, deleted0: seq<string>, chain0: map<string, seq<string>>, key: string, s: Store, newly: seq<string>)
    requires CascadeInvariant(store, S, s0, deleted0, chain0)
    requires key in deleted0
    requires Within(s, s0)
    requires forall t :: t in s0 && t !in s <==> t in newly
    requires forall t :: t in newly ==> t != RootKey && Mentions(key, s0[t])
    ensures key in chain0
    ensures forall k :: k in deleted0 + newly ==> Witnessed(store, S, ExtendChains(chain0, key, newly), k)
    ensures forall t :: t in store && t !in s ==> t in ExtendChains(chain0, key, newly) && |ExtendChains(chain0, key, newly)[t]| >= 2
  {
    assert Witnessed(store, S, chain0, key);
    forall t | t in newly
      ensures Links(store, key, t)
    {
      assert t in s0;
    }
    ChainsExtended(store, S, chain0, deleted0, key, newly);
    var chain := ExtendChains(chain0, key, newly);
    forall t | t in store && t !in s
      ensures t in chain && |chain[t]| >= 2
    {
      if t !in newly {
        assert t !in s0;
      }
    }
  }

  lemma ChainsExtended(store: Store, S: set<string>, chain0: map<string, seq<string>>, deleted0: seq<string>, key: string, newly: seq<string>)
    requires forall k :: k in deleted0 ==> Witnessed(store, S, chain0, k)
    requires key in deleted0
    requires forall t :: t in newly ==> Links(store, key, t)
    ensures key in chain0
    ensures forall k :: k in deleted0 + newly ==> Witnessed(store, S, ExtendChains(chain0, key, newly), k)
  {
    assert Witnessed(store, S, chain0, key);
    var keyChain := chain0[key];
    var chain := ExtendChains(chain0, key, newly);
    forall k | k in deleted0 + newly
      ensures Witnessed(store, S, chain, k)
    {
      if k in newly {
        ChainExtend(store, S, keyChain, k);
        assert chain[k] == keyChain + [k];
      } else {
        assert Witnessed(store, S, chain0, k);
      }
    }
  }

  /** Lines 95-112: every root field referencing a deleted key has its
      `ROOT_QUERY.<field>` top-level key deleted and its name before `(`
      recorded; then every root field whose name includes a recorded name is
      deleted from the root record. */
  method PruneRoot(store: Store, deleted: seq<string>) returns (r: Outcome)
    ensures r == SpecPrune(store, Elems(deleted))
  {
    if !RootOk(store) {
      return Threw(RootMissing, store);
    }
    var rootQuery := RootFields(store);
    var s, names := MarkContaminated(store, rootQuery, deleted);
    var kept := DropContaminated(rootQuery, names);
    AliasIsNotRoot(RootKey);
    r := Completed(s[RootKey := Obj(kept)]);
  }

  /** Lines 97-104. */
  method MarkContaminated(store: Store, rootQuery: seq<Field>, deleted: seq<string>) returns (s: Store, names: seq<string>)
    ensures s == store - StaleAliases(rootQuery, Elems(deleted))
    ensures Elems(names) == ContaminatedNames(rootQuery, Elems(deleted))
  {
    ghost var D := Elems(deleted);
    s := store;
    names := [];
    var i := 0;
    while i < |rootQuery|
      invariant 0 <= i <= |rootQuery|
      invariant s == store - StaleAliases(rootQuery[..i], D)
      invariant Elems(names) == ContaminatedNames(rootQuery[..i], D)
    {
      var field := rootQuery[i];
      var s1, found := ScanRootField(s, field, deleted);
      PrunedPrefixStep(rootQuery, i, D);
      s := s1;
      names := names + found;
      i := i + 1;
    }
    assert rootQuery[..i] == rootQuery;
  }

  /** Lines 98-103 for one root field: one `store.delete` and one recorded
      name per deleted key the field references. */
  method ScanRootField(store: Store, field: Field, deleted: seq<string>) returns (s: Store, found: seq<string>)
    ensures s == store - (if RefersToAny(Elems(deleted), field.val) then {AliasKey(field.key)} else {})
    ensures Elems(found) == (if RefersToAny(Elems(deleted), field.val) then {BeforeFirst(field.key, '(')} else {})
  {
    s := store;
    found := [];
    ghost var hit := false;
    var j := 0;
    while j < |deleted|
      invariant 0 <= j <= |deleted|
      invariant hit <==> exists k :: 0 <= k < j && Mentions(deleted[k], field.val)
      invariant s == store - (if hit then {AliasKey(field.key)} else {})
      invariant Elems(found) == (if hit then {BeforeFirst(field.key, '(')} else {})
    {
      var h := CheckValueFromAnyObject(deleted[j], field.val);
      if h {
        s := s - {AliasKey(field.key)};
        found := found + [BeforeFirst(field.key, '(')];
        hit := true;
      }
      j := j + 1;
    }
    assert hit <==> RefersToAny(Elems(deleted), field.val);
  }

  /** Lines 106-112: for each recorded name in turn, the root fields whose
      names include it are deleted. */
  method DropContaminated(rootQuery: seq<Field>, names: seq<string>) returns (kept: seq<Field>)
    ensures kept == KeepFields(rootQuery, Elems(names))
  {
    kept := rootQuery;
    var n := 0;
    KeepFieldsNone(rootQuery);
    assert Elems(names[..0]) == {};
    while n < |names|
      invariant 0 <= n <= |names|
      invariant kept == KeepFields(rootQuery, Elems(names[..n]))
    {
      KeepFieldsTwice(rootQuery, Elems(names[..n]), names[n]);
      assert Elems(names[..n + 1]) == Elems(names[..n]) + {names[n]} by {
        assert names[..n + 1] == names[..n] + [names[n]];
      }
      kept := KeepFields(kept, {names[n]});
      n := n + 1;
    }
    assert names[..n] == names;
  }

  lemma PrunedPrefixStep(fields: seq<Field>, i: nat, D: set<string>)
    requires i < |fields|
    ensures StaleAliases(fields[..i + 1], D) == StaleAliases(fields[..i], D) + (if RefersToAny(D, fields[i].val) then {AliasKey(fields[i].key)} else {})
    ensures ContaminatedNames(fields[..i + 1], D) == ContaminatedNames(fields[..i], D) + (if RefersToAny(D, fields[i].val) then {BeforeFirst(fields[i].key, '(')} else {})
  {
    assert fields[..i + 1] == fields[..i] + [fields[i]];
    assert forall f :: f in fields[..i + 1] <==> f in fields[..i] || f == fields[i];
  }

  /** Matching against no names keeps every field. */
  lemma {:induction false} KeepFieldsNone(fields: seq<Field>)
    ensures KeepFields(fields, {}) == fields
    decreases |fields|
  {
    if |fields| > 0 {
      KeepFieldsNone(fields[1..]);
      assert fields == [fields[0]] + fields[1..];
    }
  }

  /** Removing the fields matching `n` after those matching `names` is
      removing those matching `names + {n}`. */
  lemma {:induction false} KeepFieldsTwice(fields: seq<Field>, names: set<string>, n: string)
    ensures KeepFields(KeepFields(fields, names), {n}) == KeepFields(fields, names + {n})
    decreases |fields|
  {
    if |fields| > 0 {
      var f := fields[0];
      KeepFieldsTwice(fields[1..], names, n);
      assert MatchesAny(f.key, names + {n}) <==> MatchesAny(f.key, names) || MatchesAny(f.key, {n});
      if !MatchesAny(f.key, names) {
        assert KeepFields(fields, names) == [f] + KeepFields(fields[1..], names);
        assert KeepFields(fields, names)[1..] == KeepFields(fields[1..], names);
      } else {
        assert KeepFields(fields, names) == KeepFields(fields[1..], names);
      }
    }
  }

  /** `basicInvalidateCache(store, cache, deletedKeys)`. */
  method BasicInvalidateCache(store: Store, seeds: seq<string>) returns (r: Outcome)
    ensures r == SpecInvalidate(store, Elems(seeds))
  {
    var s, deleted, rounds := Cascade(store, seeds);
    CascadeMeansSet(store, seeds, s, deleted);
    r := PruneRoot(s, deleted);
  }

  /** The cascade's contract, restated with `CascadeSet`. */
  lemma CascadeMeansSet(store: Store, seeds: seq<string>, s: Store, deleted: seq<string>)
    requires Within(s, store)
    requires forall t :: t in store ==> (t !in s <==> Cascades(store, Elems(seeds), t))
    requires forall k :: k in deleted <==> k in seeds || (k in store && k !in s)
    ensures s == store - CascadeSet(store, Elems(seeds))
    ensures Elems(deleted) == Elems(seeds) + CascadeSet(store, Elems(seeds))
  {
  }
}
