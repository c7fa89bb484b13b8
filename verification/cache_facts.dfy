/** What one invalidation guarantees, stated over the declarative meaning in
    `Cache`: it only removes entries, it leaves no survivor referencing a
    deleted key, it throws exactly when the root cannot be read, and it
    leaves alone every entry no chain of references reaches. */
module CacheFacts {
  import opened Json
  import opened Text
  import opened Cache

  /** The root record is never reached by the cascade. */
  lemma RootNeverCascades(store: Store, seeds: set<string>)
    ensures RootKey !in CascadeSet(store, seeds)
  {
    forall t | t in CascadeSet(store, seeds)
      ensures t != RootKey
    {
      var c :| IsChain(store, seeds, c) && |c| >= 2 && c[|c| - 1] == t;
      assert LinkAt(store, c, |c| - 1);
    }
  }

  /** After the cascade no surviving non-root entry references a seed or a
      cascaded key: such an entry would itself be reached. */
  lemma CascadeClosed(store: Store, seeds: set<string>)
    ensures forall t, k :: t in store && t != RootKey && t !in CascadeSet(store, seeds) && k in seeds + CascadeSet(store, seeds) ==> !Mentions(k, store[t])
  {
    forall t, k | t in store && t != RootKey && k in seeds + CascadeSet(store, seeds) && Mentions(k, store[t])
      ensures t in CascadeSet(store, seeds)
    {
      assert Links(store, k, t);
      if k in seeds {
        var c := [k, t];
        assert LinkAt(store, c, 1);
        assert IsChain(store, seeds, c);
      } else {
        var c :| IsChain(store, seeds, c) && |c| >= 2 && c[|c| - 1] == k;
        ChainExtend(store, seeds, c, t);
        assert (c + [t])[|c + [t]| - 1] == t;
      }
    }
  }

  /** Pruning removes top-level entries and rewrites only the root. */
  lemma PruneOnlyRemoves(store: Store, deleted: set<string>)
    ensures forall t :: t in SpecPrune(store, deleted).store ==> t in store
    ensures forall t :: t in SpecPrune(store, deleted).store && t != RootKey ==> SpecPrune(store, deleted).store[t] == store[t]
  {
  }

  /** An invalidation never adds an entry, and every entry it keeps other
      than the root is kept unchanged. */
  lemma InvalidateOnlyRemoves(store: Store, seeds: set<string>)
    ensures forall t :: t in SpecInvalidate(store, seeds).store ==> t in store
    ensures forall t :: t in SpecInvalidate(store, seeds).store && t != RootKey ==> SpecInvalidate(store, seeds).store[t] == store[t]
  {
    var removed := CascadeSet(store, seeds);
    PruneOnlyRemoves(store - removed, seeds + removed);
  }

  /** The invalidation throws exactly when the root record cannot be read,
      and then only after the cascade has removed its entries. */
  lemma InvalidateThrowsIffRootMissing(store: Store, seeds: set<string>)
    ensures SpecInvalidate(store, seeds).Threw? <==> !RootOk(store)
    ensures SpecInvalidate(store, seeds).Threw? ==>
      SpecInvalidate(store, seeds).error == RootMissing && SpecInvalidate(store, seeds).store == store - CascadeSet(store, seeds)
  {
    RootNeverCascades(store, seeds);
    var removed := CascadeSet(store, seeds);
    assert RootOk(store - removed) <==> RootOk(store);
  }

  /** No surviving non-root entry references a seed or a cascaded key,
      whether the call completed or threw. */
  lemma InvalidateClosed(store: Store, seeds: set<string>)
    ensures forall t, k :: t in SpecInvalidate(store, seeds).store && t != RootKey && (k in seeds || k in CascadeSet(store, seeds)) ==>
      !Mentions(k, SpecInvalidate(store, seeds).store[t])
  {
    CascadeClosed(store, seeds);
    InvalidateOnlyRemoves(store, seeds);
    var r := SpecInvalidate(store, seeds);
    forall t, k | t in r.store && t != RootKey && (k in seeds || k in CascadeSet(store, seeds))
      ensures !Mentions(k, r.store[t])
    {
      assert t !in CascadeSet(store, seeds) by {
        var removed := CascadeSet(store, seeds);
        PruneOnlyRemoves(store - removed, seeds + removed);
      }
      assert k in seeds + CascadeSet(store, seeds);
    }
  }

  /** A root field that references a deleted key is dropped, together with
      every root field whose name includes its name before `(`. */
  lemma PruneRootClean(store: Store, deleted: set<string>)
    requires RootOk(store)
    ensures SpecPrune(store, deleted).Completed?
    ensures RootOk(SpecPrune(store, deleted).store)
    ensures forall f :: f in RootFields(SpecPrune(store, deleted).store) <==>
      f in RootFields(store) && !MatchesAny(f.key, ContaminatedNames(RootFields(store), deleted))
    ensures forall f :: f in RootFields(SpecPrune(store, deleted).store) ==> !RefersToAny(deleted, f.val)
  {
    var fields := RootFields(store);
    var names := ContaminatedNames(fields, deleted);
    KeepFieldsMembers(fields, names);
    forall f | f in fields && RefersToAny(deleted, f.val)
      ensures MatchesAny(f.key, names)
    {
      var n := BeforeFirst(f.key, '(');
      assert n in names;
      PrefixIncluded(n, f.key);
    }
  }

  /** When the call completes, the root record keeps no field referencing a
      seed or a cascaded key. */
  lemma InvalidateRootClean(store: Store, seeds: set<string>)
    requires RootOk(store)
    ensures SpecInvalidate(store, seeds).Completed?
    ensures RootOk(SpecInvalidate(store, seeds).store)
    ensures forall f :: f in RootFields(SpecInvalidate(store, seeds).store) ==>
      f in RootFields(store) && !RefersToAny(seeds + CascadeSet(store, seeds), f.val)
  {
    var removed := CascadeSet(store, seeds);
    RootNeverCascades(store, seeds);
    assert RootOk(store - removed);
    PruneRootClean(store - removed, seeds + removed);
  }

  /** Pruning deletes the `ROOT_QUERY.<field>` entry of every root field that
      references a deleted key. */
  lemma PruneDropsStaleAliases(store: Store, deleted: set<string>)
    requires RootOk(store)
    ensures forall f :: f in RootFields(store) && RefersToAny(deleted, f.val) ==> AliasKey(f.key) !in SpecPrune(store, deleted).store
  {
    forall f | f in RootFields(store) && RefersToAny(deleted, f.val)
      ensures AliasKey(f.key) !in SpecPrune(store, deleted).store
    {
      AliasIsNotRoot(f.key);
      assert AliasKey(f.key) in StaleAliases(RootFields(store), deleted);
    }
  }

  /** Every entry outside the root that is not a `ROOT_QUERY.` alias and is
      reached by no chain of references survives unchanged. */
  lemma InvalidateKeepsUnrelated(store: Store, seeds: set<string>)
    ensures forall t :: t in store && t != RootKey && !IsPrefix(RootKey + ".", t) && !Cascades(store, seeds, t) ==>
      t in SpecInvalidate(store, seeds).store && SpecInvalidate(store, seeds).store[t] == store[t]
  {
    var removed := CascadeSet(store, seeds);
    var D := seeds + removed;
    forall t | t in store && t != RootKey && !IsPrefix(RootKey + ".", t) && !Cascades(store, seeds, t)
      ensures t in SpecInvalidate(store, seeds).store && SpecInvalidate(store, seeds).store[t] == store[t]
    {
      assert t in store - removed;
      if RootOk(store - removed) {
        var fields := RootFields(store - removed);
        forall a | a in StaleAliases(fields, D)
          ensures IsPrefix(RootKey + ".", a)
        {
          var f :| f in fields && RefersToAny(D, f.val) && a == AliasKey(f.key);
          AliasHasPrefix(f.key);
        }
      }
    }
  }
}
