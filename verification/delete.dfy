/** `InMemoryCache.prototype.delete(typeName, value)`: choosing the seeds of
    an invalidation, by identity when `value` names a stored entity and by
    type otherwise, then running the invalidation from them. */
module CacheDelete {
  import opened Json
  import opened Text
  import opened Cache
  import opened CacheFacts
  import opened Invalidate

  /** `value && dataIdFromObject(value)`, kept only when truthy: the id
      function is a parameter, and `None` stands for its `null` or
      `undefined`. */
  function OriginKey(value: Option<Value>, dataId: Value -> Option<string>): (k: Option<string>)
    ensures k.Some? ==> value.Some? && Truthy(value.value) && dataId(value.value) == k && k.value != ""
    ensures k.None? && value.Some? && Truthy(value.value) ==> dataId(value.value).None? || dataId(value.value) == Some("")
  {
    if value.Some? && Truthy(value.value) then
      match dataId(value.value)
      case Some(key) => if key != "" then Some(key) else None
      case None => None
    else None
  }

  /** The identity path: the origin key is one of the store's keys. */
  predicate IdentityPath(store: Store, value: Option<Value>, dataId: Value -> Option<string>)
  {
    OriginKey(value, dataId).Some? && OriginKey(value, dataId).value in store
  }

  /** `topKey.split(':')[0]`: the type part of an entity key. */
  function TypeOfKey(key: string): string
  {
    BeforeFirst(key, ':')
  }

  /** The `ROOT_QUERY.<field>` keys of the root fields whose name before `(`
      is a dependent query. */
  function QueryAliases(fields: seq<Field>, queries: set<string>): set<string>
  {
    set f | f in fields && BeforeFirst(f.key, '(') in queries :: AliasKey(f.key)
  }

  /** The top-level keys whose type part is a dependent type. */
  function TypeSeeds(store: Store, types: set<string>): set<string>
  {
    set t | t in store && TypeOfKey(t) in types
  }

  /** What one `delete` leaves, declaratively. */
  ghost function SpecDelete(store: Store, tmap: TypeFieldMap, typeName: string, value: Option<Value>, dataId: Value -> Option<string>): Outcome
  {
    if IdentityPath(store, value, dataId) then
      var k := OriginKey(value, dataId).value;
      SpecInvalidate(store - {k}, {k})
    else if typeName !in tmap then Threw(NoSuchType, store)
    else if !RootOk(store) then Threw(RootMissing, store)
    else
      var deps := tmap[typeName];
      var s1 := store - QueryAliases(RootFields(store), deps.dependentQueries);
      var seeds := TypeSeeds(s1, deps.dependentTypes);
      SpecInvalidate(s1 - seeds, seeds)
  }

  /** Lines 123-163. The call throws "No Such Type" exactly when the
      identity path does not apply and the type is unknown, and then leaves
      the store as it was; on the type path an unreadable root throws before
      any deletion; whatever happens, entries are only removed, and
      every surviving entry other than the root keeps its value. */
  method Delete(store: Store, tmap: TypeFieldMap, typeName: string, value: Option<Value>, dataId: Value -> Option<string>) returns (r: Outcome)
    ensures r == SpecDelete(store, tmap, typeName, value, dataId)
    ensures r.Threw? && r.error == NoSuchType <==> !IdentityPath(store, value, dataId) && typeName !in tmap
    ensures r.Threw? && r.error == NoSuchType ==> r.store == store
    ensures !IdentityPath(store, value, dataId) && typeName in tmap && !RootOk(store) ==> r == Threw(RootMissing, store)
    ensures forall t :: t in r.store ==> t in store
    ensures forall t :: t in r.store && t != RootKey ==> r.store[t] == store[t]
  {
    var origin := OriginKey(value, dataId);
    if origin.Some? && origin.value in store {
      var k := origin.value;
      r := BasicInvalidateCache(store - {k}, [k]);
      assert Elems([k]) == {k};
      InvalidateThrowsIffRootMissing(store - {k}, {k});
      InvalidateOnlyRemoves(store - {k}, {k});
    } else {
      if typeName !in tmap {
        return Threw(NoSuchType, store);
      }
      var deps := tmap[typeName];
      if !RootOk(store) {
        return Threw(RootMissing, store);
      }
      var s1 := DropDependentQueries(store, RootFields(store), deps.dependentQueries);
      var s2, seeds := TakeDependentTypes(s1, deps.dependentTypes);
      r := BasicInvalidateCache(s2, seeds);
      InvalidateThrowsIffRootMissing(s2, Elems(seeds));
      InvalidateOnlyRemoves(s2, Elems(seeds));
    }
  }

  /** Lines 147-152: the `ROOT_QUERY.<query>` entry of every root field
      whose name before `(` is a dependent query is deleted. */
  method DropDependentQueries(store: Store, rootQuery: seq<Field>, queries: set<string>) returns (s: Store)
    ensures s == store - QueryAliases(rootQuery, queries)
  {
    s := store;
    var i := 0;
    while i < |rootQuery|
      invariant 0 <= i <= |rootQuery|
      invariant s == store - QueryAliases(rootQuery[..i], queries)
    {
      var query := rootQuery[i];
      assert rootQuery[..i + 1] == rootQuery[..i] + [query];
      assert forall f :: f in rootQuery[..i + 1] <==> f in rootQuery[..i] || f == query;
      if BeforeFirst(query.key, '(') in queries {
        s := s - {AliasKey(query.key)};
      }
      i := i + 1;
    }
    assert rootQuery[..i] == rootQuery;
  }

  /** Lines 153-159: every top-level key whose type part is a dependent type
      is deleted and becomes a seed; every other key keeps its entry. The
      keys are visited in an unspecified order. */
  method TakeDependentTypes(s1: Store, types: set<string>) returns (s: Store, seeds: seq<string>)
    ensures forall t :: t in seeds <==> t in s1 && TypeOfKey(t) in types
    ensures forall t :: t in s1 && TypeOfKey(t) !in types ==> t in s && s[t] == s1[t]
    ensures forall t :: t in s ==> t in s1 && TypeOfKey(t) !in types
    ensures Elems(seeds) == TypeSeeds(s1, types)
    ensures s == s1 - TypeSeeds(s1, types)
  {
    s := s1;
    seeds := [];
    var rest := s1.Keys;
    while rest != {}
      invariant rest <= s1.Keys
      invariant forall t :: t in seeds <==> t in s1 && t !in rest && TypeOfKey(t) in types
      invariant s == s1 - Elems(seeds)
      decreases rest
    {
      var topKey :| topKey in rest;
      rest := rest - {topKey};
      if TypeOfKey(topKey) in types {
        s := s - {topKey};
        seeds := seeds + [topKey];
      }
    }
    assert Elems(seeds) == TypeSeeds(s1, types);
  }

  // ---------------------------------------------------------------------
  // The two paths.

  /** Identity path: the type map and the type name are not consulted, the
      named key alone seeds the invalidation, it is gone afterwards, and the
      call never reports an unknown type. */
  lemma IdentityIgnoresTypeMap(store: Store, tmap1: TypeFieldMap, typeName1: string, tmap2: TypeFieldMap, typeName2: string, value: Option<Value>, dataId: Value -> Option<string>)
    requires IdentityPath(store, value, dataId)
    ensures SpecDelete(store, tmap1, typeName1, value, dataId) == SpecDelete(store, tmap2, typeName2, value, dataId)
    ensures OriginKey(value, dataId).value !in SpecDelete(store, tmap1, typeName1, value, dataId).store
    ensures SpecDelete(store, tmap1, typeName1, value, dataId).Threw? ==> SpecDelete(store, tmap1, typeName1, value, dataId).error == RootMissing
  {
    var k := OriginKey(value, dataId).value;
    InvalidateOnlyRemoves(store - {k}, {k});
    InvalidateThrowsIffRootMissing(store - {k}, {k});
  }

  /** Identity path: every other entry outside the root that is not a
      `ROOT_QUERY.` alias and that no chain of references links to the
      named key survives unchanged. */
  lemma IdentityKeepsUnrelated(store: Store, tmap: TypeFieldMap, typeName: string, value: Option<Value>, dataId: Value -> Option<string>)
    requires IdentityPath(store, value, dataId)
    ensures var k := OriginKey(value, dataId).value;
      forall t :: t in store && t != k && t != RootKey && !IsPrefix(RootKey + ".", t) && !Cascades(store - {k}, {k}, t) ==>
        t in SpecDelete(store, tmap, typeName, value, dataId).store && SpecDelete(store, tmap, typeName, value, dataId).store[t] == store[t]
  {
    var k := OriginKey(value, dataId).value;
    InvalidateKeepsUnrelated(store - {k}, {k});
  }

  /** Type path: no surviving entry outside the root has a dependent type,
      and the `ROOT_QUERY.<field>` entry of every dependent query field is
      gone. */
  lemma TypePathRemovesDependents(store: Store, tmap: TypeFieldMap, typeName: string, value: Option<Value>, dataId: Value -> Option<string>)
    requires !IdentityPath(store, value, dataId)
    requires typeName in tmap
    requires RootOk(store)
    ensures var r := SpecDelete(store, tmap, typeName, value, dataId);
      forall t :: t in r.store && t != RootKey ==> TypeOfKey(t) !in tmap[typeName].dependentTypes
    ensures var r := SpecDelete(store, tmap, typeName, value, dataId);
      forall f :: f in RootFields(store) && BeforeFirst(f.key, '(') in tmap[typeName].dependentQueries ==> AliasKey(f.key) !in r.store
  {
    var deps := tmap[typeName];
    var s1 := store - QueryAliases(RootFields(store), deps.dependentQueries);
    var seeds := TypeSeeds(s1, deps.dependentTypes);
    InvalidateOnlyRemoves(s1 - seeds, seeds);
    forall f | f in RootFields(store) && BeforeFirst(f.key, '(') in deps.dependentQueries
      ensures AliasKey(f.key) !in s1
    {
      assert AliasKey(f.key) in QueryAliases(RootFields(store), deps.dependentQueries);
    }
  }

  /** Type path with a readable root: the call completes exactly when the
      root itself does not have a dependent type, and then no entry outside
      the root and no root field refers to a seed or a cascaded key. */
  lemma TypePathClosed(store: Store, tmap: TypeFieldMap, typeName: string, value: Option<Value>, dataId: Value -> Option<string>)
    requires !IdentityPath(store, value, dataId)
    requires typeName in tmap
    requires RootOk(store)
    ensures var r := SpecDelete(store, tmap, typeName, value, dataId);
      r.Completed? <==> TypeOfKey(RootKey) !in tmap[typeName].dependentTypes
    ensures var deps := tmap[typeName];
      var s1 := store - QueryAliases(RootFields(store), deps.dependentQueries);
      var seeds := TypeSeeds(s1, deps.dependentTypes);
      var r := SpecDelete(store, tmap, typeName, value, dataId);
      forall t, k :: t in r.store && t != RootKey && (k in seeds || k in CascadeSet(s1 - seeds, seeds)) ==> !Mentions(k, r.store[t])
  {
    var deps := tmap[typeName];
    var s1 := store - QueryAliases(RootFields(store), deps.dependentQueries);
    var seeds := TypeSeeds(s1, deps.dependentTypes);
    forall a | a in QueryAliases(RootFields(store), deps.dependentQueries)
      ensures a != RootKey
    {
      var f :| f in RootFields(store) && BeforeFirst(f.key, '(') in deps.dependentQueries && a == AliasKey(f.key);
      AliasIsNotRoot(f.key);
    }
    assert RootOk(s1);
    assert RootOk(s1 - seeds) <==> RootKey !in seeds;
    InvalidateThrowsIffRootMissing(s1 - seeds, seeds);
    InvalidateClosed(s1 - seeds, seeds);
  }
}
