/**
  The normalized store, the type dependency map, and the declarative meaning
  of one invalidation: which entries the cascade removes (those linked to a
  seed by a chain of references) and how the root record is pruned.
 */
module Cache {
  import opened Json
  import opened Text

  /** Top-level cache: entity keys such as `User:1`, plus `ROOT_QUERY`. */
  type Store = map<string, Value>

  const RootKey: string := "ROOT_QUERY"

  /** What invalidating a type also invalidates. */
  datatype Dependencies = Dependencies(dependentTypes: set<string>, dependentQueries: set<string>)

  type TypeFieldMap = map<string, Dependencies>

  /** `NoSuchType` is the engine's own error; `RootMissing` is the TypeError
      JavaScript raises when it lists the properties of an absent root. */
  datatype Error = NoSuchType | RootMissing

  /** The store as left by a call, whether it returned or threw. */
  datatype Outcome = Completed(store: Store) | Threw(error: Error, store: Store)

  function Elems(xs: seq<string>): set<string>
  {
    set x | x in xs
  }

  /** `s` is `store` with some keys removed and the rest untouched. */
  predicate Within(s: Store, store: Store)
  {
    forall t :: t in s ==> t in store && s[t] == store[t]
  }

  /** The root record can be read as an object. */
  predicate RootOk(s: Store)
  {
    RootKey in s && s[RootKey].Obj?
  }

  function RootFields(s: Store): seq<Field>
    requires RootOk(s)
  {
    s[RootKey].fields
  }

  /** The top-level key `ROOT_QUERY.<field>` that the source passes to
      `store.delete`. */
  function AliasKey(field: string): string
  {
    RootKey + "." + field
  }

  lemma AliasIsNotRoot(field: string)
    ensures AliasKey(field) != RootKey
  {
    assert |AliasKey(field)| > |RootKey|;
  }

  lemma AliasHasPrefix(field: string)
    ensures IsPrefix(RootKey + ".", AliasKey(field))
  {
    assert AliasKey(field)[..|RootKey + "."|] == RootKey + ".";
  }

  /** `v` holds a reference to one of `keys`. */
  predicate RefersToAny(keys: set<string>, v: Value)
  {
    exists k :: k in keys && Mentions(k, v)
  }

  // ---------------------------------------------------------------------
  // The cascade, declaratively.

  /** `to` is a non-root entry of `store` that references `from`. */
  ghost predicate Links(store: Store, from: string, to: string)
  {
    to in store && to != RootKey && Mentions(from, store[to])
  }

  /** Step `i` of chain `c` is a reference link. */
  ghost predicate LinkAt(store: Store, c: seq<string>, i: int)
  {
    1 <= i < |c| && Links(store, c[i - 1], c[i])
  }

  /** A chain starting at a seed in which every later key references the one
      before it. */
  ghost predicate IsChain(store: Store, seeds: set<string>, c: seq<string>)
  {
    && |c| >= 1
    && c[0] in seeds
    && forall i :: 1 <= i < |c| ==> LinkAt(store, c, i)
  }

  /** `t` is reached from a seed by at least one reference step. */
  ghost predicate Cascades(store: Store, seeds: set<string>, t: string)
  {
    exists c :: IsChain(store, seeds, c) && |c| >= 2 && c[|c| - 1] == t
  }

  /** The entries the cascade removes. */
  ghost function CascadeSet(store: Store, seeds: set<string>): set<string>
  {
    set t | t in store && Cascades(store, seeds, t)
  }

  lemma ChainExtend(store: Store, seeds: set<string>, c: seq<string>, t: string)
    requires IsChain(store, seeds, c)
    requires Links(store, c[|c| - 1], t)
    ensures IsChain(store, seeds, c + [t])
  {
    var d := c + [t];
    forall i | 1 <= i < |d|
      ensures LinkAt(store, d, i)
    {
      if i < |c| {
        assert LinkAt(store, c, i);
        assert d[i - 1] == c[i - 1] && d[i] == c[i];
      }
    }
  }

  /** Any state that removed only keys of `deleted`, keeps every seed in
      `deleted`, and leaves no surviving non-root entry referencing a key of
      `deleted` has removed every key a chain reaches. */
  lemma {:induction false} ClosedStateRemovesChains(store: Store, s: Store, seeds: set<string>, deleted: set<string>, c: seq<string>, i: nat)
    requires Within(s, store)
    requires seeds <= deleted
    requires forall t :: t in store && t !in s ==> t in deleted
    requires forall t, k :: t in s && t != RootKey && k in deleted ==> !Mentions(k, s[t])
    requires IsChain(store, seeds, c)
    requires i < |c|
    ensures c[i] in deleted
    ensures i >= 1 ==> c[i] in store && c[i] !in s
  {
    if i >= 1 {
      ClosedStateRemovesChains(store, s, seeds, deleted, c, i - 1);
      assert LinkAt(store, c, i);
    }
  }

  // ---------------------------------------------------------------------
  // Root pruning, declaratively.

  /** Names (up to the first `(`) of root fields that reference a deleted key. */
  function ContaminatedNames(fields: seq<Field>, deleted: set<string>): set<string>
  {
    set f | f in fields && RefersToAny(deleted, f.val) :: BeforeFirst(f.key, '(')
  }

  /** The `ROOT_QUERY.<field>` top-level keys the first pruning pass deletes. */
  function StaleAliases(fields: seq<Field>, deleted: set<string>): set<string>
  {
    set f | f in fields && RefersToAny(deleted, f.val) :: AliasKey(f.key)
  }

  /** `key` includes one of `names` as a substring. */
  predicate MatchesAny(key: string, names: set<string>)
  {
    exists n :: n in names && Includes(key, n)
  }

  /** The fields, in order, whose names include none of `names`. */
  function KeepFields(fields: seq<Field>, names: set<string>): seq<Field>
  {
    if |fields| == 0 then []
    else (if MatchesAny(fields[0].key, names) then [] else [fields[0]]) + KeepFields(fields[1..], names)
  }

  /** `KeepFields` keeps exactly the fields whose names include no name of
      `names`, and never adds one. */
  lemma {:induction false} KeepFieldsMembers(fields: seq<Field>, names: set<string>)
    ensures forall f :: f in KeepFields(fields, names) <==> f in fields && !MatchesAny(f.key, names)
    ensures |KeepFields(fields, names)| <= |fields|
    decreases |fields|
  {
    if |fields| > 0 {
      KeepFieldsMembers(fields[1..], names);
      assert fields == [fields[0]] + fields[1..];
    }
  }

  /** What pruning leaves: the stale aliases gone and the root record rebuilt
      without the contaminated fields; without a readable root, a throw. */
  ghost function SpecPrune(store: Store, deleted: set<string>): Outcome
  {
    if !RootOk(store) then Threw(RootMissing, store)
    else
      var fields := RootFields(store);
      Completed((store - StaleAliases(fields, deleted))[RootKey := Obj(KeepFields(fields, ContaminatedNames(fields, deleted)))])
  }

  /** One invalidation from `seeds`: the cascade, then root pruning against
      the seeds and every cascaded key. */
  ghost function SpecInvalidate(store: Store, seeds: set<string>): Outcome
  {
    var removed := CascadeSet(store, seeds);
    SpecPrune(store - removed, seeds + removed)
  }
}
