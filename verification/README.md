# smart-cache invalidation, modelled in Dafny

smart-cache extends Apollo's normalized in-memory cache with `delete(typeName, value)`.
The call removes one entity, or every entity of a type, and then removes everything that
depended on it. It works in three steps:

- It chooses seed keys. On the identity path the key computed by `dataIdFromObject(value)` is
  the only seed. On the type path the seeds are every top-level key whose `Type:` part is a
  dependent type; the type path also removes the `ROOT_QUERY.<field>` entries of the dependent
  queries.
- It cascades. Each round deletes every non-root top-level entry holding a reference
  (an object whose `id` is the key) to a key deleted so far. It stops after a round that
  deletes nothing.
- It prunes the root record `ROOT_QUERY`. A root field that references a deleted key has its
  `ROOT_QUERY.<field>` entry removed. Every root field whose name contains the name of such a
  field (the part before its first `(`) is dropped from the root record.

The type dependency map comes from a code generator that walks the GraphQL schema. For every
non-root object type and every union it lists the dependent types. They are the type itself,
every object type other than `Query`, `Mutation` and `Subscription` with a field naming it, and
every union containing it together with all of that union's members. It also lists the dependent
queries: the `Query` fields that name one of those types.

The modules follow the program's structure:

- `Json`: cached values. It defines `Mentions`, the "holds a reference to" relation, and gives an
  independent path-based reading of it.
- `Text`: `split(c)[0]` and `includes`.
- `ReferenceMatch`: the breadth-first `checkValueFromAnyObject`.
- `Cache`: the store and the type map. It also gives the declarative meaning of one invalidation:
  - `CascadeSet` is the set of keys reached from a seed by a chain of references.
  - `SpecPrune` and `SpecInvalidate` describe the pruning and the whole invalidation.
- `CacheFacts`: what an invalidation guarantees, proved from the declarative meaning.
- `Invalidate`: `basicInvalidateCache` as the source writes it, with its loops. The methods have
  two kinds of contract.
  - `IsReferrer`, `PruneRoot`, `MarkContaminated`, `ScanRootField`, `DropContaminated` and
    `BasicInvalidateCache` are proved equal to a declarative partner.
  - `RemoveReferrers`, `Step`, `Visit` and `Round` state what one pass does and which cascade
    invariant it preserves. `Cascade` combines them and is proved to remove exactly `CascadeSet`.
- `CacheDelete`: the seed selection of `delete` and the two paths.
- `Schema`: the abstract schema the generator reads.
- `Codegen`: the generator's relations and the generated map.
- `Scenarios`: concrete stores and schemas that pin the model down.

Some facts about this code that the model keeps:

- **Reference matching.** A reference matches when an object's `id` equals the whole key, such
  as `Post:1`. The scan descends into every nested object and array, and it builds no index.
- **Root-field name matching.** A name matches when the root field's name contains it as a
  substring (`includes`).
- **Dependent queries on the type path.** Only the top-level `ROOT_QUERY.<field>` keys are
  removed. The root record itself is left unchanged at that step.

## Model

| member | source | states |
|---|---|---|
| `Json.MentionsIffReachableId` | src/index.ts:40-66 | The "holds a reference to `target`" relation holds exactly when some path of array indices and property positions leads from the value to an object whose `id` is `target`. |
| `ReferenceMatch.CheckValueFromAnyObject` | src/index.ts:40-66 | The breadth-first scan answers true exactly when the value holds a reference to the target, at any depth. A primitive or `null` value answers false. |
| `ReferenceMatch.ScanProperties` | src/index.ts:51-63 | One `some` pass over a dequeued object succeeds exactly when the object's own `id` is the target. Otherwise the properties it enqueues hold a reference exactly when the object's properties do, and they weigh less than the object, so the queue shrinks. |
| `Text.BeforeFirst` | src/index.ts:101 | `split(c)[0]` is a prefix of the string that contains no `c`. It is either the whole string or it stops just before the first `c`. |
| `Cache.KeepFieldsMembers` | src/index.ts:106-112 | Dropping root fields by name keeps exactly the fields whose name includes none of the recorded names, and it never adds a field. |
| `Invalidate.IsReferrer` | src/index.ts:82-85 | A top-level entry is deleted for `key` exactly when it is not `ROOT_QUERY` and its value holds a reference to `key`. |
| `Invalidate.RemoveReferrers` | src/index.ts:80-91 | One pass for one key removes exactly the non-root entries that reference it. Every other entry is kept unchanged, no survivor references the key, and nothing changes when no entry is removed. |
| `Invalidate.Step` | src/index.ts:80-91 | Testing one deleted key keeps the cascade invariant: every deleted key is a seed or a removed entry, and each has a witnessing chain. No survivor references the tested key. |
| `Invalidate.Visit` | src/index.ts:80-91 | Testing the next key of `temp` and recording its deleted referrers advances the round invariant by one key. The deleted keys still all have witnessing chains, and no survivor references a tested key. The progress facts still hold: once `flag` is set an entry has been removed; while it is unset nothing has changed and nothing is pending. |
| `Invalidate.Round` | src/index.ts:76-92 | A round keeps the invariant and leaves no survivor referencing a key that is no longer pending. A round that sets `flag` has removed at least one entry; one that does not leaves the store unchanged with nothing pending. |
| `Invalidate.Cascade` | src/index.ts:73-93 | The loop removes exactly the entries reached from a seed by a chain of references and never removes `ROOT_QUERY`. Every other entry is kept unchanged, and no survivor references a deleted key. The number of rounds is at most one more than the number of entries removed. |
| `Invalidate.ScanRootField` | src/index.ts:98-103 | For one root field: its `ROOT_QUERY.<field>` entry is deleted, and its name before `(` is recorded, exactly when it references some deleted key. |
| `Invalidate.MarkContaminated` | src/index.ts:95-104 | The first pruning pass deletes exactly the `ROOT_QUERY.<field>` entries of the root fields referencing a deleted key. It records exactly their names before `(`. |
| `Invalidate.DropContaminated` | src/index.ts:106-112 | Deleting, name by name, every root field whose name includes a recorded name leaves the fields that include none of the recorded names, in their original order. |
| `Invalidate.PruneRoot` | src/index.ts:95-112 | Pruning equals its declarative meaning: the stale aliases are gone and the root record is rebuilt without the contaminated fields. A missing root is the TypeError. |
| `Invalidate.BasicInvalidateCache` | src/index.ts:68-113 | The whole invalidation equals the declarative one: the chain-reachable entries are removed, then the root is pruned against the seeds and every cascaded key. |
| `CacheFacts.RootNeverCascades` | src/index.ts:83 | The cascade never reaches `ROOT_QUERY`. |
| `CacheFacts.CascadeClosed` | src/index.ts:73-93 | After the cascade, no surviving non-root entry references a seed or a cascaded key. |
| `CacheFacts.InvalidateOnlyRemoves` | src/index.ts:68-113 | An invalidation never adds an entry. Every entry it keeps other than `ROOT_QUERY` keeps its value. |
| `CacheFacts.InvalidateThrowsIffRootMissing` | src/index.ts:96-97 | The invalidation throws exactly when the root record cannot be read. The error is then the TypeError, raised after the cascade's deletions. |
| `CacheFacts.InvalidateClosed` | src/index.ts:73-112 | Whether the call completes or throws, no surviving non-root entry references a seed or a cascaded key. |
| `CacheFacts.PruneRootClean` | src/index.ts:95-112 | With a readable root, pruning completes. A root field survives exactly when it was there and its name includes no contaminated name, so no surviving root field references a deleted key. |
| `CacheFacts.InvalidateRootClean` | src/index.ts:95-112 | With a readable root the call completes. Every surviving root field was an original field and references no seed or cascaded key. |
| `CacheFacts.PruneDropsStaleAliases` | src/index.ts:99-100 | Every root field that references a deleted key has its `ROOT_QUERY.<field>` entry gone afterwards. |
| `CacheFacts.InvalidateKeepsUnrelated` | src/index.ts:73-112 | No over-deletion: every entry that is neither the root nor a `ROOT_QUERY.` alias, and that no chain of references reaches, survives unchanged. |
| `CacheDelete.OriginKey` | src/index.ts:133 | `value && dataIdFromObject(value)` yields a key only for a truthy value and a non-empty id. Otherwise the id function gave nothing or the empty string. |
| `CacheDelete.Delete` | src/index.ts:123-163 | `delete` equals its declarative meaning. It throws "No Such Type" exactly when the identity path does not apply and the type is unknown, and then it leaves the store untouched. On the type path an unreadable root throws before any deletion. Otherwise entries are only removed, and non-root survivors keep their values. |
| `CacheDelete.DropDependentQueries` | src/index.ts:147-152 | It removes exactly the `ROOT_QUERY.<field>` keys of the root fields whose name before `(` is a dependent query. |
| `CacheDelete.TakeDependentTypes` | src/index.ts:153-159 | A key becomes a seed exactly when its part before `:` is a dependent type, and exactly those keys are deleted. Every other key keeps its entry. |
| `CacheDelete.IdentityIgnoresTypeMap` | src/index.ts:133-141 | On the identity path the outcome does not depend on the type map or the type name, the named key is gone, and the call never reports an unknown type. |
| `CacheDelete.IdentityKeepsUnrelated` | src/index.ts:136-141 | On the identity path, every entry that is not the named key, the root or an alias, and that no chain of references links to the named key, survives unchanged. |
| `CacheDelete.TypePathRemovesDependents` | src/index.ts:143-162 | On the type path with a readable root, no surviving non-root entry has a dependent type, and every dependent query's `ROOT_QUERY.<field>` entry is gone. |
| `CacheDelete.TypePathClosed` | src/index.ts:143-162 | On the type path with a readable root, the call completes exactly when `ROOT_QUERY` itself is not of a dependent type. No survivor references a seed or a cascaded key. |
| `Schema.NamedTypesMembers` | src/codegen.ts:18-24 | The `NamedType` nodes a field's visit meets name `t` exactly when the field's type or one of its argument types has base name `t`, under any list or non-null nesting. |
| `Codegen.GetDependentTypes` | src/codegen.ts:9-10 | The dependent types of `t` are never empty and start with `t`. |
| `Codegen.DependentTypesMembers` | src/codegen.ts:9-51 | `x` is a dependent type of `t` exactly when one of these holds: `x` is `t`; `x` is a non-root object type with a field naming `t`; or `x` is a union with member `t`, or a member of such a union. The search is one level deep. |
| `Codegen.DependentQueriesMembers` | src/codegen.ts:53-71 | `q` is a dependent query exactly when it is the name of a field of a `Query` definition whose type or argument types name one of the given types. |
| `Codegen.RelationsInDocumentOrder` | src/codegen.ts:99-130 | The relations of two concatenated parts of the document are those of the first part followed by those of the second, so relations follow document order. |
| `Codegen.RelationsMeaning` | src/codegen.ts:99-130 | Every relation's types are its name's dependent types, and its queries are the dependent queries of those types. The relations' names are exactly those of the non-root object types and unions. |
| `Codegen.TypeFieldMapKeys` | src/codegen.ts:80-94 | The map built from the relations has an entry for exactly the relations' names. |
| `Codegen.TypeFieldMapLastWins` | src/codegen.ts:80-94 | A name maps to the sets of the last relation carrying that name. |
| `Codegen.GeneratedTypeFieldMapMeaning` | src/codegen.ts:80-130 | The generated map's keys are the non-root object types and the unions. Each entry holds the set of that name's dependent types and the set of the `Query` fields naming one of them. |
| `Scenarios.PrimitiveNeverMentions` | src/index.ts:48-50 | A primitive or `null` never holds a reference. |
| `Scenarios.RefMentionsItsKey` | benchmark/utils.ts:22-27 | A stored reference object holds a reference to exactly the key it names. |
| `Scenarios.EntityNeverMatchesOwnKey` | benchmark/utils.ts:72-86 | An entity whose own `id` is bare does not match its own key, but it matches a post it references. |
| `Scenarios.PlainValueIsNoReference` | benchmark/utils.ts:97-105 | A plain string property equal to a key is no reference to that key. |
| `Scenarios.DependenciesAreOneLevel` | src/codegen.ts:98 | With `A → B → C`, the dependent types of `C` are `C` and `B`, and `A` is not among them. |
| `Scenarios.OnePushPerOccurrence` | src/codegen.ts:17-24 | A type is pushed once per field naming `t`, so duplicates occur. |
| `Scenarios.UnionAddsAllMembers` | src/codegen.ts:28-48 | A union naming `t` adds itself and all its members. A union not naming `t` adds nothing. |
| `Scenarios.OnlyQueryFields` | src/codegen.ts:53-71 | Only `Query` fields are dependent queries, and the root operation types are never dependent types. |

## Left out

- `ApolloClient.prototype.deleteCache` (src/index.ts:165-206) is left out. It is the host library's query manager walk, completeness diff and refetch.
- `patch` and `setTypeFieldMap` (src/index.ts:115-122) are left out. They install methods on prototypes at run time. The engine is modelled as plain functions that take the store, the type map and the id function. An uninstalled (undefined) type map is not modelled.
- `dataIdFromObject` / `defaultDataIdFromObject` is a function parameter. Apollo's implementation of it is not part of this model.
- `DepTrackingCache` dependency dirtying is left out. `store.delete(k)` is removal of top-level key `k`.
- GraphQL parsing and `visit` are replaced by the `Schema` datatype.
  - Interfaces, inputs, enums, scalars, directives and type extensions are all `OtherDefinition`, which the generator ignores.
  - A union without a `types` list is a union with no members; both add nothing.
  - An object type without `fields` is an object type with no fields.
- The `template` text emission (src/codegen.ts:73-96) and src/cli.ts are left out. The model states the meaning of the emitted `new Map(...)` / `new Set(...)`, not its text.
- Floating-point numbers are left out: `Num` holds an integer. Number values never take part in reference matching.
- Two JavaScript type coercions are not modelled.
  - A root record that is an array or a non-null primitive would still be listed by `Object.keys`. The model treats it as unreadable, the same as a missing root.
  - `'id' in v` on an array is taken to be false.
- Objects are sequences of fields with distinct keys, as JavaScript objects are. Duplicate keys are not modelled.
- The order in which `Object.keys` visits top-level keys is left unspecified: the methods pick keys from a set. The results, proved equal to the declarative meaning, do not depend on that order.
- `Invalidate.Cascade`'s `rounds` result is instrumentation. The source does not return it; it only bounds how often the `while (flag)` loop runs.
