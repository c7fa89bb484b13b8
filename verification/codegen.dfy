/** The dependency-map generator: for every object type other than the root
    operations and for every union, the types whose entries an invalidation
    of it must also remove, and the `Query` fields that return them. */
module Codegen {
  import opened Schema
  import opened Cache

  // ---------------------------------------------------------------------
  // getDependentTypes

  /** One `name` for each entry of `ns` equal to `t`. */
  function PushesFor(name: string, ns: seq<string>, t: string): seq<string>
  {
    if |ns| == 0 then []
    else (if ns[0] == t then [name] else []) + PushesFor(name, ns[1..], t)
  }

  /** Lines 17-24: the object's name, once per `NamedType` naming `t` in any
      of its fields. */
  function ObjectPushes(name: string, fields: seq<FieldDef>, t: string): seq<string>
  {
    if |fields| == 0 then []
    else PushesFor(name, NamedTypes(fields[0]), t) + ObjectPushes(name, fields[1..], t)
  }

  /** Lines 28-48: a union with a member named `t` contributes its own name
      followed by all its members. */
  function UnionPushes(name: string, members: seq<string>, t: string): seq<string>
  {
    if t in members then [name] + members else []
  }

  function DefinitionPushes(d: Definition, t: string): seq<string>
  {
    match d
    case ObjectType(n, fs) => if IsOperationType(n) then [] else ObjectPushes(n, fs, t)
    case UnionType(n, ms) => UnionPushes(n, ms, t)
    case OtherDefinition => []
  }

  function DocumentPushes(defs: seq<Definition>, t: string): seq<string>
  {
    if |defs| == 0 then []
    else DefinitionPushes(defs[0], t) + DocumentPushes(defs[1..], t)
  }

  /** `getDependentTypes(doc, t)`: `t` itself, then the definitions' pushes
      in document order. */
  function GetDependentTypes(doc: Document, t: string): (r: seq<string>)
    ensures |r| >= 1 && r[0] == t
  {
    [t] + DocumentPushes(doc, t)
  }

  /** Definition `d` makes `x` a dependent type of `t`: an object type other
      than a root operation with a field naming `t` adds itself; a union with
      member `t` adds itself and every member. */
  predicate Adds(d: Definition, t: string, x: string)
  {
    || (d.ObjectType? && !IsOperationType(d.name) && x == d.name && exists f :: f in d.fields && NamesType(f, t))
    || (d.UnionType? && t in d.members && (x == d.name || x in d.members))
  }

  lemma {:induction false} PushesForMembers(name: string, ns: seq<string>, t: string, x: string)
    ensures x in PushesFor(name, ns, t) <==> x == name && t in ns
    decreases |ns|
  {
    if |ns| > 0 {
      PushesForMembers(name, ns[1..], t, x);
      assert ns == [ns[0]] + ns[1..];
    }
  }

  lemma {:induction false} ObjectPushesMembers(name: string, fields: seq<FieldDef>, t: string, x: string)
    ensures x in ObjectPushes(name, fields, t) <==> x == name && exists f :: f in fields && NamesType(f, t)
    decreases |fields|
  {
    if |fields| > 0 {
      ObjectPushesMembers(name, fields[1..], t, x);
      PushesForMembers(name, NamedTypes(fields[0]), t, x);
      NamedTypesMembers(fields[0], t);
      assert fields == [fields[0]] + fields[1..];
      assert forall f :: f in fields <==> f == fields[0] || f in fields[1..];
    }
  }

  lemma DefinitionPushesMembers(d: Definition, t: string, x: string)
    ensures x in DefinitionPushes(d, t) <==> Adds(d, t, x)
  {
    if d.ObjectType? {
      ObjectPushesMembers(d.name, d.fields, t, x);
    }
  }

  lemma {:induction false} DocumentPushesMembers(defs: seq<Definition>, t: string, x: string)
    ensures x in DocumentPushes(defs, t) <==> exists d :: d in defs && Adds(d, t, x)
    decreases |defs|
  {
    if |defs| > 0 {
      DocumentPushesMembers(defs[1..], t, x);
      DefinitionPushesMembers(defs[0], t, x);
      assert defs == [defs[0]] + defs[1..];
      assert forall d :: d in defs <==> d == defs[0] || d in defs[1..];
    }
  }

  /** `x` is a dependent type of `t` exactly when it is `t` or some
      definition adds it; the search is one level deep. */
  lemma DependentTypesMembers(doc: Document, t: string, x: string)
    ensures x in GetDependentTypes(doc, t) <==> x == t || exists d :: d in doc && Adds(d, t, x)
  {
    DocumentPushesMembers(doc, t, x);
  }

  // ---------------------------------------------------------------------
  // getDependentQueries

  /** Lines 58-65: the field's name once per `NamedType` of it named in `ts`. */
  function FieldQueryPushes(f: FieldDef, ns: seq<string>, ts: seq<string>): seq<string>
  {
    if |ns| == 0 then []
    else (if ns[0] in ts then [f.name] else []) + FieldQueryPushes(f, ns[1..], ts)
  }

  function QueryPushes(fields: seq<FieldDef>, ts: seq<string>): seq<string>
  {
    if |fields| == 0 then []
    else FieldQueryPushes(fields[0], NamedTypes(fields[0]), ts) + QueryPushes(fields[1..], ts)
  }

  /** Only a definition named `Query` contributes. */
  function DocumentQueries(defs: seq<Definition>, ts: seq<string>): seq<string>
  {
    if |defs| == 0 then []
    else
      var own := if defs[0].ObjectType? && defs[0].name == "Query" then QueryPushes(defs[0].fields, ts) else [];
      own + DocumentQueries(defs[1..], ts)
  }

  /** `getDependentQueries(doc, ts)`. */
  function GetDependentQueries(doc: Document, ts: seq<string>): seq<string>
  {
    DocumentQueries(doc, ts)
  }

  /** Field `f` of the `Query` type names one of `ts`. */
  predicate QueryFieldOn(defs: seq<Definition>, f: FieldDef, ts: seq<string>)
  {
    exists d :: d in defs && d.ObjectType? && d.name == "Query" && f in d.fields && exists n :: n in ts && NamesType(f, n)
  }

  lemma {:induction false} FieldQueryPushesMembers(f: FieldDef, ns: seq<string>, ts: seq<string>, q: string)
    ensures q in FieldQueryPushes(f, ns, ts) <==> q == f.name && exists n :: n in ns && n in ts
    decreases |ns|
  {
    if |ns| > 0 {
      FieldQueryPushesMembers(f, ns[1..], ts, q);
      assert ns == [ns[0]] + ns[1..];
      assert forall n :: n in ns <==> n == ns[0] || n in ns[1..];
    }
  }

  lemma {:induction false} QueryPushesMembers(fields: seq<FieldDef>, ts: seq<string>, q: string)
    ensures q in QueryPushes(fields, ts) <==> exists f :: f in fields && f.name == q && exists n :: n in ts && NamesType(f, n)
    decreases |fields|
  {
    if |fields| > 0 {
      var f0 := fields[0];
      QueryPushesMembers(fields[1..], ts, q);
      FieldQueryPushesMembers(f0, NamedTypes(f0), ts, q);
      forall n
        ensures n in NamedTypes(f0) <==> NamesType(f0, n)
      {
        NamedTypesMembers(f0, n);
      }
      assert fields == [f0] + fields[1..];
      assert forall f :: f in fields <==> f == f0 || f in fields[1..];
    }
  }

  lemma {:induction false} DocumentQueriesMembers(defs: seq<Definition>, ts: seq<string>, q: string)
    ensures q in DocumentQueries(defs, ts) <==> exists f: FieldDef :: f.name == q && QueryFieldOn(defs, f, ts)
    decreases |defs|
  {
    if |defs| > 0 {
      var d0 := defs[0];
      DocumentQueriesMembers(defs[1..], ts, q);
      if d0.ObjectType? && d0.name == "Query" {
        QueryPushesMembers(d0.fields, ts, q);
      }
      assert defs == [d0] + defs[1..];
      assert forall d :: d in defs <==> d == d0 || d in defs[1..];
      if exists f: FieldDef :: f.name == q && QueryFieldOn(defs, f, ts) {
        var f: FieldDef :| f.name == q && QueryFieldOn(defs, f, ts);
        var d :| d in defs && d.ObjectType? && d.name == "Query" && f in d.fields && exists n :: n in ts && NamesType(f, n);
        if d != d0 {
          assert QueryFieldOn(defs[1..], f, ts);
        }
      }
      if exists f: FieldDef :: f.name == q && QueryFieldOn(defs[1..], f, ts) {
        var f: FieldDef :| f.name == q && QueryFieldOn(defs[1..], f, ts);
        assert QueryFieldOn(defs, f, ts);
      }
    }
  }

  /** `q` is a dependent query exactly when it names a field of `Query` whose
      type or argument types include one of `ts`; `Mutation` and
      `Subscription` fields never count. */
  lemma DependentQueriesMembers(doc: Document, ts: seq<string>, q: string)
    ensures q in GetDependentQueries(doc, ts) <==> exists f: FieldDef :: f.name == q && QueryFieldOn(doc, f, ts)
  {
    DocumentQueriesMembers(doc, ts, q);
  }

  // ---------------------------------------------------------------------
  // constructTypeFieldMap

  datatype Relation = Relation(typename: string, dependentTypes: seq<string>, dependentQueries: seq<string>)

  /** The definitions that get a relation: object types other than the root
      operations, and unions. */
  predicate Emits(d: Definition)
  {
    (d.ObjectType? && !IsOperationType(d.name)) || d.UnionType?
  }

  function RelationOf(doc: Document, name: string): Relation
  {
    var dt := GetDependentTypes(doc, name);
    Relation(name, dt, GetDependentQueries(doc, dt))
  }

  /** The relation a definition emits, if any. */
  function OwnRelation(doc: Document, d: Definition): seq<Relation>
  {
    if Emits(d) then [RelationOf(doc, d.name)] else []
  }

  function RelationsOver(doc: Document, defs: seq<Definition>): seq<Relation>
  {
    if |defs| == 0 then []
    else OwnRelation(doc, defs[0]) + RelationsOver(doc, defs[1..])
  }

  /** Lines 99-130: the relations, in document order. */
  function ConstructRelations(doc: Document): seq<Relation>
  {
    RelationsOver(doc, doc)
  }

  /** Relations follow the document: those of `a + b` are those of `a`
      followed by those of `b`. */
  lemma {:induction false} RelationsInDocumentOrder(doc: Document, a: seq<Definition>, b: seq<Definition>)
    ensures RelationsOver(doc, a + b) == RelationsOver(doc, a) + RelationsOver(doc, b)
    decreases |a|
  {
    if |a| == 0 {
      assert a + b == b;
    } else {
      var own := OwnRelation(doc, a[0]);
      assert (a + b)[0] == a[0];
      assert (a + b)[1..] == a[1..] + b;
      RelationsInDocumentOrder(doc, a[1..], b);
    }
  }

  /** The names the relations carry. */
  function Typenames(rels: seq<Relation>): set<string>
  {
    set r | r in rels :: r.typename
  }

  /** The names of the definitions that emit a relation. */
  function EmittedNames(defs: seq<Definition>): set<string>
  {
    set d | d in defs && Emits(d) :: d.name
  }

  /** Every relation is named after an emitting definition, every emitting
      definition has one, and its queries are those of its own dependent
      types. */
  lemma {:induction false} RelationsMeaning(doc: Document, defs: seq<Definition>)
    ensures forall r :: r in RelationsOver(doc, defs) ==>
      r.dependentTypes == GetDependentTypes(doc, r.typename) && r.dependentQueries == GetDependentQueries(doc, r.dependentTypes)
    ensures Typenames(RelationsOver(doc, defs)) == EmittedNames(defs)
    decreases |defs|
  {
    if |defs| > 0 {
      RelationsMeaning(doc, defs[1..]);
      assert defs == [defs[0]] + defs[1..];
      assert forall d :: d in defs <==> d == defs[0] || d in defs[1..];
      var own := OwnRelation(doc, defs[0]);
      assert RelationsOver(doc, defs) == own + RelationsOver(doc, defs[1..]);
      assert forall r :: r in RelationsOver(doc, defs) <==> r in own || r in RelationsOver(doc, defs[1..]);
      assert Typenames(RelationsOver(doc, defs)) == Typenames(own) + Typenames(RelationsOver(doc, defs[1..]));
      assert EmittedNames(defs) == (if Emits(defs[0]) then {defs[0].name} else {}) + EmittedNames(defs[1..]);
    }
  }

  /** The sets `new Set(...)` builds from one relation. */
  function DepOf(r: Relation): Dependencies
  {
    Dependencies(Elems(r.dependentTypes), Elems(r.dependentQueries))
  }

  /** Lines 80-94, the emitted `new Map(entries)`: an entry per relation
      name, a later relation of a name replacing an earlier one. */
  function TypeFieldMapOf(rels: seq<Relation>): TypeFieldMap
    decreases |rels|
  {
    if |rels| == 0 then map[]
    else
      var last := rels[|rels| - 1];
      TypeFieldMapOf(rels[..|rels| - 1])[last.typename := DepOf(last)]
  }

  /** The map has an entry for exactly the relations' names. */
  lemma {:induction false} TypeFieldMapKeys(rels: seq<Relation>)
    ensures TypeFieldMapOf(rels).Keys == Typenames(rels)
    decreases |rels|
  {
    if |rels| > 0 {
      var init := rels[..|rels| - 1];
      TypeFieldMapKeys(init);
      assert rels == init + [rels[|rels| - 1]];
      assert forall r :: r in rels <==> r in init || r == rels[|rels| - 1];
    }
  }

  /** A name maps to the sets of the last relation carrying it. */
  lemma {:induction false} TypeFieldMapLastWins(rels: seq<Relation>, i: nat)
    requires i < |rels|
    requires forall j :: i < j < |rels| ==> rels[j].typename != rels[i].typename
    ensures rels[i].typename in TypeFieldMapOf(rels)
    ensures TypeFieldMapOf(rels)[rels[i].typename] == DepOf(rels[i])
    decreases |rels|
  {
    if i < |rels| - 1 {
      var init := rels[..|rels| - 1];
      assert init[i] == rels[i];
      assert forall j :: i < j < |init| ==> init[j] == rels[j];
      TypeFieldMapLastWins(init, i);
    }
  }

  /** The generated `typeFieldMap`. */
  function GeneratedTypeFieldMap(doc: Document): TypeFieldMap
  {
    TypeFieldMapOf(ConstructRelations(doc))
  }

  /** The generated map has an entry for exactly the emitting definitions'
      names, and each entry holds the sets of that name's dependent types and
      of the `Query` fields returning one of them. */
  lemma GeneratedTypeFieldMapMeaning(doc: Document)
    ensures GeneratedTypeFieldMap(doc).Keys == EmittedNames(doc)
    ensures forall n :: n in GeneratedTypeFieldMap(doc) ==>
      GeneratedTypeFieldMap(doc)[n] == Dependencies(Elems(GetDependentTypes(doc, n)), Elems(GetDependentQueries(doc, GetDependentTypes(doc, n))))
  {
    var rels := ConstructRelations(doc);
    RelationsMeaning(doc, doc);
    TypeFieldMapKeys(rels);
    forall n | n in GeneratedTypeFieldMap(doc)
      ensures GeneratedTypeFieldMap(doc)[n] == Dependencies(Elems(GetDependentTypes(doc, n)), Elems(GetDependentQueries(doc, GetDependentTypes(doc, n))))
    {
      var r :| r in rels && r.typename == n;
      var k :| 0 <= k < |rels| && rels[k] == r;
      var i := LastNamed(rels, n);
      TypeFieldMapLastWins(rels, i);
      assert rels[i] in rels;
    }
  }

  /** The index of the last relation with a given name. */
  lemma LastNamed(rels: seq<Relation>, n: string) returns (i: nat)
    requires exists k :: 0 <= k < |rels| && rels[k].typename == n
    ensures i < |rels| && rels[i].typename == n
    ensures forall j :: i < j < |rels| ==> rels[j].typename != n
  {
    var k :| 0 <= k < |rels| && rels[k].typename == n;
    i := k;
    while exists j :: i < j < |rels| && rels[j].typename == n
      invariant i < |rels| && rels[i].typename == n
      decreases |rels| - i
    {
      var j :| i < j < |rels| && rels[j].typename == n;
      i := j;
    }
  }
}
