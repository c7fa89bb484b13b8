/** Concrete cases that pin the model to the shapes the cache really holds:
    references are `{type: 'id', id: <key>}` objects, an entity's own `id`
    is bare, and the generator's dependency search is one level deep. */
module Scenarios {
  import opened Json
  import opened Schema
  import opened Codegen

  /** A stored reference to entity `key`. */
  function Ref(key: string, typename: string): Value
  {
    Obj([Field("type", Str("id")), Field("generated", Bool(false)), Field("id", Str(key)), Field("typename", Str(typename))])
  }

  /** Neither a primitive nor an object without that `id` mentions a key. */
  lemma PrimitiveNeverMentions(target: string, v: Value)
    requires !IsObject(v)
    ensures !Mentions(target, v)
  {
  }

  /** A reference mentions exactly the key it names. */
  lemma RefMentionsItsKey(key: string, other: string, typename: string)
    requires other != key
    ensures Mentions(key, Ref(key, typename))
    ensures !Mentions(other, Ref(key, typename))
  {
    var fs := Ref(key, typename).fields;
    assert fs[2].key == "id";
    assert HasId(Ref(key, typename), key);
    forall i | 0 <= i < |fs|
      ensures !Mentions(other, fs[i].val)
    {
      assert !fs[i].val.Arr? && !fs[i].val.Obj?;
    }
    forall i | 0 <= i < |fs| && fs[i].key == "id"
      ensures fs[i].val != Str(other)
    {
      assert i == 2;
    }
  }

  /** A user entity as normalized: its own `id` is bare, and it references
      one post. */
  function UserEntity(): Value
  {
    Obj([Field("__typename", Str("User")), Field("id", Str("7")), Field("posts", Arr([Ref("Post:3", "Post")]))])
  }

  /** The entity does not match its own key, but does match the post it
      references. */
  lemma EntityNeverMatchesOwnKey()
    ensures !Mentions("User:7", UserEntity())
    ensures Mentions("Post:3", UserEntity())
  {
    var fs := UserEntity().fields;
    var posts := fs[2].val;
    RefMentionsItsKey("Post:3", "User:7", "Post");
    assert Mentions("Post:3", posts.elems[0]);
    assert !Mentions("User:7", posts) by {
      forall i | 0 <= i < |posts.elems|
        ensures !Mentions("User:7", posts.elems[i])
      {
        assert i == 0;
      }
    }
    forall i | 0 <= i < |fs|
      ensures !Mentions("User:7", fs[i].val)
    {
      if i < 2 {
        assert fs[i].val.Str?;
      }
    }
    forall i | 0 <= i < |fs| && fs[i].key == "id"
      ensures fs[i].val != Str("User:7")
    {
      assert i == 1;
    }
  }

  /** A plain string property equal to a key is not a reference to it. */
  function FuzzyEntity(): Value
  {
    Obj([Field("__typename", Str("Fuzzy")), Field("id", Str("42")), Field("content", Str("Post:1")), Field("posts", Str("fuzzy key"))])
  }

  lemma PlainValueIsNoReference()
    ensures !Mentions("Post:1", FuzzyEntity())
  {
    var fs := FuzzyEntity().fields;
    forall i | 0 <= i < |fs|
      ensures !Mentions("Post:1", fs[i].val)
    {
      assert fs[i].val.Str?;
    }
    forall i | 0 <= i < |fs| && fs[i].key == "id"
      ensures fs[i].val != Str("Post:1")
    {
      assert i == 1;
    }
  }

  // ---------------------------------------------------------------------
  // The generator.

  function Field0(name: string, ty: TypeRef): FieldDef
  {
    FieldDef(name, [], ty)
  }

  /** `A` references `B`, `B` references `C`. */
  function ChainSchema(): Document
  {
    [ObjectType("A", [Field0("b", Named("B"))]),
     ObjectType("B", [Field0("c", NonNull(Named("C")))])]
  }

  /** One level only: `B` depends on `C`, `A` does not. */
  lemma DependenciesAreOneLevel()
    ensures GetDependentTypes(ChainSchema(), "C") == ["C", "B"]
    ensures "A" !in GetDependentTypes(ChainSchema(), "C")
  {
    var doc := ChainSchema();
    var b, c := Field0("b", Named("B")), Field0("c", NonNull(Named("C")));
    assert NamedTypes(b) == ["B"];
    assert NamedTypes(c) == ["C"];
    assert PushesFor("A", ["B"], "C") == [];
    assert PushesFor("B", ["C"], "C") == ["B"];
    assert ObjectPushes("A", [b], "C") == [];
    assert ObjectPushes("B", [c], "C") == ["B"];
    assert DocumentPushes(doc[1..], "C") == ["B"];
  }

  /** A post with two fields returning users. */
  function PostSchema(): Document
  {
    [ObjectType("Post", [Field0("author", Named("User")), Field0("editors", ListOf(NonNull(Named("User"))))])]
  }

  /** Every occurrence pushes: `Post` appears once per user field. */
  lemma OnePushPerOccurrence()
    ensures GetDependentTypes(PostSchema(), "User") == ["User", "Post", "Post"]
  {
    var fs := PostSchema()[0].fields;
    assert NamedTypes(fs[0]) == ["User"];
    assert NamedTypes(fs[1]) == ["User"];
    assert PushesFor("Post", ["User"], "User") == ["Post"];
    assert fs[1..] == [fs[1]];
    assert ObjectPushes("Post", [fs[1]], "User") == ["Post"];
    assert ObjectPushes("Post", fs, "User") == ["Post", "Post"];
  }

  /** A union naming `User` adds itself and all its members. */
  lemma UnionAddsAllMembers()
    ensures GetDependentTypes([UnionType("SearchResult", ["User", "Post"])], "User") == ["User", "SearchResult", "User", "Post"]
    ensures GetDependentTypes([UnionType("SearchResult", ["User", "Post"])], "Comment") == ["Comment"]
  {
    var doc := [UnionType("SearchResult", ["User", "Post"])];
    assert doc[1..] == [];
  }

  /** Root operation types with fields returning users. */
  function OperationsSchema(): Document
  {
    [ObjectType("Query", [FieldDef("user", [InputValue("id", NonNull(Named("ID")))], Named("User"))]),
     ObjectType("Mutation", [Field0("updateUser", Named("User"))])]
  }

  /** Only `Query` fields count, and the root operations are no dependents. */
  lemma OnlyQueryFields()
    ensures GetDependentQueries(OperationsSchema(), ["User"]) == ["user"]
    ensures GetDependentTypes(OperationsSchema(), "User") == ["User"]
  {
    var doc := OperationsSchema();
    var f := doc[0].fields[0];
    assert NamedTypes(f) == ["ID", "User"];
    assert FieldQueryPushes(f, ["User"], ["User"]) == ["user"];
    assert FieldQueryPushes(f, ["ID", "User"], ["User"]) == ["user"];
    assert QueryPushes(doc[0].fields, ["User"]) == ["user"];
    assert DocumentQueries(doc[1..], ["User"]) == [];
    assert DocumentPushes(doc[1..], "User") == [];
  }
}
