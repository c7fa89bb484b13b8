/** The part of a GraphQL schema document the generator reads: object types
    with their fields, unions with their members, and nothing else. */
module Schema {

  /** A field or argument type: a named type under any nesting of list and
      non-null wrappers. */
  datatype TypeRef =
    | Named(name: string)
    | ListOf(item: TypeRef)
    | NonNull(inner: TypeRef)

  datatype InputValue = InputValue(name: string, ty: TypeRef)

  datatype FieldDef = FieldDef(name: string, args: seq<InputValue>, ty: TypeRef)

  /** A top-level definition; interfaces, inputs, enums, scalars, directives
      and extensions are `OtherDefinition`, which the generator ignores. */
  datatype Definition =
    | ObjectType(name: string, fields: seq<FieldDef>)
    | UnionType(name: string, members: seq<string>)
    | OtherDefinition

  type Document = seq<Definition>

  /** The one named type inside a type reference. */
  function BaseName(t: TypeRef): string
  {
    match t
    case Named(n) => n
    case ListOf(i) => BaseName(i)
    case NonNull(i) => BaseName(i)
  }

  function ArgTypeNames(args: seq<InputValue>): (ns: seq<string>)
    ensures |ns| == |args|
    ensures forall i :: 0 <= i < |args| ==> ns[i] == BaseName(args[i].ty)
  {
    seq(|args|, i requires 0 <= i < |args| => BaseName(args[i].ty))
  }

  /** The names of the `NamedType` nodes a visit of a field definition
      meets, in visiting order: its arguments' types, then its own type. */
  function NamedTypes(f: FieldDef): seq<string>
  {
    ArgTypeNames(f.args) + [BaseName(f.ty)]
  }

  /** The field's type or one of its argument types is named `t`. */
  predicate NamesType(f: FieldDef, t: string)
  {
    BaseName(f.ty) == t || exists i :: 0 <= i < |f.args| && BaseName(f.args[i].ty) == t
  }

  lemma NamedTypesMembers(f: FieldDef, t: string)
    ensures t in NamedTypes(f) <==> NamesType(f, t)
  {
    var ns := NamedTypes(f);
    if t in ns {
      var i :| 0 <= i < |ns| && ns[i] == t;
      if i < |f.args| {
        assert ns[i] == ArgTypeNames(f.args)[i];
      }
    }
    if exists i :: 0 <= i < |f.args| && BaseName(f.args[i].ty) == t {
      var i :| 0 <= i < |f.args| && BaseName(f.args[i].ty) == t;
      assert ns[i] == t;
    }
    assert ns[|ns| - 1] == BaseName(f.ty);
  }

  /** The root operation types, which get no entry of their own. */
  predicate IsOperationType(name: string)
  {
    name == "Query" || name == "Mutation" || name == "Subscription"
  }
}
