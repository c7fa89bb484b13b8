/**
  JSON-like values as they sit in the normalized cache: records are objects,
  references are objects of the shape `{type: 'id', id: 'User:1', ...}`,
  lists are arrays. `Option` stands in for JavaScript's `undefined`.
 */
module Json {

  datatype Option<+T> = None | Some(value: T)

  /** A JavaScript value reachable from a cache entry. Numbers are modelled as
      integers; floating point is not part of this model. */
  datatype Value =
    | Null
    | Bool(b: bool)
    | Num(n: int)
    | Str(s: string)
    | Arr(elems: seq<Value>)
    | Obj(fields: seq<Field>)

  /** One own property of an object; a JavaScript object has distinct keys. */
  datatype Field = Field(key: string, val: Value)

  /** `typeof v === 'object' && v !== null`: arrays and plain objects. */
  predicate IsObject(v: Value)
  {
    v.Arr? || v.Obj?
  }

  /** JavaScript truthiness (`v && ...`). */
  predicate Truthy(v: Value)
  {
    match v
    case Null => false
    case Bool(b) => b
    case Num(n) => n != 0
    case Str(s) => s != ""
    case _ => true
  }

  function FieldValues(fs: seq<Field>): (vs: seq<Value>)
    ensures |vs| == |fs|
    ensures forall i :: 0 <= i < |fs| ==> vs[i] == fs[i].val
  {
    seq(|fs|, i requires 0 <= i < |fs| => fs[i].val)
  }

  /** `Object.values(v)`: the elements of an array, the property values of an
      object, nothing for a primitive. */
  function Children(v: Value): seq<Value>
  {
    match v
    case Arr(es) => es
    case Obj(fs) => FieldValues(fs)
    case _ => []
  }

  /** `'id' in v && v.id === target`: only objects carry an `id`, and only a
      string equals the string `target`. */
  predicate HasId(v: Value, target: string)
  {
    v.Obj? && exists i :: 0 <= i < |v.fields| && v.fields[i].key == "id" && v.fields[i].val == Str(target)
  }

  /** Some object reachable from `v` through array elements and property
      values (including `v` itself) has `id` equal to `target`. */
  predicate Mentions(target: string, v: Value)
  {
    match v
    case Arr(es) => exists i :: 0 <= i < |es| && Mentions(target, es[i])
    case Obj(fs) => HasId(v, target) || exists i :: 0 <= i < |fs| && Mentions(target, fs[i].val)
    case _ => false
  }

  /** Some value of the sequence mentions `target`. */
  predicate MentionedIn(target: string, vs: seq<Value>)
  {
    exists i :: 0 <= i < |vs| && Mentions(target, vs[i])
  }

  /** One step of `Mentions`, phrased over `Object.values`. */
  lemma MentionsUnfold(target: string, v: Value)
    ensures Mentions(target, v) <==> HasId(v, target) || MentionedIn(target, Children(v))
  {
    if v.Obj? {
      var fs := v.fields;
      if exists i :: 0 <= i < |fs| && Mentions(target, fs[i].val) {
        var i :| 0 <= i < |fs| && Mentions(target, fs[i].val);
        assert Children(v)[i] == fs[i].val;
      }
      if MentionedIn(target, Children(v)) {
        var i :| 0 <= i < |Children(v)| && Mentions(target, Children(v)[i]);
        assert fs[i].val == Children(v)[i];
      }
    }
  }

  lemma MentionedInConcat(target: string, a: seq<Value>, b: seq<Value>)
    ensures MentionedIn(target, a + b) <==> MentionedIn(target, a) || MentionedIn(target, b)
  {
    if MentionedIn(target, a + b) {
      var i :| 0 <= i < |a + b| && Mentions(target, (a + b)[i]);
      if i < |a| {
        assert (a + b)[i] == a[i];
      } else {
        assert (a + b)[i] == b[i - |a|];
      }
    }
    if MentionedIn(target, a) {
      var i :| 0 <= i < |a| && Mentions(target, a[i]);
      assert (a + b)[i] == a[i];
    }
    if MentionedIn(target, b) {
      var i :| 0 <= i < |b| && Mentions(target, b[i]);
      assert (a + b)[|a| + i] == b[i];
    }
  }

  // ---------------------------------------------------------------------
  // Reachability by explicit paths: an independent reading of `Mentions`.

  /** The value found by following child indices `p` from `v`, if any. */
  function At(v: Value, p: seq<nat>): Option<Value>
    decreases |p|
  {
    if |p| == 0 then Some(v)
    else if p[0] < |Children(v)| then At(Children(v)[p[0]], p[1..])
    else None
  }

  /** `Mentions` holds exactly when some path from `v` leads to an object
      whose `id` is `target`. */
  lemma {:induction false} MentionsIffReachableId(target: string, v: Value)
    ensures Mentions(target, v) <==> exists p :: At(v, p).Some? && HasId(At(v, p).value, target)
  {
    if Mentions(target, v) {
      var p := MentioningPath(target, v);
    }
    if exists p :: At(v, p).Some? && HasId(At(v, p).value, target) {
      var p :| At(v, p).Some? && HasId(At(v, p).value, target);
      PathMentions(target, v, p);
    }
  }

  lemma {:induction false} MentioningPath(target: string, v: Value) returns (p: seq<nat>)
    requires Mentions(target, v)
    ensures At(v, p).Some? && HasId(At(v, p).value, target)
    decreases v
  {
    MentionsUnfold(target, v);
    if HasId(v, target) {
      p := [];
    } else {
      var cs := Children(v);
      var i :| 0 <= i < |cs| && Mentions(target, cs[i]);
      ChildSmaller(v, i);
      var q := MentioningPath(target, cs[i]);
      p := [i as nat] + q;
      assert p[1..] == q;
    }
  }

  lemma {:induction false} PathMentions(target: string, v: Value, p: seq<nat>)
    requires At(v, p).Some? && HasId(At(v, p).value, target)
    ensures Mentions(target, v)
    decreases |p|
  {
    MentionsUnfold(target, v);
    if |p| > 0 {
      var cs := Children(v);
      PathMentions(target, cs[p[0]], p[1..]);
    }
  }

  /** A child is structurally smaller than its parent. */
  lemma ChildSmaller(v: Value, i: int)
    requires 0 <= i < |Children(v)|
    ensures Children(v)[i] < v
  {
    if v.Obj? {
      assert Children(v)[i] == v.fields[i].val;
    }
  }

  // ---------------------------------------------------------------------
  // Size, the termination measure of the breadth-first scan.

  function Size(v: Value): nat
  {
    match v
    case Arr(es) => 1 + SizeOfAll(es)
    case Obj(fs) => 1 + SizeOfFields(fs)
    case _ => 1
  }

  function SizeOfAll(vs: seq<Value>): nat
  {
    if |vs| == 0 then 0 else Size(vs[0]) + SizeOfAll(vs[1..])
  }

  function SizeOfFields(fs: seq<Field>): nat
  {
    if |fs| == 0 then 0 else Size(fs[0].val) + SizeOfFields(fs[1..])
  }

  lemma {:induction false} SizeOfAllConcat(a: seq<Value>, b: seq<Value>)
    ensures SizeOfAll(a + b) == SizeOfAll(a) + SizeOfAll(b)
    decreases |a|
  {
    if |a| > 0 {
      assert (a + b)[1..] == a[1..] + b;
      SizeOfAllConcat(a[1..], b);
    } else {
      assert a + b == b;
    }
  }

  lemma {:induction false} SizeOfFieldValues(fs: seq<Field>)
    ensures SizeOfAll(FieldValues(fs)) == SizeOfFields(fs)
    decreases |fs|
  {
    if |fs| > 0 {
      assert FieldValues(fs)[1..] == FieldValues(fs[1..]);
      SizeOfFieldValues(fs[1..]);
    }
  }

  /** The values of a value weigh strictly less than the value itself. */
  lemma ChildrenLighter(v: Value)
    ensures SizeOfAll(Children(v)) < Size(v)
  {
    if v.Obj? {
      SizeOfFieldValues(v.fields);
    }
  }
}
