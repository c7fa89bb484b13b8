/** `checkValueFromAnyObject`: the breadth-first scan that decides whether a
    cached value holds a reference to a given entity key. */
module ReferenceMatch {
  import opened Json

  /** Scans `v` breadth first: each dequeued object is tested for an `id`
      equal to `target` while its object-valued properties are enqueued;
      primitives are skipped. The scan answers exactly `Mentions`. */
  method CheckValueFromAnyObject(target: string, v: Value) returns (flag: bool)
    ensures flag <==> Mentions(target, v)
    ensures !IsObject(v) ==> !flag
  {
    flag := false;
    var queue := [v];
    while !flag && |queue| > 0
      invariant flag ==> Mentions(target, v)
      invariant !flag ==> (Mentions(target, v) <==> MentionedIn(target, queue))
      decreases if flag then 0 else 1, SizeOfAll(queue)
    {
      var current := queue[0];
      var rest := queue[1..];
      assert queue == [current] + rest;
      MentionedInConcat(target, [current], rest);
      assert SizeOfAll(queue) == Size(current) + SizeOfAll(rest);
      queue := rest;
      if !IsObject(current) {
        continue;
      }
      var found, pushed := ScanProperties(target, current);
      MentionsUnfold(target, current);
      SizeOfAllConcat(rest, pushed);
      MentionedInConcat(target, rest, pushed);
      queue := rest + pushed;
      flag := found;
    }
  }

  /** The `Object.values(current).some(...)` pass of one dequeued object:
      stops at the first value equal to `target` when `current.id` is
      `target`, and otherwise returns the object-valued properties to
      enqueue. */
  method ScanProperties(target: string, current: Value) returns (found: bool, pushed: seq<Value>)
    requires IsObject(current)
    ensures found <==> HasId(current, target)
    ensures !found ==> (MentionedIn(target, pushed) <==> MentionedIn(target, Children(current)))
    ensures SizeOfAll(pushed) < Size(current)
  {
    var values := Children(current);
    ChildrenLighter(current);
    IdIsAValue(current, target);
    pushed := [];
    found := false;
    var j := 0;
    while !found && j < |values|
      invariant 0 <= j <= |values|
      invariant SizeOfAll(pushed) <= SizeOfAll(values[..j])
      invariant MentionedIn(target, pushed) <==> MentionedIn(target, values[..j])
      invariant found ==> HasId(current, target)
      invariant !found && HasId(current, target) ==> Str(target) !in values[..j]
    {
      var value := values[j];
      if value == Str(target) && HasId(current, target) {
        found := true;
      } else {
        assert values[..j + 1] == values[..j] + [value];
        SizeOfAllConcat(values[..j], [value]);
        MentionedInConcat(target, values[..j], [value]);
        if IsObject(value) {
          SizeOfAllConcat(pushed, [value]);
          MentionedInConcat(target, pushed, [value]);
          pushed := pushed + [value];
        } else {
          assert !MentionedIn(target, [value]);
        }
        j := j + 1;
      }
    }
    if !found {
      assert values[..j] == values;
    }
    assert values == values[..j] + values[j..];
    SizeOfAllConcat(values[..j], values[j..]);
  }

  /** An object whose `id` is `target` has `target` among its values. */
  lemma IdIsAValue(v: Value, target: string)
    ensures HasId(v, target) ==> Str(target) in Children(v)
  {
    if HasId(v, target) {
      var i :| 0 <= i < |v.fields| && v.fields[i].key == "id" && v.fields[i].val == Str(target);
      assert Children(v)[i] == Str(target);
    }
  }
}
