/** The membership helper `In` of slice/slice.go. Go's reflection over an
    `interface{}` becomes a datatype of the dynamic values it tells apart. */
module Slice {
  import opened GoBase

  /** A value held in an `interface{}`, by what `In` does with it. */
  datatype Value =
    | Str(s: GoString)          // dynamic type `string`
    | Items(items: seq<Value>)  // dynamic type `[]interface{}`
    | NamedStr(id: int)         // a named string type (`type Name string`): kind String, not `string`
    | Mistyped(id: int)         // any slice or array type other than `[]interface{}`
    | Other(id: int)            // a value of any other kind

  /** `sub` occurs in `s` starting at index `i`. */
  predicate OccursAt(s: GoString, sub: GoString, i: int)
  {
    0 <= i && i + |sub| <= |s| && s[i..i + |sub|] == sub
  }

  /** `strings.Contains`: whether `sub` occurs somewhere in `s`. */
  function Contains(s: GoString, sub: GoString): (r: bool)
    ensures r <==> exists i :: OccursAt(s, sub, i)
    decreases |s|
  {
    if |sub| > |s| then false
    else if s[..|sub|] == sub then
      assert OccursAt(s, sub, 0);
      true
    else
      var rest := Contains(s[1..], sub);
      if rest then
        var i :| OccursAt(s[1..], sub, i);
        assert s[1..][i..i + |sub|] == s[i + 1..i + 1 + |sub|];
        assert OccursAt(s, sub, i + 1);
        true
      else
        var tail := s[1..];
        forall i | OccursAt(s, sub, i)
          ensures OccursAt(tail, sub, i - 1)
        {
          assert i != 0;
          assert tail[i - 1..i - 1 + |sub|] == s[i..i + |sub|];
        }
        false
  }

  /** The empty string occurs in every string. */
  lemma ContainsEmpty(s: GoString)
    ensures Contains(s, [])
  {
    assert OccursAt(s, [], 0);
  }

  /** `In(source, target)`: for a `[]interface{}` target, whether some
      element equals `source`; for a string target, whether `source` is a
      string occurring in it; for any other kind, false. A slice or array
      of another type panics at `target.([]interface{})`. A target of a
      named string type gives false for a non-string source, and panics at
      `target.(string)` for a string source. */
  method In(source: Value, target: Value) returns (found: bool)
    requires !target.Mistyped?
    requires target.NamedStr? ==> !source.Str?
    ensures target.Items? ==> (found <==> source in target.items)
    ensures target.Str? ==> (found <==> source.Str? && Contains(target.s, source.s))
    ensures target.Str? && source == Str([]) ==> found
    ensures target.NamedStr? ==> !found
    ensures target.Other? ==> !found
  {
    match target
    case Items(elems) =>
      var i := 0;
      while i < |elems|
        invariant 0 <= i <= |elems|
        invariant source !in elems[..i]
      {
        if elems[i] == source {
          return true;
        }
        assert elems[..i + 1] == elems[..i] + [elems[i]];
        i := i + 1;
      }
      assert elems[..i] == elems;
      found := false;
    case Str(t) =>
      if !source.Str? {
        return false;
      }
      ContainsEmpty(t);
      return Contains(t, source.s);
    case NamedStr(_) =>
      return false;
    case Other(_) =>
      return false;
  }
}
