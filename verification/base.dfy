/** Go built-ins that the rest of the model stands on: strings as bytes,
    a few byte constants, optional values and results, and the iteration
    order of `for k := range m` over a map. */
module GoBase {

  /** One byte of a Go string. */
  type Byte = b: int | 0 <= b < 256

  /** A Go `string` is an immutable sequence of bytes. */
  type GoString = seq<Byte>

  const Space: Byte := 0x20
  const Percent: Byte := 0x25
  const Amp: Byte := 0x26
  const Plus: Byte := 0x2B
  const Equals: Byte := 0x3D
  const Question: Byte := 0x3F
  const Underscore: Byte := 0x5F

  datatype Option<+T> = None | Some(value: T)

  datatype Result<+T, +E> = Ok(value: T) | Err(error: E)

  /** `order` is one order in which Go's `for k, v := range m` may visit
      `m`: every key exactly once, in an order the language leaves open. */
  ghost predicate Enumerates(order: seq<GoString>, m: map<GoString, GoString>)
  {
    (forall i, j :: 0 <= i < j < |order| ==> order[i] != order[j]) &&
    (forall i :: 0 <= i < |order| ==> order[i] in m) &&
    (forall k :: k in m ==> k in order)
  }

  /** A range loop over a map runs once per entry. */
  lemma {:induction false} EnumerationLength(order: seq<GoString>, m: map<GoString, GoString>)
    requires Enumerates(order, m)
    ensures |order| == |m|
  {
    if order == [] {
      assert m.Keys == {};
      assert m == map[];
    } else {
      var k := order[0];
      var rest := m - {k};
      forall j | 0 <= j < |order[1..]|
        ensures order[1..][j] in rest
      {
        assert order[1..][j] == order[j + 1] != order[0];
      }
      forall k' | k' in rest
        ensures k' in order[1..]
      {
        assert k' in order && k' != order[0];
        var j :| 0 <= j < |order| && order[j] == k';
        assert j > 0;
        assert order[1..][j - 1] == k';
      }
      assert Enumerates(order[1..], rest);
      EnumerationLength(order[1..], rest);
      assert m.Keys == rest.Keys + {k};
    }
  }
}
