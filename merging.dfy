/**
 * The two helpers at the bottom of src/index.js that copy the methods of one
 * method set into another: `merge` overwrites every name it copies (a hard
 * merge), `softMerge` only fills names the target does not have yet.
 *
 * A method set maps method names to opaque method tokens; which behaviour a
 * token stands for is not modelled, only which token ends up under a name.
 */
module Merging {

  type MethodName = string

  /** An opaque behaviour: two tokens are the same method exactly when equal. */
  datatype Method = Method(id: nat)

  type MethodSet = map<MethodName, Method>

  /** `merge(a, b)`: every method of `b` replaces the one `a` has of that name. */
  function HardMerge(a: MethodSet, b: MethodSet): (r: MethodSet)
    ensures r.Keys == a.Keys + b.Keys
    ensures forall k :: k in b ==> r[k] == b[k]
    ensures forall k :: k in a && k !in b ==> r[k] == a[k]
  {
    a + b
  }

  /** `softMerge(a, b)`: a method of `b` is copied only under a name `a` lacks. */
  function SoftMerge(a: MethodSet, b: MethodSet): (r: MethodSet)
    ensures r.Keys == a.Keys + b.Keys
    ensures forall k :: k in a ==> r[k] == a[k]
    ensures forall k :: k in b && k !in a ==> r[k] == b[k]
  {
    b + a
  }

  /** The `for…in` loop of `merge`, visiting the names of `b` in any order. */
  method Merge(a: MethodSet, b: MethodSet) returns (r: MethodSet)
    ensures r == HardMerge(a, b)
  {
    r := a;
    var todo := b.Keys;
    while todo != {}
      invariant todo <= b.Keys
      invariant r.Keys == a.Keys + (b.Keys - todo)
      invariant forall k :: k in b && k !in todo ==> r[k] == b[k]
      invariant forall k :: k in a && k !in b.Keys - todo ==> r[k] == a[k]
      decreases todo
    {
      var k :| k in todo;
      r := r[k := b[k]];
      todo := todo - {k};
    }
    assert r.Keys == HardMerge(a, b).Keys;
  }

  /** The `for…in` loop of `softMerge`, with its `hasOwnProperty` test. */
  method SoftMergeInto(a: MethodSet, b: MethodSet) returns (r: MethodSet)
    ensures r == SoftMerge(a, b)
  {
    r := a;
    var todo := b.Keys;
    while todo != {}
      invariant todo <= b.Keys
      invariant r.Keys == a.Keys + (b.Keys - todo)
      invariant forall k :: k in a ==> r[k] == a[k]
      invariant forall k :: k in b && k !in todo && k !in a ==> r[k] == b[k]
      decreases todo
    {
      var k :| k in todo;
      if k !in r {
        r := r[k := b[k]];
      }
      todo := todo - {k};
    }
    assert r.Keys == SoftMerge(a, b).Keys;
  }
}
