/**
 * Type identities and the single-inheritance chain that `get` walks.
 *
 * In the source a type is a constructor function and its ancestor is found
 * with `Object.getPrototypeOf(type.prototype).constructor`; lookup stops when
 * there is no further prototype or it has no constructor. Here that step is an
 * explicit partial map `parent`, and `rank` is a measure that strictly drops
 * from a type to its parent, so every chain is finite. A type without a
 * `prototype` property, on which the source's step throws, is a root here.
 */
module Hierarchy {
  import opened Wrappers

  /** A constructor's identity; `name` is its `Function.name`, used in error messages. */
  datatype TypeId = TypeId(id: nat, name: string)

  /** The parent step of every type, with a rank that makes it well founded. */
  datatype TypeGraph = TypeGraph(parent: map<TypeId, TypeId>, rank: map<TypeId, nat>) {

    /** Every step to a parent lowers the rank: there are no cycles. */
    predicate Valid() {
      forall t :: t in parent ==> t in rank && parent[t] in rank && rank[parent[t]] < rank[t]
    }

    /** The immediate ancestor of `t`, or none at the root of its chain. */
    function Parent(t: TypeId): Option<TypeId> {
      if t in parent then Some(parent[t]) else None
    }

    function Measure(t: TypeId): nat {
      if t in rank then rank[t] else 0
    }

    /** `t` followed by its ancestors, nearest first. */
    function Chain(t: TypeId): (c: seq<TypeId>)
      requires Valid()
      ensures |c| >= 1 && c[0] == t
      ensures forall i :: 0 <= i < |c| - 1 ==> Parent(c[i]) == Some(c[i + 1])
      ensures Parent(c[|c| - 1]) == None
      decreases Measure(t)
    {
      match Parent(t)
      case None => [t]
      case Some(p) => [t] + Chain(p)
    }
  }
}
