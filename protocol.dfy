/**
 * The handle `Protocol(name, ui)` returns in src/index.js: an object that
 * owns the default methods and the parallel `types`/`imps` arrays and whose
 * operations update them in place. Each method is proved to perform the
 * corresponding transition of module Registry, where the properties of the
 * transitions are proved.
 */
module Protocols {
  import opened Wrappers
  import opened Merging
  import opened Hierarchy
  import opened Registry

  class Protocol {
    const name: string
    /** The default methods, exposed by the source as `protocol.interface`. */
    var ui: MethodSet
    var types: seq<TypeId>
    var imps: seq<Implementation>

    /** The registry as a value. */
    function Snapshot(): State
      reads this
    {
      State(ui, types, imps)
    }

    ghost predicate Valid()
      reads this
    {
      Snapshot().Valid()
    }

    /** `Protocol(name, ui)`, with an absent `ui` passed as the empty map. */
    constructor (name: string, ui: MethodSet)
      ensures this.name == name && Snapshot() == State(ui, [], []) && Valid()
    {
      this.name := name;
      this.ui := ui;
      types := [];
      imps := [];
    }

    /** `get(type)`: scan the registrations, then move one step up the ancestry chain. */
    method Get(t: TypeId, h: TypeGraph) returns (r: Option<Implementation>)
      requires Valid() && h.Valid()
      ensures r == Resolve(Snapshot(), h, t)
    {
      var len := |types|;
      var cur := t;
      while true
        invariant Resolve(Snapshot(), h, cur) == Resolve(Snapshot(), h, t)
        decreases h.Measure(cur)
      {
        var i := 0;
        while i < len
          invariant 0 <= i <= len
          invariant forall j :: 0 <= j < i ==> types[j] != cur
        {
          if types[i] == cur {
            return Some(imps[i]);
          }
          i := i + 1;
        }
        match h.Parent(cur) {
          case None => return None;
          case Some(p) => cur := p;
        }
      }
    }

    /** Calling the protocol on `value`, whose `constructor` is `valueType`. */
    method Call<V>(value: V, valueType: TypeId, h: TypeGraph) returns (w: Option<Wrapped<V>>)
      requires Valid() && h.Valid()
      ensures w == Dispatch(Snapshot(), h, value, valueType)
    {
      var found := Get(valueType, h);
      if found.Some? {
        w := Some(Wrapped(value, found.value));
      } else {
        w := None;
      }
    }

    /** `implement(type, factory)`; returns the protocol itself so calls chain. */
    method Implement(t: TypeId, arg: ImplArg) returns (r: Result<Protocol, Error>)
      requires Valid()
      modifies this
      ensures Valid()
      ensures match Implemented(old(Snapshot()), name, t, arg)
        case Success(s) => r == Success(this) && Snapshot() == s
        case Failure(e) => r == Failure(e) && Snapshot() == old(Snapshot())
    {
      if IndexOf(types, t) >= 0 {
        return Failure(DuplicateImplementation(name, t.name));
      }
      var factory: Factory;
      var proto: MethodSet;
      match arg {
        case Constructor(ctor, prototype) =>
          factory, proto := Custom(ctor), prototype;
        case MethodObject(given) =>
          factory := Synthesized(name, t);
          proto := Merge(map[], given);
        case Absent =>
          factory, proto := Synthesized(name, t), map[];
      }
      proto := SoftMergeInto(proto, ui);
      types := types + [t];
      imps := imps + [Implementation(factory, proto)];
      return Success(this);
    }

    /** `extend(add)`: overwrite the defaults, then soft-merge into every implementation. */
    method Extend(add: MethodSet) returns (self: Protocol)
      requires Valid()
      modifies this
      ensures Valid()
      ensures self == this && Snapshot() == ExtendedInterface(old(Snapshot()), add)
    {
      ui := Merge(ui, add);
      var i := 0;
      while i < |imps|
        invariant 0 <= i <= |imps| == |old(imps)|
        invariant types == old(types) && ui == HardMerge(old(ui), add)
        invariant forall j :: 0 <= j < i ==>
          imps[j] == old(imps)[j].(methods := SoftMerge(old(imps)[j].methods, add))
        invariant forall j :: i <= j < |imps| ==> imps[j] == old(imps)[j]
      {
        var merged := SoftMergeInto(imps[i].methods, add);
        imps := imps[i := imps[i].(methods := merged)];
        i := i + 1;
      }
      assert imps == SoftMergeAll(old(imps), add);
      self := this;
    }

    /** `extend(type, add)`: overwrite methods of the implementation registered for `type`. */
    method ExtendType(t: TypeId, add: MethodSet) returns (r: Result<Protocol, Error>)
      requires Valid()
      modifies this
      ensures Valid()
      ensures match ExtendedType(old(Snapshot()), t, add)
        case Success(s) => r == Success(this) && Snapshot() == s
        case Failure(e) => r == Failure(e) && Snapshot() == old(Snapshot())
    {
      var i := IndexOf(types, t);
      if i < 0 {
        return Failure(NotImplemented(t.name));
      }
      var merged := Merge(imps[i].methods, add);
      imps := imps[i := imps[i].(methods := merged)];
      return Success(this);
    }
  }
}
