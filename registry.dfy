/**
 * The state a protocol closes over in src/index.js (the default methods `ui`
 * and the parallel arrays `types` and `imps`) as a value, and each operation
 * of the protocol as a function from the old state to the new one. The class
 * in protocol.dfy performs these operations step by step and is proved to
 * agree with the functions here; the lemmas here state what the operations
 * promise.
 */
module Registry {
  import opened Wrappers
  import opened Merging
  import opened Hierarchy

  /**
   * The constructor stored for a type: one the protocol synthesised
   * (`<protocol>_$_<type>`, which stores the wrapped value), or a custom
   * constructor the caller passed to `implement`.
   */
  datatype Factory = Synthesized(protocol: string, forType: TypeId) | Custom(ctor: TypeId)

  /** A registered implementation: its constructor and the methods on its prototype. */
  datatype Implementation = Implementation(factory: Factory, methods: MethodSet)

  /** The second argument of `implement`. */
  datatype ImplArg =
    | Absent                                              // no argument, or neither function nor object
    | MethodObject(given: MethodSet)                      // a plain object of methods
    | Constructor(ctor: TypeId, prototype: MethodSet)     // a function, with the methods already on its prototype

  datatype Error =
    | DuplicateImplementation(protocol: string, typeName: string)
    | NotImplemented(typeName: string)

  /** The object a successful call of the protocol returns: the value, wrapped. */
  datatype Wrapped<V> = Wrapped(slot: V, implementation: Implementation)

  /** The text of the thrown `Error`. */
  function Message(e: Error): (m: string)
    ensures e.DuplicateImplementation? ==>
      |m| >= |e.protocol| + |e.typeName| && m[..|e.protocol|] == e.protocol && m[|m| - |e.typeName|..] == e.typeName
    ensures e.NotImplemented? ==> |m| >= |e.typeName| && m[..|e.typeName|] == e.typeName
  {
    match e
    case DuplicateImplementation(p, t) => p + " already implemented for " + t
    case NotImplemented(t) => t + " not implemented"
  }

  /** Both messages contain the word the source's tests look for. */
  lemma MessageMentionsImplemented(e: Error) returns (before: string, after: string)
    ensures Message(e) == before + "implemented" + after
  {
    match e
    case DuplicateImplementation(p, t) =>
      before, after := p + " already ", " for " + t;
      assert Message(e) == before + "implemented" + after;
    case NotImplemented(t) =>
      before, after := t + " not ", "";
      assert Message(e) == before + "implemented" + after;
  }

  datatype State = State(ui: MethodSet, types: seq<TypeId>, imps: seq<Implementation>) {
    /** `types[i]` is implemented by `imps[i]`, and no type is registered twice. */
    predicate Valid() {
      && |types| == |imps|
      && forall i, j :: 0 <= i < j < |types| ==> types[i] != types[j]
    }
  }

  /** `Array.prototype.indexOf`: the first position of `t`, or -1. */
  function IndexOf(s: seq<TypeId>, t: TypeId): (i: int)
    ensures -1 <= i < |s|
    ensures i >= 0 ==> s[i] == t && forall j :: 0 <= j < i ==> s[j] != t
    ensures i < 0 <==> t !in s
  {
    if |s| == 0 then -1
    else if s[0] == t then 0
    else
      var k := IndexOf(s[1..], t);
      if k < 0 then -1 else k + 1
  }

  lemma IndexOfAppend(s: seq<TypeId>, t: TypeId, u: TypeId)
    ensures u != t ==> IndexOf(s + [t], u) == IndexOf(s, u)
    ensures t !in s ==> IndexOf(s + [t], t) == |s|
  {
    var s' := s + [t];
    if u != t {
      var i, i' := IndexOf(s, u), IndexOf(s', u);
      assert u in s' <==> u in s;
      if i >= 0 {
        assert s'[i] == u;
      }
    }
    if t !in s {
      assert s'[|s|] == t;
    }
  }

  /** The methods `implement` copies onto the prototype before defaults are added. */
  function Explicit(arg: ImplArg): MethodSet
  {
    match arg
    case Absent => map[]
    case MethodObject(given) => HardMerge(map[], given)
    case Constructor(_, prototype) => prototype
  }

  /**
   * The implementation `implement` builds for type `t` of protocol `name`:
   * explicit methods first, then every default whose name they leave free.
   */
  function Build(name: string, t: TypeId, arg: ImplArg, ui: MethodSet): (imp: Implementation)
    ensures imp.factory == if arg.Constructor? then Custom(arg.ctor) else Synthesized(name, t)
    ensures imp.methods.Keys == Explicit(arg).Keys + ui.Keys
    ensures forall k :: k in Explicit(arg) ==> imp.methods[k] == Explicit(arg)[k]
    ensures forall k :: k in ui && k !in Explicit(arg) ==> imp.methods[k] == ui[k]
    ensures arg.Absent? ==> imp.methods == ui
    ensures arg.MethodObject? ==>
      && imp.methods.Keys == arg.given.Keys + ui.Keys
      && (forall k :: k in arg.given ==> imp.methods[k] == arg.given[k])
      && (forall k :: k in ui && k !in arg.given ==> imp.methods[k] == ui[k])
    ensures arg.Constructor? ==>
      && imp.methods.Keys == arg.prototype.Keys + ui.Keys
      && (forall k :: k in arg.prototype ==> imp.methods[k] == arg.prototype[k])
      && (forall k :: k in ui && k !in arg.prototype ==> imp.methods[k] == ui[k])
  {
    var factory := if arg.Constructor? then Custom(arg.ctor) else Synthesized(name, t);
    Implementation(factory, SoftMerge(Explicit(arg), ui))
  }

  /** A fully default implementation carries exactly the protocol's defaults. */
  lemma DefaultImplementation(name: string, t: TypeId, ui: MethodSet)
    ensures Build(name, t, Absent, ui) == Implementation(Synthesized(name, t), ui)
  {
    assert SoftMerge(map[], ui) == ui;
  }

  /** `implement(t, arg)` on protocol `name`. */
  function Implemented(s: State, name: string, t: TypeId, arg: ImplArg): (r: Result<State, Error>)
    ensures r.Failure? <==> t in s.types
    ensures r.Failure? ==> r.error == DuplicateImplementation(name, t.name)
    ensures r.Success? ==>
      && r.value.ui == s.ui
      && |r.value.types| == |s.types| + 1 && r.value.types[..|s.types|] == s.types
      && r.value.types[|s.types|] == t
      && |r.value.imps| == |s.imps| + 1 && r.value.imps[..|s.imps|] == s.imps
      && r.value.imps[|s.imps|] == Build(name, t, arg, s.ui)
    ensures r.Success? && s.Valid() ==> r.value.Valid()
  {
    if IndexOf(s.types, t) >= 0 then
      Failure(DuplicateImplementation(name, t.name))
    else
      var r := State(s.ui, s.types + [t], s.imps + [Build(name, t, arg, s.ui)]);
      assert r.types[..|s.types|] == s.types && r.imps[..|s.imps|] == s.imps;
      Success(r)
  }

  /** Every implementation, with `add` soft-merged into its methods. */
  function SoftMergeAll(imps: seq<Implementation>, add: MethodSet): (r: seq<Implementation>)
    ensures |r| == |imps|
    ensures forall i :: 0 <= i < |imps| ==>
      && r[i].factory == imps[i].factory
      && r[i].methods.Keys == imps[i].methods.Keys + add.Keys
      && (forall k :: k in imps[i].methods ==> r[i].methods[k] == imps[i].methods[k])
      && (forall k :: k in add && k !in imps[i].methods ==> r[i].methods[k] == add[k])
  {
    seq(|imps|, i requires 0 <= i < |imps| => imps[i].(methods := SoftMerge(imps[i].methods, add)))
  }

  /** `extend(add)` without a type. */
  function ExtendedInterface(s: State, add: MethodSet): (r: State)
    ensures r.types == s.types && |r.imps| == |s.imps|
    ensures r.ui.Keys == s.ui.Keys + add.Keys
    ensures forall k :: k in add ==> r.ui[k] == add[k]
    ensures forall k :: k in s.ui && k !in add ==> r.ui[k] == s.ui[k]
    ensures forall i :: 0 <= i < |s.imps| ==>
      && r.imps[i].factory == s.imps[i].factory
      && r.imps[i].methods.Keys == s.imps[i].methods.Keys + add.Keys
      && (forall k :: k in s.imps[i].methods ==> r.imps[i].methods[k] == s.imps[i].methods[k])
      && (forall k :: k in add && k !in s.imps[i].methods ==> r.imps[i].methods[k] == add[k])
    ensures s.Valid() ==> r.Valid()
  {
    State(HardMerge(s.ui, add), s.types, SoftMergeAll(s.imps, add))
  }

  /** `extend(t, add)`: override methods of exactly the implementation registered for `t`. */
  function ExtendedType(s: State, t: TypeId, add: MethodSet): (r: Result<State, Error>)
    requires s.Valid()
    ensures r.Failure? <==> t !in s.types
    ensures r.Failure? ==> r.error == NotImplemented(t.name)
    ensures r.Success? ==>
      var i := IndexOf(s.types, t);
      && r.value.ui == s.ui && r.value.types == s.types && |r.value.imps| == |s.imps|
      && (forall j :: 0 <= j < |s.imps| && j != i ==> r.value.imps[j] == s.imps[j])
      && r.value.imps[i].factory == s.imps[i].factory
      && r.value.imps[i].methods.Keys == s.imps[i].methods.Keys + add.Keys
      && (forall k :: k in add ==> r.value.imps[i].methods[k] == add[k])
      && (forall k :: k in s.imps[i].methods && k !in add ==> r.value.imps[i].methods[k] == s.imps[i].methods[k])
    ensures r.Success? ==> r.value.Valid()
  {
    var i := IndexOf(s.types, t);
    if i < 0 then
      Failure(NotImplemented(t.name))
    else
      Success(s.(imps := s.imps[i := s.imps[i].(methods := HardMerge(s.imps[i].methods, add))]))
  }

  /** `get(t)`: the implementation of `t` or, failing that, of its nearest registered ancestor. */
  function Resolve(s: State, h: TypeGraph, t: TypeId): (r: Option<Implementation>)
    requires s.Valid() && h.Valid()
    ensures r.Some? ==> r.value in s.imps
    ensures t in s.types ==> r == Some(s.imps[IndexOf(s.types, t)])
    decreases h.Measure(t)
  {
    var i := IndexOf(s.types, t);
    if i >= 0 then Some(s.imps[i])
    else
      match h.Parent(t)
      case None => None
      case Some(p) => Resolve(s, h, p)
  }

  /**
   * Calling the protocol on `value`, whose constructor is `valueType`: a
   * wrapper of the value built by the resolved implementation, or nothing.
   */
  function Dispatch<V>(s: State, h: TypeGraph, value: V, valueType: TypeId): (w: Option<Wrapped<V>>)
    requires s.Valid() && h.Valid()
    ensures w.None? <==> forall x :: x in h.Chain(valueType) ==> x !in s.types
    ensures w.Some? ==> w.value.slot == value
    ensures w.Some? ==> Resolve(s, h, valueType).Some? && w.value.implementation == Resolve(s, h, valueType).value
  {
    ResolveMisses(s, h, valueType);
    match Resolve(s, h, valueType)
    case None => None
    case Some(imp) => Some(Wrapped(value, imp))
  }

  // ---------------------------------------------------------------------
  // Lookup

  /**
   * `get` picks the first type of the ancestry chain that is registered: the
   * type's own implementation when it has one, else the nearest ancestor's.
   */
  lemma {:induction false} ResolveFindsNearest(s: State, h: TypeGraph, t: TypeId, i: nat)
    requires s.Valid() && h.Valid()
    requires i < |h.Chain(t)| && h.Chain(t)[i] in s.types
    requires forall j :: 0 <= j < i ==> h.Chain(t)[j] !in s.types
    ensures Resolve(s, h, t) == Some(s.imps[IndexOf(s.types, h.Chain(t)[i])])
    decreases i
  {
    if i > 0 {
      assert h.Chain(t)[0] !in s.types;
      var p := h.Parent(t).value;
      assert h.Chain(t) == [t] + h.Chain(p);
      assert forall j :: 0 <= j < i - 1 ==> h.Chain(p)[j] == h.Chain(t)[j + 1];
      ResolveFindsNearest(s, h, p, i - 1);
    }
  }

  /** `get` finds nothing exactly when no type of the ancestry chain is registered. */
  lemma {:induction false} ResolveMisses(s: State, h: TypeGraph, t: TypeId)
    requires s.Valid() && h.Valid()
    ensures Resolve(s, h, t).None? <==> forall x :: x in h.Chain(t) ==> x !in s.types
    decreases h.Measure(t)
  {
    match h.Parent(t)
    case None =>
    case Some(p) =>
      assert h.Chain(t) == [t] + h.Chain(p);
      ResolveMisses(s, h, p);
  }

  // ---------------------------------------------------------------------
  // Registration

  /** A registered type resolves to the implementation just built for it. */
  lemma ImplementThenResolve(s: State, h: TypeGraph, name: string, t: TypeId, arg: ImplArg)
    requires s.Valid() && h.Valid() && Implemented(s, name, t, arg).Success?
    ensures Resolve(Implemented(s, name, t, arg).value, h, t) == Some(Build(name, t, arg, s.ui))
  {
    var s' := Implemented(s, name, t, arg).value;
    assert s'.types == s.types + [t];
    IndexOfAppend(s.types, t, t);
  }

  /** Registering a second time fails, and the first registration still answers `get`. */
  lemma ImplementTwiceFails(s: State, h: TypeGraph, name: string, t: TypeId, arg: ImplArg, arg': ImplArg)
    requires s.Valid() && h.Valid() && Implemented(s, name, t, arg).Success?
    ensures var s' := Implemented(s, name, t, arg).value;
      && Implemented(s', name, t, arg') == Failure(DuplicateImplementation(name, t.name))
      && Resolve(s', h, t) == Some(Build(name, t, arg, s.ui))
  {
    var s' := Implemented(s, name, t, arg).value;
    assert s'.types[|s.types|] == t;
    ImplementThenResolve(s, h, name, t, arg);
  }

  /**
   * Registering `t` changes the lookup of no type whose ancestry chain avoids
   * `t`: lookup does not depend on registrations of unrelated types.
   */
  lemma {:induction false} ImplementKeepsOtherChains(s: State, h: TypeGraph, name: string, t: TypeId, arg: ImplArg, u: TypeId)
    requires s.Valid() && h.Valid() && Implemented(s, name, t, arg).Success?
    requires t !in h.Chain(u)
    ensures Resolve(Implemented(s, name, t, arg).value, h, u) == Resolve(s, h, u)
    decreases h.Measure(u)
  {
    var s' := Implemented(s, name, t, arg).value;
    assert s'.types == s.types + [t];
    assert s'.imps == s.imps + [Build(name, t, arg, s.ui)];
    IndexOfAppend(s.types, t, u);
    match h.Parent(u)
    case None =>
    case Some(p) =>
      assert h.Chain(u) == [u] + h.Chain(p);
      ImplementKeepsOtherChains(s, h, name, t, arg, p);
  }

  /** Methods passed to `implement` win over defaults; defaults fill the remaining names. */
  lemma ImplementMethodSet(s: State, h: TypeGraph, name: string, t: TypeId, given: MethodSet)
    requires s.Valid() && h.Valid() && Implemented(s, name, t, MethodObject(given)).Success?
    ensures var imp := Resolve(Implemented(s, name, t, MethodObject(given)).value, h, t);
      && imp.Some? && imp.value.factory == Synthesized(name, t)
      && imp.value.methods.Keys == given.Keys + s.ui.Keys
      && (forall k :: k in given ==> imp.value.methods[k] == given[k])
      && (forall k :: k in s.ui && k !in given ==> imp.value.methods[k] == s.ui[k])
  {
    ImplementThenResolve(s, h, name, t, MethodObject(given));
  }

  /** A custom constructor is stored as given, and the methods already on its prototype are kept. */
  lemma ImplementCustomKeepsPrototype(s: State, h: TypeGraph, name: string, t: TypeId, ctor: TypeId, proto: MethodSet)
    requires s.Valid() && h.Valid() && Implemented(s, name, t, Constructor(ctor, proto)).Success?
    ensures var imp := Resolve(Implemented(s, name, t, Constructor(ctor, proto)).value, h, t);
      && imp.Some? && imp.value.factory == Custom(ctor)
      && (forall k :: k in proto ==> imp.value.methods[k] == proto[k])
      && (forall k :: k in s.ui && k !in proto ==> imp.value.methods[k] == s.ui[k])
  {
    ImplementThenResolve(s, h, name, t, Constructor(ctor, proto));
  }

  // ---------------------------------------------------------------------
  // Extension of the interface

  /** After `extend(add)`, lookup finds the same implementation, with `add` soft-merged in. */
  lemma {:induction false} ResolveAfterExtend(s: State, h: TypeGraph, add: MethodSet, t: TypeId)
    requires s.Valid() && h.Valid()
    ensures var r := ExtendedInterface(s, add);
      && (Resolve(r, h, t).Some? <==> Resolve(s, h, t).Some?)
      && (Resolve(s, h, t).Some? ==>
            Resolve(r, h, t).value == Resolve(s, h, t).value.(methods := SoftMerge(Resolve(s, h, t).value.methods, add)))
    decreases h.Measure(t)
  {
    var r := ExtendedInterface(s, add);
    assert r.imps == SoftMergeAll(s.imps, add);
    match h.Parent(t)
    case None =>
    case Some(p) => ResolveAfterExtend(s, h, add, p);
  }

  /**
   * A method an implementation already has, explicit or copied from the
   * defaults, keeps its value through `extend(add)`; a name it lacks is filled.
   */
  lemma GlobalExtendIsSoft(s: State, h: TypeGraph, add: MethodSet, t: TypeId, k: MethodName)
    requires s.Valid() && h.Valid() && Resolve(s, h, t).Some?
    ensures var before := Resolve(s, h, t).value.methods;
      var after := Resolve(ExtendedInterface(s, add), h, t);
      && after.Some?
      && (k in before ==> k in after.value.methods && after.value.methods[k] == before[k])
      && (k !in before && k in add ==> k in after.value.methods && after.value.methods[k] == add[k])
  {
    ResolveAfterExtend(s, h, add, t);
  }

  /** Explicit methods survive a later `extend` of the interface with the same names. */
  lemma ExplicitSurvivesExtend(s: State, h: TypeGraph, name: string, t: TypeId, given: MethodSet, add: MethodSet, k: MethodName)
    requires s.Valid() && h.Valid() && Implemented(s, name, t, MethodObject(given)).Success?
    requires k in given
    ensures var s' := ExtendedInterface(Implemented(s, name, t, MethodObject(given)).value, add);
      Resolve(s', h, t).Some? && Resolve(s', h, t).value.methods[k] == given[k]
  {
    var s1 := Implemented(s, name, t, MethodObject(given)).value;
    ImplementMethodSet(s, h, name, t, given);
    GlobalExtendIsSoft(s1, h, add, t, k);
  }

  /**
   * The interface's default for a name is replaced, but an implementation
   * that copied the old default when it was registered keeps the old one.
   */
  lemma ExtendLeavesCopiedDefault(s: State, h: TypeGraph, name: string, t: TypeId, add: MethodSet, k: MethodName)
    requires s.Valid() && h.Valid() && Implemented(s, name, t, Absent).Success?
    requires k in s.ui && k in add
    ensures var s' := ExtendedInterface(Implemented(s, name, t, Absent).value, add);
      && s'.ui[k] == add[k]
      && Resolve(s', h, t).Some? && Resolve(s', h, t).value.methods[k] == s.ui[k]
  {
    var s1 := Implemented(s, name, t, Absent).value;
    ImplementThenResolve(s, h, name, t, Absent);
    GlobalExtendIsSoft(s1, h, add, t, k);
  }

  /** A type registered after `extend(add)` receives the new defaults for names it does not define. */
  lemma ImplementAfterExtend(s: State, h: TypeGraph, name: string, t: TypeId, arg: ImplArg, add: MethodSet, k: MethodName)
    requires s.Valid() && h.Valid()
    requires Implemented(ExtendedInterface(s, add), name, t, arg).Success?
    requires k in add && k !in Explicit(arg)
    ensures var s' := Implemented(ExtendedInterface(s, add), name, t, arg).value;
      Resolve(s', h, t).Some? && Resolve(s', h, t).value.methods[k] == add[k]
  {
    ImplementThenResolve(ExtendedInterface(s, add), h, name, t, arg);
  }

  // ---------------------------------------------------------------------
  // Extension of one implementation

  /** `extend(t, add)` overrides the named methods of `t`'s own implementation unconditionally. */
  lemma TargetedExtendOverrides(s: State, h: TypeGraph, t: TypeId, add: MethodSet)
    requires s.Valid() && h.Valid() && ExtendedType(s, t, add).Success?
    ensures var before := Resolve(s, h, t);
      var after := Resolve(ExtendedType(s, t, add).value, h, t);
      && before.Some? && after.Some?
      && after.value.factory == before.value.factory
      && after.value.methods == HardMerge(before.value.methods, add)
  {
    var i := IndexOf(s.types, t);
    var r := ExtendedType(s, t, add).value;
    assert r.imps[i].methods == HardMerge(s.imps[i].methods, add);
  }

  /** `extend(t, add)` changes the lookup of no type whose ancestry chain avoids `t`. */
  lemma {:induction false} TargetedExtendKeepsOtherChains(s: State, h: TypeGraph, t: TypeId, add: MethodSet, u: TypeId)
    requires s.Valid() && h.Valid() && ExtendedType(s, t, add).Success?
    requires t !in h.Chain(u)
    ensures Resolve(ExtendedType(s, t, add).value, h, u) == Resolve(s, h, u)
    decreases h.Measure(u)
  {
    var r := ExtendedType(s, t, add).value;
    var i := IndexOf(s.types, u);
    if i >= 0 {
      assert s.types[i] == u && u != t;
      assert r.imps[i] == s.imps[i];
    } else {
      match h.Parent(u)
      case None =>
      case Some(p) =>
        assert h.Chain(u) == [u] + h.Chain(p);
        TargetedExtendKeepsOtherChains(s, h, t, add, p);
    }
  }

  /** A targeted `extend` needs an exact registration: an inherited implementation is not enough. */
  lemma TargetedExtendIsExact(s: State, h: TypeGraph, t: TypeId, add: MethodSet)
    requires s.Valid() && h.Valid() && t !in s.types
    requires Resolve(s, h, t).Some?
    ensures ExtendedType(s, t, add) == Failure(NotImplemented(t.name))
  {
  }
}
