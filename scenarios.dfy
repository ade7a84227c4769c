/**
 * Client code that replays the cases of test/index.test.js from "protocol.implement"
 * to "for inherited types" against the Protocol class. Each result is derived
 * by the verifier from the method contracts alone; method bodies are opaque
 * tokens, so the scenarios check which token answers a name, not what it
 * computes.
 */
module Scenarios {
  import opened Wrappers
  import opened Merging
  import opened Hierarchy
  import opened Registry
  import opened Protocols

  const ObjectType := TypeId(0, "Object")
  const StringType := TypeId(1, "String")
  const ArrayType := TypeId(2, "Array")
  const WrapType := TypeId(3, "Wrap")
  const HumanType := TypeId(4, "Human")
  const DogType := TypeId(5, "Dog")
  const UserType := TypeId(6, "User")
  const GuestType := TypeId(7, "Guest")
  const AdminType := TypeId(8, "Admin")
  const NumberType := TypeId(9, "Number")

  /** The built-in constructors the tests use: their prototypes inherit from Object's. */
  function Builtins(): (h: TypeGraph)
    ensures h.Valid()
    ensures h.Parent(StringType) == Some(ObjectType) && h.Parent(ArrayType) == Some(ObjectType)
    ensures h.Parent(NumberType) == Some(ObjectType)
    ensures h.Parent(ObjectType) == None
  {
    TypeGraph(map[StringType := ObjectType, ArrayType := ObjectType, NumberType := ObjectType],
              map[ObjectType := 0, StringType := 1, ArrayType := 1, NumberType := 1])
  }

  /** Human and Dog are plain constructors, whose prototypes inherit from Object's. */
  function Animals(): (h: TypeGraph)
    ensures h.Valid()
    ensures h.Parent(HumanType) == Some(ObjectType) && h.Parent(DogType) == Some(ObjectType)
  {
    TypeGraph(map[HumanType := ObjectType, DogType := ObjectType],
              map[ObjectType := 0, HumanType := 1, DogType := 1])
  }

  /** Guest's and Admin's prototypes are created from User's. */
  function Accounts(): (h: TypeGraph)
    ensures h.Valid()
    ensures h.Parent(GuestType) == Some(UserType) && h.Parent(AdminType) == Some(UserType)
  {
    TypeGraph(map[GuestType := UserType, AdminType := UserType, UserType := ObjectType],
              map[ObjectType := 0, UserType := 1, GuestType := 2, AdminType := 2])
  }

  const First := Method(10)
  const Rest := Method(11)
  const WrapFirst := Method(12)
  const ArrayReverse := Method(13)
  const StringReverse := Method(14)

  /** The `speak` methods of the Talker protocol: its default and Human's and Dog's own. */
  const Blurg := Method(30)
  const Hello := Method(31)
  const Woof := Method(32)

  /** The `access` methods of the Actor protocol: its default and User's and Admin's own. */
  const DefaultAccess := Method(20)
  const UserAccess := Method(21)
  const AdminAccess := Method(22)

  /** The `Sequence` protocol of the tests, with its `first` and `rest` defaults. */
  method NewSequence() returns (p: Protocol)
    ensures fresh(p) && p.Valid() && p.name == "Sequence"
    ensures p.Snapshot() == State(map["first" := First, "rest" := Rest], [], [])
  {
    p := new Protocol("Sequence", map["first" := First, "rest" := Rest]);
  }

  /**
   * `implement` returns the protocol; default wrappers for String and Array
   * carry the default methods; a String value is wrapped by String's
   * implementation and a value of an unregistered type is not wrapped.
   */
  method DefaultWrappers() returns (str: Option<Implementation>, arr: Option<Implementation>,
                                   w: Option<Wrapped<string>>, miss: Option<Wrapped<int>>)
    ensures str == Some(Implementation(Synthesized("Sequence", StringType), map["first" := First, "rest" := Rest]))
    ensures arr == Some(Implementation(Synthesized("Sequence", ArrayType), map["first" := First, "rest" := Rest]))
    ensures w == Some(Wrapped("abcd", str.value))
    ensures miss == None
  {
    var p := NewSequence();
    var defaults := p.ui;
    DefaultImplementation("Sequence", StringType, defaults);
    DefaultImplementation("Sequence", ArrayType, defaults);
    var r := p.Implement(StringType, Absent);
    assert r == Success(p);
    r := p.Implement(ArrayType, Absent);
    assert r == Success(p);
    assert p.imps == [Implementation(Synthesized("Sequence", StringType), defaults),
                      Implementation(Synthesized("Sequence", ArrayType), defaults)];
    str := p.Get(StringType, Builtins());
    arr := p.Get(ArrayType, Builtins());
    w := p.Call("abcd", StringType, Builtins());
    assert IndexOf(p.types, ObjectType) < 0;
    miss := p.Call(5, NumberType, Builtins());
  }

  /** A second registration of String throws, and the first one still answers `get`. */
  method DuplicateRegistration() returns (r: Result<Protocol, Error>, str: Option<Implementation>)
    ensures r == Failure(DuplicateImplementation("Sequence", "String"))
    ensures str == Some(Implementation(Synthesized("Sequence", StringType), map["first" := First, "rest" := Rest]))
  {
    var p := NewSequence();
    DefaultImplementation("Sequence", StringType, p.ui);
    r := p.Implement(StringType, Absent);
    assert p.imps == [Implementation(Synthesized("Sequence", StringType), map["first" := First, "rest" := Rest])];
    r := p.Implement(StringType, Absent);
    str := p.Get(StringType, Builtins());
  }

  /** A custom constructor is returned by `get`, keeps its own `first` and receives the default `rest`. */
  method CustomConstructor() returns (str: Option<Implementation>)
    ensures str == Some(Implementation(Custom(WrapType), map["first" := WrapFirst, "rest" := Rest]))
  {
    var p := NewSequence();
    assert SoftMerge(map["first" := WrapFirst], p.ui) == map["first" := WrapFirst, "rest" := Rest];
    var r := p.Implement(StringType, Constructor(WrapType, map["first" := WrapFirst]));
    assert p.imps == [Implementation(Custom(WrapType), map["first" := WrapFirst, "rest" := Rest])];
    str := p.Get(StringType, Builtins());
  }

  /** `extend` of the interface reaches Array; `extend(String, …)` overrides for String only. */
  method ExtendBoth() returns (str: Option<Implementation>, arr: Option<Implementation>, ui: MethodSet)
    ensures str.Some? && "reverse" in str.value.methods && str.value.methods["reverse"] == StringReverse
    ensures arr.Some? && "reverse" in arr.value.methods && arr.value.methods["reverse"] == ArrayReverse
    ensures "reverse" in ui && ui["reverse"] == ArrayReverse
  {
    var p := NewSequence();
    DefaultImplementation("Sequence", StringType, p.ui);
    DefaultImplementation("Sequence", ArrayType, p.ui);
    var r := p.Implement(StringType, Absent);
    r := p.Implement(ArrayType, Absent);
    ghost var registered := p.Snapshot();
    assert registered.types == [StringType, ArrayType];
    assert "reverse" !in registered.imps[0].methods && "reverse" !in registered.imps[1].methods;
    var q := p.Extend(map["reverse" := ArrayReverse]);
    ghost var extended := p.Snapshot();
    assert extended.imps[0].methods["reverse"] == ArrayReverse;
    assert extended.imps[1].methods["reverse"] == ArrayReverse;
    r := p.ExtendType(StringType, map["reverse" := StringReverse]);
    assert p.imps[0].methods["reverse"] == StringReverse && p.imps[1] == extended.imps[1];
    str := p.Get(StringType, Builtins());
    arr := p.Get(ArrayType, Builtins());
    ui := p.ui;
  }

  /** Human and Dog values are wrapped with their own `speak`, not the protocol's default. */
  method CustomTypes() returns (human: Option<Wrapped<int>>, dog: Option<Wrapped<int>>)
    ensures human.Some? && "speak" in human.value.implementation.methods
    ensures human.value.implementation.methods["speak"] == Hello
    ensures dog.Some? && "speak" in dog.value.implementation.methods
    ensures dog.value.implementation.methods["speak"] == Woof
  {
    var talker := new Protocol("Talker", map["speak" := Blurg]);
    var r := talker.Implement(HumanType, MethodObject(map["speak" := Hello]));
    r := talker.Implement(DogType, MethodObject(map["speak" := Woof]));
    assert talker.types == [HumanType, DogType] && IndexOf(talker.types, DogType) == 1;
    assert talker.imps[0].methods["speak"] == Hello && talker.imps[1].methods["speak"] == Woof;
    human := talker.Call(0, HumanType, Animals());
    dog := talker.Call(1, DogType, Animals());
  }

  /** Guest inherits User's implementation; Admin shadows it with its own. */
  method InheritedTypes() returns (guest: Option<Wrapped<int>>, admin: Option<Wrapped<int>>)
    ensures guest.Some? && "access" in guest.value.implementation.methods
    ensures guest.value.implementation.methods["access"] == UserAccess
    ensures admin.Some? && "access" in admin.value.implementation.methods
    ensures admin.value.implementation.methods["access"] == AdminAccess
  {
    var actor := new Protocol("Actor", map["access" := DefaultAccess]);
    var r := actor.Implement(UserType, MethodObject(map["access" := UserAccess]));
    r := actor.Implement(AdminType, MethodObject(map["access" := AdminAccess]));
    assert actor.imps[0].methods["access"] == UserAccess && actor.imps[1].methods["access"] == AdminAccess;
    var s := actor.Snapshot();
    assert s.types == [UserType, AdminType];
    assert IndexOf(s.types, GuestType) < 0;
    assert Resolve(s, Accounts(), GuestType) == Resolve(s, Accounts(), UserType) == Some(s.imps[0]);
    guest := actor.Call(0, GuestType, Accounts());
    admin := actor.Call(1, AdminType, Accounts());
  }
}
