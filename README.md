# Protocol: a verified model of a single-dispatch protocol registry

`Protocol(name, ui)` (jkroso/Protocol, `src/index.js`) builds an open,
extensible interface: a named protocol with default methods `ui` that can be
implemented after the fact for any constructor. The protocol keeps two
parallel arrays, `types` and `imps`, pairing each registered type with an
implementation (a constructor whose prototype carries the method set).
Calling the protocol on a value looks up the implementation of the value's
constructor, or of its nearest registered ancestor, and wraps the value with
it.

The model:

- `merging.dfy` (module `Merging`): method sets as `map<MethodName, Method>`
  with `Method` an opaque token; `merge` (hard merge, later wins) and
  `softMerge` (only fills missing names), each as a specification function
  and as the `for…in` loop of the source, proved equal.
- `hierarchy.dfy` (module `Hierarchy`): type identities and the ancestry
  chain (`TypeGraph`). The source's step `getProto(type.prototype).constructor` is an
  explicit partial `parent` map; a `rank` that drops at every step makes the
  chain finite.
- `registry.dfy` (module `Registry`): the protocol's state (`ui`, `types`,
  `imps`) as a value, each operation (`implement`, both forms of `extend`,
  `get`, the call) as a function from old state to new, the error outcomes
  `DuplicateImplementation` and `NotImplemented` as a `Result`, and lemmas
  about what the operations promise: nearest-ancestor lookup, uniqueness of
  registrations, the priority of explicit methods over defaults, soft
  propagation of interface extensions and the hard, exact-type override.
- `protocol.dfy` (module `Protocols`): class `Protocol` with fields `name`,
  `ui`, `types`, `imps`, whose methods update those fields in place as the
  source does (the nested lookup loop of `get`, the loop of `extend` over
  `imps`) and are proved to perform exactly the transitions of `Registry`;
  a failed call leaves the state unchanged.
- `scenarios.dfy` (module `Scenarios`): client code replaying against the
  class the cases of `test/index.test.js` from "protocol.implement" through
  "for inherited types" (default wrappers, duplicate registration, custom
  constructor, both forms of `extend`, custom types, inherited types); the
  function-name cases are outside the model.

A targeted `extend` of an unregistered type throws `<type> not implemented`
(src/index.js:131): the message names the type, not the protocol, while the
duplicate-registration message (src/index.js:86) names both.

The interface-level `extend` carries a TODO in the source
(`src/index.js:137`): it replaces the protocol's defaults but, through the
soft merge, leaves every implementation that already copied an older default
with the old one. The model keeps this behaviour and states it as
`Registry.ExtendLeavesCopiedDefault`.

The type hierarchy is a parameter of lookup and dispatch, and so is the
`constructor` of a dispatched value. Lookup requires the parent step to be
acyclic (`TypeGraph.Valid`). A JavaScript prototype chain itself cannot be
cyclic, but the step `getProto(type.prototype).constructor`
(src/index.js:53-55) can return to an earlier type: after
`C.prototype = Object.create(C.prototype)` it leads from `C` back to `C`, and
`get(C)` on an unregistered `C` never ends. The model excludes such
hierarchies.

## Model

| member | source | states |
|---|---|---|
| Merging.HardMerge | src/index.js:159-161 | the result has the names of both sets; every method of the added set wins, other names keep their old method |
| Merging.SoftMerge | src/index.js:151-157 | the result has the names of both sets; every name already present keeps its method, only missing names take the added one |
| Merging.Merge | src/index.js:159-161 | the `for…in` copy loop computes exactly the hard merge, whatever order the names are visited in |
| Merging.SoftMergeInto | src/index.js:151-157 | the `for…in` loop with its presence test computes exactly the soft merge |
| Hierarchy.TypeGraph.Chain | src/index.js:53-55 | the ancestry chain starts at the type, each element's parent is the next one, and it ends at a type with no parent |
| Registry.Message | src/index.js:86 | the duplicate-registration message begins with the protocol's name and ends with the type's name; the not-implemented message (line 131) begins with the type's name |
| Registry.MessageMentionsImplemented | src/index.js:86 | both thrown messages, this one and the one at line 131, contain the word "implemented", which test/index.test.js:41 matches |
| Registry.DefaultImplementation | src/index.js:104-105 | a fully default implementation has a synthesised constructor and exactly the protocol's defaults |
| Registry.IndexOf | src/index.js:85 | the position is the first occurrence of the type, and -1 exactly when the type is not registered |
| Registry.Build | src/index.js:89-105 | the stored constructor is the custom one if given, else a synthesised one; with no argument the methods are exactly the defaults; for a method object, and likewise for a custom constructor's existing prototype, the names are those of the given set and the defaults, every given method wins and every default fills a name the given set leaves free |
| Registry.Implemented | src/index.js:84-112 | fails with DuplicateImplementation naming the protocol and type exactly when the type is registered; otherwise `ui` is unchanged and exactly one pair is appended, earlier entries untouched; the invariant (parallel arrays, no duplicate type) is preserved |
| Registry.SoftMergeAll | src/index.js:141-143 | the loop keeps every implementation's constructor; each keeps every method it has and gains exactly the added names it lacks |
| Registry.ExtendedInterface | src/index.js:136-145 | every added method overwrites the default of its name; each implementation keeps every method it has and gains only the added names it lacks; types unchanged; invariant preserved |
| Registry.ExtendedType | src/index.js:128-134 | fails with NotImplemented exactly when the type has no exact registration; otherwise only that type's implementation changes, with every added method overwriting, and `ui` and the other implementations are unchanged |
| Registry.Resolve | src/index.js:47-56 | `get` returns only registered implementations, and a registered type's own implementation whenever it has one (its full behaviour is stated by the two lemmas below) |
| Registry.Dispatch | src/index.js:28-33 | the call returns nothing exactly when no type of the value's ancestry chain is registered, and otherwise a wrapper holding the value and the implementation lookup finds for the value's type |
| Registry.ResolveFindsNearest | src/index.js:47-56 | lookup returns the implementation of the first registered type of the ancestry chain: the type's own when it is registered, else the nearest ancestor's |
| Registry.ResolveMisses | src/index.js:47-56 | lookup finds nothing exactly when no type of the ancestry chain is registered |
| Registry.ImplementThenResolve | src/index.js:107-111 | after a successful `implement`, looking the type up returns the implementation just built |
| Registry.ImplementTwiceFails | src/index.js:85-87 | a second `implement` of the same type fails with DuplicateImplementation and the first registration still answers lookup |
| Registry.ImplementKeepsOtherChains | src/index.js:47-56 | registering a type changes the lookup of no type whose ancestry chain avoids it |
| Registry.ImplementMethodSet | src/index.js:99-105 | for a method object, the looked-up method set is the given methods plus the defaults for names they do not define |
| Registry.ImplementCustomKeepsPrototype | src/index.js:89-105 | a custom constructor is stored as given, its prototype's methods are kept and missing names take the defaults |
| Registry.ResolveAfterExtend | src/index.js:141-143 | after an interface `extend`, lookup finds the same implementation with the added methods soft-merged in, and finds something exactly when it did before |
| Registry.GlobalExtendIsSoft | src/index.js:141-143 | through an interface `extend`, a name an implementation has keeps its method and a name it lacks takes the added one |
| Registry.ExplicitSurvivesExtend | src/index.js:99-101 | a method given explicitly to `implement` is still the one looked up after an interface `extend` of the same name |
| Registry.ExtendLeavesCopiedDefault | src/index.js:136-143 | an interface `extend` replaces the default of a name, while an implementation that copied the old default keeps it |
| Registry.ImplementAfterExtend | src/index.js:104-105 | a type implemented after an interface `extend` receives the new defaults for names it does not define |
| Registry.TargetedExtendOverrides | src/index.js:129-133 | a targeted `extend` makes the type's method set the hard merge of its old set with the added methods, keeping its constructor |
| Registry.TargetedExtendKeepsOtherChains | src/index.js:129-133 | a targeted `extend` changes the lookup of no type whose ancestry chain avoids the target |
| Registry.TargetedExtendIsExact | src/index.js:129-131 | a targeted `extend` of a type without its own registration fails with NotImplemented even when lookup finds an ancestor's implementation for it |
| Protocols.Protocol.constructor | src/index.js:24-35 | a new protocol has the given name and defaults and no registrations |
| Protocols.Protocol.Get | src/index.js:47-56 | the nested scan-then-climb loop returns exactly the nearest-ancestor lookup of the current state |
| Protocols.Protocol.Call | src/index.js:28-33 | calling the protocol returns exactly the dispatch of the current state and changes nothing |
| Protocols.Protocol.Implement | src/index.js:84-112 | performs the `implement` transition and returns the protocol itself, or returns the error and leaves the state unchanged; the invariant is kept |
| Protocols.Protocol.Extend | src/index.js:136-146 | the update of `ui` and the loop over `imps` perform the interface `extend` transition and return the protocol; the invariant is kept |
| Protocols.Protocol.ExtendType | src/index.js:128-134 | performs the targeted `extend` transition and returns the protocol, or returns NotImplemented and leaves the state unchanged |
| Scenarios.NewSequence | test/index.test.js:9-17 | builds the tests' `Sequence` protocol with defaults `first` and `rest` and no registrations |
| Scenarios.Builtins | test/index.test.js:75-77 | String, Array and Number are acyclic children of Object, which has no parent |
| Scenarios.Animals | test/index.test.js:137-138 | the tests' Human and Dog constructors form an acyclic hierarchy under Object |
| Scenarios.Accounts | test/index.test.js:156-163 | the tests' User, Guest and Admin constructors form an acyclic hierarchy where Guest and Admin inherit from User |
| Scenarios.DefaultWrappers | test/index.test.js:71-90 | String and Array get synthesised wrappers with exactly the defaults `first` and `rest`; calling the protocol on a string wraps it with String's implementation; a value of an unregistered type is not wrapped |
| Scenarios.DuplicateRegistration | test/index.test.js:37-42 | a second `implement(String)` fails with DuplicateImplementation naming Sequence and String, and String keeps its first implementation |
| Scenarios.CustomConstructor | test/index.test.js:51-59 | `get(String)` returns the custom constructor, whose own `first` is kept and whose `rest` is the default |
| Scenarios.ExtendBoth | test/index.test.js:93-133 | after the interface `extend` and the targeted `extend(String, …)`, String's `reverse` is the targeted one, Array's and the defaults' is the interface one |
| Scenarios.CustomTypes | test/index.test.js:136-153 | Human and Dog values are wrapped with their own `speak`, not the protocol's default |
| Scenarios.InheritedTypes | test/index.test.js:156-177 | a Guest value gets User's `access`; an Admin value gets Admin's own |

## Left out

- The generated function names (`eval` of a named function for the protocol and for each synthesised constructor, src/index.js:28-29 and 92-93): the protocol's name is a plain field and a synthesised constructor is identified by protocol name and type. The source splices `name` into the evaluated text of the protocol (src/index.js:28-32), and, only when `implement` is given no constructor (the `eval` at src/index.js:92-96 sits inside the test at line 89), the type's `name` into that of the synthesised constructor. It therefore throws a SyntaxError when the protocol's name, or (when no constructor is passed) the type's name, is not a valid identifier: `Protocol('my-proto', …)`, or `implement(f.bind(null))` with its type named `"bound f"`, which fails after the duplicate check and before any mutation, while `implement(f.bind(null), Wrap)` registers normally. A protocol named `get` fails differently: the function expression's own name shadows the closure's `get`, so every call of the protocol calls the protocol on `value.constructor` again until the stack overflows. The model's constructor, `Implement` and `Call` never fail in these ways.
- The wrapper's slot `this._ = val || []`: the wrapper holds the given value; the `|| []` default for falsy values and whatever a custom constructor's body does are not modelled.
- A wrapper records the implementation as it was when the wrapper was made; in the source the wrapper reaches its methods through the live prototype, so a later `extend` is visible to wrappers made earlier.
- JavaScript object machinery: own versus inherited prototype properties, the `constructor` property every fresh prototype owns, `for…in` over inherited keys, and `typeof` tests beyond the three argument forms of `implement` (absent, method object, constructor) and the two call forms of `extend`.
- Aliasing: a custom constructor's prototype shared by several registrations or protocols, and the `ui` object shared with the caller in both directions. The source keeps the caller's object itself as its defaults (src/index.js:35), so a later change by the caller is seen by later `implement` calls, and an interface `extend` writes into the caller's object (`merge(ui, add)`, src/index.js:138), so protocols built from one object share their defaults. The model copies `ui` into the protocol as a value. `Scenarios.ExtendBoth` therefore replays the tests' `extend` cases only for a fresh `defaults` object; when test/index.test.js:9-16 reuses `defaults` across its `beforeEach` runs, a later run's defaults already hold an earlier `reverse`, which Array copies at `implement` and keeps through the soft merge.
- Calling the protocol on `null` or `undefined`, or looking up a chain that reaches a type without a `prototype` (an unregistered arrow or bound function, or `get(undefined)` from a value made by `Object.create(null)`), where `getProto(type.prototype)` at src/index.js:53 throws a TypeError: the type of a value is a parameter and such a type is a root of the hierarchy, so the model reads these faults as a miss.
- Lookup when the step `getProto(type.prototype).constructor` returns to an earlier type (an endless loop in the source): the parent step is required to be acyclic.
- Method bodies (`first`, `rest`, the `reverse` loops of the tests): methods are opaque tokens; only which token answers a name is checked.
- Protocols.Protocol.Call: does not state that the returned wrapper is a new object on each call, because wrappers are modelled as values.
