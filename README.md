# Simple IOC Container: a verified model

This is a Dafny model of `SimpleContainer`, a small C# service locator that does constructor injection. The container keeps a dictionary that maps interface types to implementation types. The dictionary is filled in two ways:

- by pair registration: `Register<T, TU>()` and `Register(Type, Type)`;
- by a bulk scan of an assembly's classes: `RegisterAssembly`.

`Resolve(Type)` looks up the implementation of an interface and takes that implementation's single public constructor. It resolves each parameter type the same way, in order, and then invokes the constructor on the results. That call rejects an argument whose type does not fit its parameter type.

Reflection is replaced by an abstract `Reflection` record of total functions. Every lemma holds for all choices of them that meet its stated requirements. Three lemmas of `Registry` require something of reflection alone: `ClassInterfacesAreInterfaces`, `ScanSucceeds` and `ScanBindsEarliestDeclarer`. They need `GetInterfaces()` to list only interface types (`ListsOnlyInterfaces`), and the example reflection of the scenarios is proved to meet that. The record answers five queries:

- `IsInterface`;
- `IsClass`;
- `GetInterfaces()`, as an ordered list;
- `GetConstructors()`, one ordered parameter-type list per public constructor;
- `IsAssignableFrom`.

A constructed object is modelled as a tree `Instance(impl, args)`. The C# exceptions become `Error` values. Each records the type or types the model needs to tell the failures apart. `InvalidCast` keeps only the target type, although the exception message also names the source type.

Layout:

- `types.dfy` (module `Types`): type identifiers, the reflection record, errors, and the `Result` and `Outcome` types.
- `registry.dfy` (module `Registry`): the dictionary as a value. `Step` is one registration. `RegisterEach` and `Scan` are the inner and outer loops of the bulk scan. The lemmas say what a scan binds.
- `resolver.dfy` (module `Resolver`): `Resolve`, `ResolveArgs` and the cast of the typed forms. It also holds the reference predicate `Constructs`, meaning "this object graph is what the dictionary wires up for this type", together with the lemmas that connect the two.
- `container.dfy` (module `Container`): the class `SimpleContainer`. It holds the dictionary as a `map` field that its registration methods update in place, under the invariant that every key is an interface. `RegisterAssembly` keeps the source's nested loops and is proved equal to `Registry.Scan`.
- `scenarios.dfy` (module `Scenarios`): client scenarios over a fixed example type set.

The source does not detect dependency cycles, so resolution does not always terminate. The model bounds the nesting depth of constructor calls with a `fuel` argument. `OutOfFuel` means the bound was too small for this resolution. A finite chain deeper than the bound also gives `OutOfFuel`, and the C# program resolves such a chain. A constructor without parameters needs no fuel. `FuelMonotone` and `ResolveComplete` show that the bound is only a bound:

- any result other than `OutOfFuel` stays the same with more fuel;
- every object graph the dictionary wires up is found once the fuel reaches its depth.

`CycleExhaustsFuel` covers a cycle in which each type's implementation takes a type of the cycle at some parameter position, and every parameter before that position resolves at some depth. Such a cycle gives `OutOfFuel` at every depth, and that is the case where the C# program overflows its stack. A cycle behind a parameter that fails for another reason is different: it fails with that error, in the model and in the C# program alike.

Three behaviours of the code are worth stating on their own:

- **Two or more public constructors.** `SingleOrDefault` throws its own exception, which names no type. It is not the "Constructor … Not Found" error, which covers only the zero-constructor case. The model has a separate `AmbiguousCtor` error.
- **Concrete parameter types.** Every parameter type is looked up in the dictionary, whose keys are only interfaces. So an implementation with a concrete parameter type never resolves (`ConcreteParameterNeverResolves`). Once the parameters before it have resolved, the failure names that parameter type as not registered (`ConcreteParameterNotRegistered`).
- **Mismatched bindings.** `Register(Type, Type)` checks no compatibility between the two types. A binding whose implementation does not implement its key is caught in two places. The first is the constructor call that receives it as an argument, which fails with `ArgumentMismatch`. The second is the cast of a typed resolve, which fails with `InvalidCast`.

## Model

| member | source | states |
|---|---|---|
| Container.SimpleContainer.constructor | SimpleIOCContainer.Library/SimpleContainer.cs:13-30 | the container starts with an empty dictionary, which satisfies the invariant that every key is an interface |
| Container.SimpleContainer.Register | SimpleIOCContainer.Library/SimpleContainer.cs:75-83 | a non-interface key fails naming that key and leaves the dictionary unchanged; an already-bound key leaves it unchanged without failing (first registration wins); an absent interface key gains exactly that binding and nothing else changes; the invariant is kept; the new dictionary and outcome are those of `Registry.Step`, on which the bulk-scan lemmas rest |
| Container.SimpleContainer.RegisterTyped | SimpleIOCContainer.Library/SimpleContainer.cs:58-68 | the same four cases as `Register`, under the generic constraints `T : class` and `TU : T`; it also keeps every binding assignable to its key |
| Container.SimpleContainer.RegisterAssembly | SimpleIOCContainer.Library/SimpleContainer.cs:89-99 | the nested loops leave the dictionary and outcome exactly as `Scan` of the old dictionary over the type sequence; the invariant is kept |
| Container.SimpleContainer.Resolve | SimpleIOCContainer.Library/SimpleContainer.cs:121-140 | returns `Resolver.Resolve` on the current dictionary and has no `modifies` clause, so it never changes the dictionary; under the container's invariant, asking for a non-interface type fails as not registered, naming it |
| Container.SimpleContainer.ResolveAs | SimpleIOCContainer.Library/SimpleContainer.cs:114 | resolves the interface type, then casts the result to the target type |
| Container.SimpleContainer.ResolveTyped | SimpleIOCContainer.Library/SimpleContainer.cs:106 | resolves T, then casts the result to T |
| Registry.Step | SimpleIOCContainer.Library/SimpleContainer.cs:77-81 | a registration passes exactly when the key is an interface, and a failure names the key and changes nothing; existing bindings are kept; the only key that can be added is the registered one, bound to the implementation; after a passing registration the key is bound |
| Registry.RegisterEach | SimpleIOCContainer.Library/SimpleContainer.cs:94-97 | the inner loop keeps existing bindings; every key it adds is one of the class's listed interfaces, is an interface, and is bound to that class; a failure names a listed type that is not an interface |
| Registry.Scan | SimpleIOCContainer.Library/SimpleContainer.cs:92-97 | whatever reflection reports, a bulk scan keeps existing bindings; every key it adds is an interface, bound to a class of the sequence that declares that interface; a failure names a non-interface type |
| Registry.RegisterEachBindsAbsent | SimpleIOCContainer.Library/SimpleContainer.cs:94-97 | registering one class for a list of interface types never fails; exactly the listed types are added as keys; old bindings are kept; every newly added key is bound to that class |
| Registry.RegisterEachStopsAtFailure | SimpleIOCContainer.Library/SimpleContainer.cs:94-97 | once a registration in the inner loop throws, the remaining interfaces change nothing |
| Registry.ScanStopsAtFailure | SimpleIOCContainer.Library/SimpleContainer.cs:92-97 | once a registration in the scan throws, the remaining types change nothing (the exception ends the scan and keeps the earlier registrations) |
| Registry.ScanSucceeds | SimpleIOCContainer.Library/SimpleContainer.cs:92-97 | when reflection lists only interfaces, no registration made by a bulk scan throws |
| Registry.ScanBindsEarliestDeclarer | SimpleIOCContainer.Library/SimpleContainer.cs:92-97 | for a previously unbound interface: after the scan it is bound if and only if some class in the sequence declares it (non-classes are ignored), and it is bound to the earliest such class |
| Resolver.CheckArgs | SimpleIOCContainer.Library/SimpleContainer.cs:139 | the argument check of the constructor call passes if and only if every argument's type is assignable to its parameter type; a failure is an argument mismatch |
| Resolver.CheckArgsNamesFirstMismatch | SimpleIOCContainer.Library/SimpleContainer.cs:139 | the check names the first parameter whose argument does not fit, together with that argument's type |
| Resolver.Resolve | SimpleIOCContainer.Library/SimpleContainer.cs:121-140 | an unbound type fails naming that type; an implementation with no constructor fails naming the interface; one with two or more constructors fails as ambiguous; a success is an object graph the dictionary wires up for the type, with every argument fitting its parameter type, within the depth bound |
| Resolver.ResolveArgs | SimpleIOCContainer.Library/SimpleContainer.cs:133-138 | a success has one argument per parameter, and each argument is an object graph for its parameter's type one level deeper |
| Resolver.ResolveComplete | SimpleIOCContainer.Library/SimpleContainer.cs:121-140 | every object graph the dictionary wires up for a type, with every argument fitting its parameter, and that fits in the depth bound, is exactly what `Resolve` returns |
| Resolver.ResolveArgsComplete | SimpleIOCContainer.Library/SimpleContainer.cs:135-138 | argument lists made of wired-up graphs, in parameter order, are exactly what `ResolveArgs` returns |
| Resolver.ResolveSucceedsIff | SimpleIOCContainer.Library/SimpleContainer.cs:121-140 | resolution succeeds if and only if the dictionary wires up an object graph for the type, with every argument fitting its parameter, within the bound |
| Resolver.ConstructsUnique | SimpleIOCContainer.Library/SimpleContainer.cs:128-139 | there is at most one wired-up object graph per type: the single-constructor rule makes resolution deterministic |
| Resolver.ResolveBuildsFromParameters | SimpleIOCContainer.Library/SimpleContainer.cs:133-139 | a successful result is built from the bound implementation's only constructor, with arguments that are the resolutions of its parameter types, in declared order |
| Resolver.ParameterFailureAborts | SimpleIOCContainer.Library/SimpleContainer.cs:135-138 | the first parameter that fails decides the outcome: `Resolve` of the outer type returns that parameter's error unchanged, so a missing binding names the immediate parameter type, not the root |
| Resolver.ArgsFailureAborts | SimpleIOCContainer.Library/SimpleContainer.cs:135-138 | the argument list fails with the error of its first failing parameter, after all earlier parameters succeeded |
| Resolver.FuelMonotone | SimpleIOCContainer.Library/SimpleContainer.cs:137 | any resolution result other than running out of depth is unchanged by a larger depth bound |
| Resolver.ArgsFuelMonotone | SimpleIOCContainer.Library/SimpleContainer.cs:135-138 | the same, for argument lists |
| Resolver.ResolvableFailsOnlyOnDepth | SimpleIOCContainer.Library/SimpleContainer.cs:121-140 | a type that resolves at some depth gives, at any other depth, either a result or `OutOfFuel`, never another error |
| Resolver.ArgsExhaustFuel | SimpleIOCContainer.Library/SimpleContainer.cs:135-138 | an argument list runs out of depth when one parameter does and every earlier parameter resolves or runs out of depth too |
| Resolver.CycleExhaustsFuel | SimpleIOCContainer.Library/SimpleContainer.cs:137 | a set of types, each bound to a single-constructor implementation with a parameter type in the set at some position, where every earlier parameter resolves at some depth, never resolves at any depth: the recursion has no end |
| Resolver.ConcreteTypeNotRegistered | SimpleIOCContainer.Library/SimpleContainer.cs:124-127 | when only interfaces are keys, resolving a non-interface type fails as not registered, naming it |
| Resolver.ConcreteParameterNeverResolves | SimpleIOCContainer.Library/SimpleContainer.cs:124-137 | when only interfaces are keys, an implementation whose constructor takes a non-interface parameter never resolves |
| Resolver.ConcreteParameterNotRegistered | SimpleIOCContainer.Library/SimpleContainer.cs:124-137 | when only interfaces are keys and every parameter before a non-interface parameter resolves, resolution fails naming that parameter type as not registered |
| Resolver.SharedImplementationResolvesAlike | SimpleIOCContainer.Library/SimpleContainer.cs:124-139 | two interfaces bound to the same implementation either both resolve, to the same object graph, or neither does |
| Resolver.ResolveAs | SimpleIOCContainer.Library/SimpleContainer.cs:106-114 | the typed forms succeed if and only if resolution succeeds and the target type is assignable from the instance's type; otherwise the resolution error is passed on unchanged, or, when resolution succeeded, the cast fails naming the target |
| Resolver.AssignableBindingsFitParameters | SimpleIOCContainer.Library/SimpleContainer.cs:135-139 | when every binding is assignable to its key, as typed registration guarantees, no resolution fails with an argument mismatch |
| Resolver.AssignableBindingsFitArgs | SimpleIOCContainer.Library/SimpleContainer.cs:135-138 | the same, for argument lists |
| Resolver.AssignableBindingsCastSafely | SimpleIOCContainer.Library/SimpleContainer.cs:106 | when every binding is assignable to its key, as typed registration guarantees, `Resolve<T>()` never fails at the cast |
| Scenarios.FirstRegistrationWins | SimpleIOCContainer.Library/SimpleContainer.cs:79-82 | registering IB first to B and then to A succeeds both times, and resolving IB builds a B |
| Scenarios.RejectsClassKey | SimpleIOCContainer.Library/SimpleContainer.cs:77-78 | registering the class B as a key fails naming B, and B stays unregistered |
| Scenarios.TransitiveConstruction | SimpleIOCContainer.Library/SimpleContainer.cs:133-139 | with IA bound to A(IB) and IB bound to B(), resolving IA builds an A whose argument is a B |
| Scenarios.MissingLinkNamed | SimpleIOCContainer.Library/SimpleContainer.cs:124-127 | with IB unbound, resolving IA fails naming IB |
| Scenarios.MismatchedBindingRejectedAtInvoke | SimpleIOCContainer.Library/SimpleContainer.cs:135-139 | with IB bound by the untyped form to Dual, which does not implement IB, resolving IA, whose constructor takes an IB, fails with an argument mismatch naming IB and Dual |
| Scenarios.LaterParameterCycleNeverResolves | SimpleIOCContainer.Library/SimpleContainer.cs:135-138 | with IB bound to B() and IL bound to L(IB, IL), resolving IL runs out of depth at every bound |
| Scenarios.TwoConstructorsRejected | SimpleIOCContainer.Library/SimpleContainer.cs:128 | an implementation with two constructors, one of them parameterless, fails as ambiguous |
| Scenarios.SampleScanBindsDual | SimpleIOCContainer.Library/SimpleContainer.cs:92-97 | scanning the types IX, Dual and B binds each interface that Dual declares to Dual |
| Scenarios.BulkScanBindsEveryInterface | SimpleIOCContainer/Program.cs:12-13 | a bulk scan over a type list makes the class Dual, which declares IX and IY, resolvable under both interfaces |

## Left out

- The lazily created singleton `Container`, its lock and its double-checked initialisation exist for concurrent first access. The model works with one explicitly constructed container object.
- Unsynchronised concurrent registration is not modelled. All calls are sequential.
- `Assembly.Load` and `GetTypes()` are replaced by the sequence of types they would yield. An assembly that fails to load is not modelled, because that is runtime loading, outside the container's logic.
- Reflection (`IsInterface`, `IsClass`, `GetInterfaces`, `GetConstructors`, `IsAssignableFrom`) is an abstract record of functions, not the .NET type system.
- `ConstructorInfo.Invoke` is modelled as building an `Instance` node. Real object allocation is not modelled, and neither is object identity: two resolutions give equal trees, not two distinct objects.
- Exception message texts are not modelled. Each error only records the type its message names.
- Resolver.Resolve: does not model the C# behaviour on cyclic dependencies, which is unbounded recursion ending in a stack overflow. It is bounded by a depth parameter and reports `OutOfFuel` when the bound is too small. A cycle of the kind `CycleExhaustsFuel` describes gives that at every bound. Its success condition also assumes that every bound implementation can be instantiated and that its constructor body does not throw. An abstract class with a public constructor, for which `Invoke` throws `MemberAccessException`, is not modelled, and neither is a constructor that throws, which `Invoke` reports as `TargetInvocationException`. Null type arguments are not modelled either (`Register(null, …)`, `Register(I, null)` and `Resolve(null)`).
- Resolver.ResolveAs: models the `(T)` cast only as the assignability query. Boxing and user-defined conversions are not modelled.
- Container.SimpleContainer.RegisterTyped: models `where T : class` as "T is a class or an interface type". This relies on delegates and arrays counting as classes to reflection.
- `ConstructorInfo.Invoke`'s argument check is modelled by the assignability query alone. Conversions it might apply, such as boxing, are not modelled.
- `SimpleIOCContainer/Program.cs` is not part of this model. It only calls `RegisterAssembly` and `Resolve<ITest>()`, then waits for console input; `Scenarios` plays that role.
