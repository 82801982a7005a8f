/**
 * The container object: the dependency dictionary it owns, the registration
 * methods that update it in place, and the resolve entry points that read it.
 */
module Container {
  import opened Types
  import opened Registry
  import Resolver

  class SimpleContainer {
    /** The reflection metadata of the loaded types, fixed for the process. */
    const refl: Reflection
    /** The registered dependencies, interface type to implementation type. */
    var dependencies: Dictionary

    /** The container's invariant: every key of the dictionary is an interface type. */
    ghost predicate Valid()
      reads this
    {
      KeysAreInterfaces(refl, dependencies)
    }

    /** The container starts with no registrations. */
    constructor (refl: Reflection)
      ensures Valid()
      ensures this.refl == refl && dependencies == map[]
    {
      this.refl := refl;
      dependencies := map[];
    }

    /**
     * Register(Type, Type): bind interfaceType to implementationType unless it
     * is bound already. A key that is not an interface throws and changes
     * nothing. No compatibility between the two types is checked.
     */
    method Register(interfaceType: TypeId, implementationType: TypeId) returns (outcome: Outcome)
      requires Valid()
      modifies this
      ensures Valid()
      ensures !refl.isInterface(interfaceType) ==>
                outcome == Fail(NotAnInterface(interfaceType)) && dependencies == old(dependencies)
      ensures refl.isInterface(interfaceType) ==> outcome == Pass
      ensures interfaceType in old(dependencies) ==> dependencies == old(dependencies)
      ensures refl.isInterface(interfaceType) && interfaceType !in old(dependencies) ==>
                dependencies == old(dependencies)[interfaceType := implementationType]
      ensures Registration(dependencies, outcome) == Step(refl, old(dependencies), interfaceType, implementationType)
    {
      if !refl.isInterface(interfaceType) {
        return Fail(NotAnInterface(interfaceType));
      }
      if interfaceType !in dependencies {
        dependencies := dependencies[interfaceType := implementationType];
      }
      return Pass;
    }

    /**
     * Register<T, TU>(): the same registration, with the generic constraints
     * `where T : class` and `where TU : T` as the caller's obligation. It
     * therefore also keeps every binding assignable to its key.
     */
    method RegisterTyped(t: TypeId, tu: TypeId) returns (outcome: Outcome)
      requires Valid()
      requires refl.isClass(t) || refl.isInterface(t)
      requires refl.assignable(t, tu)
      modifies this
      ensures Valid()
      ensures !refl.isInterface(t) ==> outcome == Fail(NotAnInterface(t)) && dependencies == old(dependencies)
      ensures refl.isInterface(t) ==> outcome == Pass
      ensures t in old(dependencies) ==> dependencies == old(dependencies)
      ensures refl.isInterface(t) && t !in old(dependencies) ==> dependencies == old(dependencies)[t := tu]
      ensures BindingsAssignable(refl, old(dependencies)) ==> BindingsAssignable(refl, dependencies)
    {
      outcome := Register(t, tu);
    }

    /**
     * RegisterAssembly: for every class among the assembly's types, in order,
     * register it for each interface it declares. A registration that throws
     * ends the scan, keeping the registrations made before it.
     */
    method RegisterAssembly(types: seq<TypeId>) returns (outcome: Outcome)
      requires Valid()
      modifies this
      ensures Valid()
      ensures Registration(dependencies, outcome) == Scan(refl, old(dependencies), types)
    {
      outcome := Pass;
      var k := 0;
      while k < |types|
        invariant 0 <= k <= |types|
        invariant Valid()
        invariant Scan(refl, old(dependencies), types[..k]) == Registration(dependencies, outcome)
        invariant outcome == Pass
      {
        var c := types[k];
        assert types[..k + 1][..k] == types[..k];
        if refl.isClass(c) {
          var ifaces := refl.interfaces(c);
          ghost var start := dependencies;
          var j := 0;
          while j < |ifaces|
            invariant 0 <= j <= |ifaces|
            invariant Valid()
            invariant RegisterEach(refl, start, ifaces[..j], c) == Registration(dependencies, outcome)
            invariant outcome == Pass
          {
            assert ifaces[..j + 1][..j] == ifaces[..j];
            outcome := Register(ifaces[j], c);
            if outcome.Fail? {
              assert RegisterEach(refl, start, ifaces[..j + 1], c) == Registration(dependencies, outcome);
              RegisterEachStopsAtFailure(refl, start, ifaces, c, j + 1);
              assert Scan(refl, old(dependencies), types[..k + 1]) == Registration(dependencies, outcome);
              ScanStopsAtFailure(refl, old(dependencies), types, k + 1);
              return;
            }
            j := j + 1;
          }
          assert ifaces[..j] == ifaces;
        }
        k := k + 1;
      }
      assert types[..k] == types;
    }

    /** Resolve(Type): builds an instance for interfaceType from the dictionary, which it leaves alone. */
    method Resolve(interfaceType: TypeId, fuel: nat) returns (r: Result<Resolver.Instance>)
      ensures r == Resolver.Resolve(refl, dependencies, interfaceType, fuel)
      ensures Valid() && !refl.isInterface(interfaceType) ==> r == Err(NotRegistered(interfaceType))
    {
      r := Resolver.Resolve(refl, dependencies, interfaceType, fuel);
    }

    /** Resolve<T>(Type): resolves interfaceType and casts the instance to target. */
    method ResolveAs(target: TypeId, interfaceType: TypeId, fuel: nat) returns (r: Result<Resolver.Instance>)
      ensures r == Resolver.ResolveAs(refl, dependencies, target, interfaceType, fuel)
    {
      r := Resolver.ResolveAs(refl, dependencies, target, interfaceType, fuel);
    }

    /** Resolve<T>(): resolves T and casts the instance to T. */
    method ResolveTyped(t: TypeId, fuel: nat) returns (r: Result<Resolver.Instance>)
      ensures r == Resolver.ResolveAs(refl, dependencies, t, t, fuel)
    {
      r := ResolveAs(t, t, fuel);
    }
  }
}
