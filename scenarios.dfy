/**
 * Client scenarios of the container over a small fixed set of types, in the way
 * the console program uses it: register, then resolve a root object.
 *
 * Interfaces: IA, IB, IC, IMissing, ITwo, IX, IY, IL.
 * Classes, their public constructors and the interfaces they declare:
 *   A(IB) : IA      B() : IB      C(IMissing) : IC
 *   Two() and Two(IB) : ITwo      Dual() : IX, IY      L(IB, IL) : IL
 */
module Scenarios {
  import opened Types
  import opened Registry
  import opened Resolver
  import opened Container

  predicate SampleIsInterface(t: TypeId)
  {
    t in ["IA", "IB", "IC", "IMissing", "ITwo", "IX", "IY", "IL"]
  }

  predicate SampleIsClass(t: TypeId)
  {
    t in ["A", "B", "C", "Two", "Dual", "L"]
  }

  function SampleInterfaces(t: TypeId): seq<TypeId>
  {
    if t == "A" then ["IA"]
    else if t == "B" then ["IB"]
    else if t == "C" then ["IC"]
    else if t == "Two" then ["ITwo"]
    else if t == "Dual" then ["IX", "IY"]
    else if t == "L" then ["IL"]
    else []
  }

  function SampleCtors(t: TypeId): seq<seq<TypeId>>
  {
    if t == "A" then [["IB"]]
    else if t == "B" || t == "Dual" then [[]]
    else if t == "C" then [["IMissing"]]
    else if t == "Two" then [[], ["IB"]]
    else if t == "L" then [["IB", "IL"]]
    else []
  }

  predicate SampleAssignable(target: TypeId, source: TypeId)
  {
    target == source || target in SampleInterfaces(source)
  }

  function Sample(): (refl: Reflection)
    ensures ListsOnlyInterfaces(refl)
  {
    Reflection(SampleIsInterface, SampleIsClass, SampleInterfaces, SampleCtors, SampleAssignable)
  }

  /** Registering IB to B and then to A keeps the first implementation: resolving IB builds a B, never an A. */
  method FirstRegistrationWins() returns (first: Outcome, second: Outcome, r: Result<Instance>)
    ensures first == Pass && second == Pass
    ensures r == Ok(Instance("B", []))
  {
    var c := new SimpleContainer(Sample());
    first := c.Register("IB", "B");
    second := c.Register("IB", "A");
    r := c.Resolve("IB", 1);
  }

  /** A class used as a key is rejected, and nothing is registered. */
  method RejectsClassKey() returns (outcome: Outcome, r: Result<Instance>)
    ensures outcome == Fail(NotAnInterface("B"))
    ensures r == Err(NotRegistered("B"))
  {
    var c := new SimpleContainer(Sample());
    outcome := c.Register("B", "B");
    r := c.Resolve("B", 1);
  }

  /** IA bound to A(IB) and IB bound to B(): resolving IA builds an A whose argument is a B. */
  method TransitiveConstruction() returns (r: Result<Instance>)
    ensures r == Ok(Instance("A", [Instance("B", [])]))
  {
    var c := new SimpleContainer(Sample());
    var _ := c.RegisterTyped("IA", "A");
    var _ := c.RegisterTyped("IB", "B");
    var graph := Instance("A", [Instance("B", [])]);
    assert Constructs(Sample(), c.dependencies, "IB", graph.args[0]);
    assert Constructs(Sample(), c.dependencies, "IA", graph);
    ResolveComplete(Sample(), c.dependencies, "IA", graph, 1);
    r := c.ResolveTyped("IA", 1);
  }

  /** With IB left unbound, resolving IA fails naming IB, the missing link, not IA. */
  method MissingLinkNamed() returns (r: Result<Instance>)
    ensures r == Err(NotRegistered("IB"))
  {
    var c := new SimpleContainer(Sample());
    var _ := c.RegisterTyped("IA", "A");
    r := c.Resolve("IA", 1);
  }

  /**
   * The untyped form binds IB to Dual, which does not implement IB. Resolving
   * IA builds a Dual for A's IB parameter, and the constructor call rejects it.
   */
  method MismatchedBindingRejectedAtInvoke() returns (r: Result<Instance>)
    ensures r == Err(ArgumentMismatch("IB", "Dual"))
  {
    var c := new SimpleContainer(Sample());
    var _ := c.Register("IB", "Dual");
    var _ := c.RegisterTyped("IA", "A");
    r := c.Resolve("IA", 1);
  }

  /** Two public constructors are refused, although one of them takes no parameters. */
  method TwoConstructorsRejected() returns (r: Result<Instance>)
    ensures r == Err(AmbiguousCtor)
  {
    var c := new SimpleContainer(Sample());
    var _ := c.RegisterTyped("ITwo", "Two");
    r := c.Resolve("ITwo", 1);
  }

  /** Scanning the types IX, Dual and B binds each interface Dual declares to Dual. */
  lemma SampleScanBindsDual(types: seq<TypeId>, i: TypeId)
    requires types == ["IX", "Dual", "B"] && i in SampleInterfaces("Dual")
    ensures i in Scan(Sample(), map[], types).deps && Scan(Sample(), map[], types).deps[i] == "Dual"
  {
    ScanBindsEarliestDeclarer(Sample(), map[], types, i);
    assert FirstDeclarer(Sample(), types, 1, i);
  }

  /** A bulk scan makes Dual, which declares IX and IY, resolvable under both. */
  method BulkScanBindsEveryInterface() returns (outcome: Outcome, x: Result<Instance>, y: Result<Instance>)
    ensures outcome == Pass
    ensures x == Ok(Instance("Dual", [])) && y == Ok(Instance("Dual", []))
  {
    var c := new SimpleContainer(Sample());
    var types := ["IX", "Dual", "B"];
    outcome := c.RegisterAssembly(types);
    ScanSucceeds(Sample(), map[], types);
    SampleScanBindsDual(types, "IX");
    SampleScanBindsDual(types, "IY");
    x := c.Resolve("IX", 1);
    y := c.Resolve("IY", 1);
  }

  /**
   * L's constructor takes an IB and then an IL, so IL depends on itself
   * through its second parameter. With IB bound to B(), resolving IL runs
   * out of depth at every bound.
   */
  lemma LaterParameterCycleNeverResolves(fuel: nat)
    ensures Resolve(Sample(), map["IB" := "B", "IL" := "L"], "IL", fuel) == Err(OutOfFuel)
  {
    var deps := map["IB" := "B", "IL" := "L"];
    assert Resolve(Sample(), deps, "IB", 0).Ok?;
    assert Resolvable(Sample(), deps, "IB");
    CycleExhaustsFuel(Sample(), deps, {"IL"}, s => 1, "IL", fuel);
  }
}
