/**
 * Constructor injection: resolving a type looks up its implementation, takes
 * that implementation's single public constructor, resolves each parameter
 * type the same way, in order, and invokes the constructor on the results,
 * which checks that each argument fits its parameter type.
 *
 * The container does not detect dependency cycles, so resolution need not
 * terminate. The model bounds the nesting depth with `fuel`; OutOfFuel means
 * the bound was too small for this resolution. On a cycle it occurs at every
 * bound (CycleExhaustsFuel), and that is where the C# container exhausts its call stack.
 */
module Resolver {
  import opened Types
  import opened Registry

  /** A constructed object: its runtime type and the arguments its constructor was invoked with. */
  datatype Instance = Instance(impl: TypeId, args: seq<Instance>)

  /**
   * Reference definition: n is an object graph the dictionary wires up for t.
   * t is bound to n's type, that type has exactly one public constructor,
   * each argument is, in parameter order, an object graph for that parameter's
   * type, and each argument's type can be passed as that parameter's type.
   */
  ghost predicate Constructs(refl: Reflection, deps: Dictionary, t: TypeId, n: Instance)
    decreases n
  {
    && t in deps
    && n.impl == deps[t]
    && |refl.ctors(n.impl)| == 1
    && |n.args| == |refl.ctors(n.impl)[0]|
    && (forall k :: 0 <= k < |n.args| ==> refl.assignable(refl.ctors(n.impl)[0][k], n.args[k].impl))
    && forall k :: 0 <= k < |n.args| ==> Constructs(refl, deps, refl.ctors(n.impl)[0][k], n.args[k])
  }

  /** Building n nests constructor calls with arguments at most fuel deep. */
  ghost predicate FitsIn(n: Instance, fuel: nat)
    decreases n
  {
    n.args != [] ==> fuel > 0 && forall k :: 0 <= k < |n.args| ==> FitsIn(n.args[k], fuel - 1)
  }

  /**
   * The argument check of ConstructorInfo.Invoke: it passes exactly when every
   * argument's runtime type can be passed as its parameter type, and otherwise
   * names the first argument that cannot.
   */
  function CheckArgs(refl: Reflection, params: seq<TypeId>, args: seq<Instance>): (r: Outcome)
    requires |params| == |args|
    ensures r == Pass <==> forall k :: 0 <= k < |params| ==> refl.assignable(params[k], args[k].impl)
    ensures r.Fail? ==> r.error.ArgumentMismatch?
    decreases |params|
  {
    if params == [] then Pass
    else if !refl.assignable(params[0], args[0].impl) then Fail(ArgumentMismatch(params[0], args[0].impl))
    else CheckArgs(refl, params[1..], args[1..])
  }

  /** CheckArgs reports the first parameter whose argument does not fit, naming both types. */
  lemma {:induction false} CheckArgsNamesFirstMismatch(refl: Reflection, params: seq<TypeId>, args: seq<Instance>, k: nat)
    requires |params| == |args| && k < |params|
    requires forall j :: 0 <= j < k ==> refl.assignable(params[j], args[j].impl)
    requires !refl.assignable(params[k], args[k].impl)
    ensures CheckArgs(refl, params, args) == Fail(ArgumentMismatch(params[k], args[k].impl))
    decreases k
  {
    if k > 0 {
      assert refl.assignable(params[0], args[0].impl);
      CheckArgsNamesFirstMismatch(refl, params[1..], args[1..], k - 1);
    }
  }

  /**
   * Resolve(Type): the error cases in the order the source checks them, then
   * the arguments, resolved in full before the constructor call checks them.
   */
  function Resolve(refl: Reflection, deps: Dictionary, t: TypeId, fuel: nat): (r: Result<Instance>)
    ensures t !in deps ==> r == Err(NotRegistered(t))
    ensures t in deps && |refl.ctors(deps[t])| == 0 ==> r == Err(NoCtor(t))
    ensures t in deps && |refl.ctors(deps[t])| > 1 ==> r == Err(AmbiguousCtor)
    ensures r.Ok? ==> Constructs(refl, deps, t, r.value) && FitsIn(r.value, fuel)
    decreases fuel, 1, 0
  {
    if t !in deps then Err(NotRegistered(t))
    else
      var impl := deps[t];
      var ctors := refl.ctors(impl);
      if |ctors| == 0 then Err(NoCtor(t))
      else if |ctors| > 1 then Err(AmbiguousCtor)
      else
        match ResolveArgs(refl, deps, ctors[0], fuel)
        case Err(e) => Err(e)
        case Ok(args) =>
          match CheckArgs(refl, ctors[0], args)
          case Fail(e) => Err(e)
          case Pass => Ok(Instance(impl, args))
  }

  /**
   * The arguments of one constructor call: each parameter type resolved one
   * level deeper, left to right; the first failure aborts the rest.
   */
  function ResolveArgs(refl: Reflection, deps: Dictionary, params: seq<TypeId>, fuel: nat): (r: Result<seq<Instance>>)
    ensures r.Ok? ==> |r.value| == |params|
    ensures r.Ok? && params != [] ==> fuel > 0
    ensures r.Ok? ==> forall k :: 0 <= k < |params| ==>
                        Constructs(refl, deps, params[k], r.value[k]) && FitsIn(r.value[k], fuel - 1)
    decreases fuel, 0, |params|
  {
    if params == [] then Ok([])
    else if fuel == 0 then Err(OutOfFuel)
    else
      match Resolve(refl, deps, params[0], fuel - 1)
      case Err(e) => Err(e)
      case Ok(first) =>
        match ResolveArgs(refl, deps, params[1..], fuel)
        case Err(e) => Err(e)
        case Ok(rest) => Ok([first] + rest)
  }

  /** Completeness: every object graph the dictionary wires up for t is found, given enough depth. */
  lemma {:induction false} ResolveComplete(refl: Reflection, deps: Dictionary, t: TypeId, n: Instance, fuel: nat)
    requires Constructs(refl, deps, t, n) && FitsIn(n, fuel)
    ensures Resolve(refl, deps, t, fuel) == Ok(n)
    decreases fuel, 1, 0
  {
    var params := refl.ctors(n.impl)[0];
    ResolveArgsComplete(refl, deps, params, n.args, fuel);
  }

  /** Completeness of the argument list, parameter by parameter. */
  lemma {:induction false} ResolveArgsComplete(refl: Reflection, deps: Dictionary, params: seq<TypeId>, args: seq<Instance>, fuel: nat)
    requires |args| == |params|
    requires params != [] ==> fuel > 0
    requires forall k :: 0 <= k < |params| ==>
               Constructs(refl, deps, params[k], args[k]) && FitsIn(args[k], fuel - 1)
    ensures ResolveArgs(refl, deps, params, fuel) == Ok(args)
    decreases fuel, 0, |params|
  {
    if params != [] {
      ResolveComplete(refl, deps, params[0], args[0], fuel - 1);
      ResolveArgsComplete(refl, deps, params[1..], args[1..], fuel);
      assert args == [args[0]] + args[1..];
    }
  }

  /** Resolve succeeds with some depth bound exactly when the dictionary wires up a graph within it. */
  lemma ResolveSucceedsIff(refl: Reflection, deps: Dictionary, t: TypeId, fuel: nat)
    ensures Resolve(refl, deps, t, fuel).Ok? <==> exists n :: Constructs(refl, deps, t, n) && FitsIn(n, fuel)
  {
    if Resolve(refl, deps, t, fuel).Ok? {
      var n := Resolve(refl, deps, t, fuel).value;
      assert Constructs(refl, deps, t, n) && FitsIn(n, fuel);
    }
    if exists n :: Constructs(refl, deps, t, n) && FitsIn(n, fuel) {
      var n :| Constructs(refl, deps, t, n) && FitsIn(n, fuel);
      ResolveComplete(refl, deps, t, n, fuel);
    }
  }

  /** The dictionary determines the object graph: there is at most one for each type. */
  lemma {:induction false} ConstructsUnique(refl: Reflection, deps: Dictionary, t: TypeId, n: Instance, m: Instance)
    requires Constructs(refl, deps, t, n) && Constructs(refl, deps, t, m)
    ensures n == m
    decreases n
  {
    var params := refl.ctors(n.impl)[0];
    forall k | 0 <= k < |n.args| ensures n.args[k] == m.args[k] {
      ConstructsUnique(refl, deps, params[k], n.args[k], m.args[k]);
    }
  }

  /**
   * A successful resolution is built from the implementation's single
   * constructor, with arguments that are the resolutions of its parameter
   * types one level deeper, in declared order.
   */
  lemma ResolveBuildsFromParameters(refl: Reflection, deps: Dictionary, t: TypeId, fuel: nat)
    requires Resolve(refl, deps, t, fuel).Ok?
    ensures var n := Resolve(refl, deps, t, fuel).value;
      && t in deps && n.impl == deps[t]
      && |refl.ctors(n.impl)| == 1
      && |n.args| == |refl.ctors(n.impl)[0]|
      && forall k :: 0 <= k < |n.args| ==>
           fuel > 0 && Resolve(refl, deps, refl.ctors(n.impl)[0][k], fuel - 1) == Ok(n.args[k])
  {
    var n := Resolve(refl, deps, t, fuel).value;
    forall k | 0 <= k < |n.args|
      ensures fuel > 0 && Resolve(refl, deps, refl.ctors(n.impl)[0][k], fuel - 1) == Ok(n.args[k])
    {
      ResolveComplete(refl, deps, refl.ctors(n.impl)[0][k], n.args[k], fuel - 1);
    }
  }

  /**
   * The first parameter that fails to resolve decides the whole resolution:
   * its error, unchanged, is what Resolve reports for the outer type. In
   * particular an unbound parameter type is named itself, not the type asked for.
   */
  lemma ParameterFailureAborts(refl: Reflection, deps: Dictionary, t: TypeId, fuel: nat, k: nat)
    requires t in deps && |refl.ctors(deps[t])| == 1
    requires fuel > 0 && k < |refl.ctors(deps[t])[0]|
    requires forall j :: 0 <= j < k ==> Resolve(refl, deps, refl.ctors(deps[t])[0][j], fuel - 1).Ok?
    requires Resolve(refl, deps, refl.ctors(deps[t])[0][k], fuel - 1).Err?
    ensures Resolve(refl, deps, t, fuel) == Resolve(refl, deps, refl.ctors(deps[t])[0][k], fuel - 1)
  {
    ArgsFailureAborts(refl, deps, refl.ctors(deps[t])[0], fuel, k);
  }

  /** The argument list fails with the error of its first failing parameter. */
  lemma {:induction false} ArgsFailureAborts(refl: Reflection, deps: Dictionary, params: seq<TypeId>, fuel: nat, k: nat)
    requires fuel > 0 && k < |params|
    requires forall j :: 0 <= j < k ==> Resolve(refl, deps, params[j], fuel - 1).Ok?
    requires Resolve(refl, deps, params[k], fuel - 1).Err?
    ensures ResolveArgs(refl, deps, params, fuel) == Err(Resolve(refl, deps, params[k], fuel - 1).error)
    decreases k
  {
    if k > 0 {
      assert Resolve(refl, deps, params[0], fuel - 1).Ok?;
      ArgsFailureAborts(refl, deps, params[1..], fuel, k - 1);
    }
  }

  /** Fuel is only a bound: a result reached within some depth stays the same with more. */
  lemma {:induction false} FuelMonotone(refl: Reflection, deps: Dictionary, t: TypeId, fuel: nat, more: nat)
    requires fuel <= more && Resolve(refl, deps, t, fuel) != Err(OutOfFuel)
    ensures Resolve(refl, deps, t, more) == Resolve(refl, deps, t, fuel)
    decreases fuel, 1, 0
  {
    if t in deps && |refl.ctors(deps[t])| == 1 {
      ArgsFuelMonotone(refl, deps, refl.ctors(deps[t])[0], fuel, more);
    }
  }

  /** The argument-list form of FuelMonotone. */
  lemma {:induction false} ArgsFuelMonotone(refl: Reflection, deps: Dictionary, params: seq<TypeId>, fuel: nat, more: nat)
    requires fuel <= more && ResolveArgs(refl, deps, params, fuel) != Err(OutOfFuel)
    ensures ResolveArgs(refl, deps, params, more) == ResolveArgs(refl, deps, params, fuel)
    decreases fuel, 0, |params|
  {
    if params != [] {
      FuelMonotone(refl, deps, params[0], fuel - 1, more - 1);
      if Resolve(refl, deps, params[0], fuel - 1).Ok? {
        ArgsFuelMonotone(refl, deps, params[1..], fuel, more);
      }
    }
  }

  /** t resolves at some depth bound. */
  ghost predicate Resolvable(refl: Reflection, deps: Dictionary, t: TypeId)
  {
    exists f: nat :: Resolve(refl, deps, t, f).Ok?
  }

  /** A type that resolves at some depth never fails for another reason than the depth at any other. */
  lemma ResolvableFailsOnlyOnDepth(refl: Reflection, deps: Dictionary, t: TypeId, fuel: nat)
    requires Resolvable(refl, deps, t)
    ensures Resolve(refl, deps, t, fuel).Ok? || Resolve(refl, deps, t, fuel) == Err(OutOfFuel)
  {
    var f: nat :| Resolve(refl, deps, t, f).Ok?;
    if f <= fuel {
      FuelMonotone(refl, deps, t, f, fuel);
    } else if Resolve(refl, deps, t, fuel) != Err(OutOfFuel) {
      FuelMonotone(refl, deps, t, fuel, f);
    }
  }

  /**
   * An argument list runs out of depth when parameter c does and every
   * parameter before it either resolves or runs out of depth too.
   */
  lemma {:induction false} ArgsExhaustFuel(refl: Reflection, deps: Dictionary, params: seq<TypeId>, fuel: nat, c: nat)
    requires fuel > 0 && c < |params|
    requires forall j :: 0 <= j < c ==>
               Resolve(refl, deps, params[j], fuel - 1).Ok? || Resolve(refl, deps, params[j], fuel - 1) == Err(OutOfFuel)
    requires Resolve(refl, deps, params[c], fuel - 1) == Err(OutOfFuel)
    ensures ResolveArgs(refl, deps, params, fuel) == Err(OutOfFuel)
    decreases c
  {
    if c > 0 && Resolve(refl, deps, params[0], fuel - 1).Ok? {
      ArgsExhaustFuel(refl, deps, params[1..], fuel, c - 1);
    }
  }

  /**
   * A dependency cycle never resolves, however deep the bound. Every type of
   * the set is bound to an implementation with one constructor, whose
   * parameter at position pos(s) is again in the set, and whose parameters
   * before that position each resolve at some depth. Resolution then recurses
   * around the cycle until the bound is exhausted; the C# container recurses
   * until its call stack overflows.
   */
  lemma {:induction false} CycleExhaustsFuel(refl: Reflection, deps: Dictionary, cycle: set<TypeId>, pos: TypeId -> nat, t: TypeId, fuel: nat)
    requires forall s :: s in cycle ==>
               && s in deps && |refl.ctors(deps[s])| == 1
               && pos(s) < |refl.ctors(deps[s])[0]| && refl.ctors(deps[s])[0][pos(s)] in cycle
               && forall j :: 0 <= j < pos(s) ==> Resolvable(refl, deps, refl.ctors(deps[s])[0][j])
    requires t in cycle
    ensures Resolve(refl, deps, t, fuel) == Err(OutOfFuel)
    decreases fuel
  {
    if fuel > 0 {
      var params := refl.ctors(deps[t])[0];
      CycleExhaustsFuel(refl, deps, cycle, pos, params[pos(t)], fuel - 1);
      forall j | 0 <= j < pos(t)
        ensures Resolve(refl, deps, params[j], fuel - 1).Ok? || Resolve(refl, deps, params[j], fuel - 1) == Err(OutOfFuel)
      {
        ResolvableFailsOnlyOnDepth(refl, deps, params[j], fuel - 1);
      }
      ArgsExhaustFuel(refl, deps, params, fuel, pos(t));
    }
  }

  /** With only interfaces as keys, a concrete type asked for directly fails as not registered. */
  lemma ConcreteTypeNotRegistered(refl: Reflection, deps: Dictionary, t: TypeId, fuel: nat)
    requires KeysAreInterfaces(refl, deps) && !refl.isInterface(t)
    ensures Resolve(refl, deps, t, fuel) == Err(NotRegistered(t))
  {
  }

  /**
   * With only interfaces as keys, an implementation whose constructor takes a
   * concrete parameter type can never be resolved, at any depth.
   */
  lemma ConcreteParameterNeverResolves(refl: Reflection, deps: Dictionary, t: TypeId, fuel: nat, k: nat)
    requires KeysAreInterfaces(refl, deps)
    requires t in deps && |refl.ctors(deps[t])| == 1
    requires k < |refl.ctors(deps[t])[0]| && !refl.isInterface(refl.ctors(deps[t])[0][k])
    ensures Resolve(refl, deps, t, fuel).Err?
  {
  }

  /**
   * With only interfaces as keys, once the parameters before a concrete
   * parameter type have resolved, resolution fails naming that parameter
   * type as not registered.
   */
  lemma ConcreteParameterNotRegistered(refl: Reflection, deps: Dictionary, t: TypeId, fuel: nat, k: nat)
    requires KeysAreInterfaces(refl, deps)
    requires t in deps && |refl.ctors(deps[t])| == 1 && fuel > 0
    requires k < |refl.ctors(deps[t])[0]| && !refl.isInterface(refl.ctors(deps[t])[0][k])
    requires forall j :: 0 <= j < k ==> Resolve(refl, deps, refl.ctors(deps[t])[0][j], fuel - 1).Ok?
    ensures Resolve(refl, deps, t, fuel) == Err(NotRegistered(refl.ctors(deps[t])[0][k]))
  {
    ConcreteTypeNotRegistered(refl, deps, refl.ctors(deps[t])[0][k], fuel - 1);
    ParameterFailureAborts(refl, deps, t, fuel, k);
  }

  /** Two interfaces bound to the same implementation resolve alike: both or neither, to the same graph. */
  lemma SharedImplementationResolvesAlike(refl: Reflection, deps: Dictionary, i: TypeId, j: TypeId, fuel: nat)
    requires i in deps && j in deps && deps[i] == deps[j]
    ensures Resolve(refl, deps, i, fuel).Ok? <==> Resolve(refl, deps, j, fuel).Ok?
    ensures Resolve(refl, deps, i, fuel).Ok? ==> Resolve(refl, deps, i, fuel).value == Resolve(refl, deps, j, fuel).value
  {
  }

  /** The typed forms: resolve, then view the instance as target; the cast fails unless target is assignable from its type. */
  function ResolveAs(refl: Reflection, deps: Dictionary, target: TypeId, t: TypeId, fuel: nat): (r: Result<Instance>)
    ensures r.Ok? <==> Resolve(refl, deps, t, fuel).Ok? && refl.assignable(target, Resolve(refl, deps, t, fuel).value.impl)
    ensures r.Ok? ==> r == Resolve(refl, deps, t, fuel)
    ensures Resolve(refl, deps, t, fuel).Err? ==> r == Resolve(refl, deps, t, fuel)
    ensures Resolve(refl, deps, t, fuel).Ok? && !refl.assignable(target, Resolve(refl, deps, t, fuel).value.impl) ==>
              r == Err(InvalidCast(target))
  {
    match Resolve(refl, deps, t, fuel)
    case Err(e) => Err(e)
    case Ok(n) => if refl.assignable(target, n.impl) then Ok(n) else Err(InvalidCast(target))
  }

  /**
   * When every binding is assignable to its key, as the typed registration
   * form guarantees, Resolve<T>() never fails at its cast.
   */
  lemma AssignableBindingsCastSafely(refl: Reflection, deps: Dictionary, t: TypeId, fuel: nat)
    requires BindingsAssignable(refl, deps)
    ensures ResolveAs(refl, deps, t, t, fuel) == Resolve(refl, deps, t, fuel)
  {
  }

  /**
   * When every binding is assignable to its key, as the typed registration
   * form guarantees, no constructor call made by a resolution rejects an
   * argument: each argument of parameter type p is an instance of the type bound to p.
   */
  lemma {:induction false} AssignableBindingsFitParameters(refl: Reflection, deps: Dictionary, t: TypeId, fuel: nat)
    requires BindingsAssignable(refl, deps)
    ensures Resolve(refl, deps, t, fuel).Err? ==> !Resolve(refl, deps, t, fuel).error.ArgumentMismatch?
    decreases fuel, 1, 0
  {
    if t in deps && |refl.ctors(deps[t])| == 1 {
      var params := refl.ctors(deps[t])[0];
      AssignableBindingsFitArgs(refl, deps, params, fuel);
      var a := ResolveArgs(refl, deps, params, fuel);
      if a.Ok? {
        assert forall k :: 0 <= k < |params| ==> a.value[k].impl == deps[params[k]];
      }
    }
  }

  /** The argument-list form of AssignableBindingsFitParameters. */
  lemma {:induction false} AssignableBindingsFitArgs(refl: Reflection, deps: Dictionary, params: seq<TypeId>, fuel: nat)
    requires BindingsAssignable(refl, deps)
    ensures ResolveArgs(refl, deps, params, fuel).Err? ==> !ResolveArgs(refl, deps, params, fuel).error.ArgumentMismatch?
    decreases fuel, 0, |params|
  {
    if params != [] && fuel > 0 {
      AssignableBindingsFitParameters(refl, deps, params[0], fuel - 1);
      AssignableBindingsFitArgs(refl, deps, params[1..], fuel);
    }
  }
}
