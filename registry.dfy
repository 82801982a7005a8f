/**
 * The dependency dictionary as a value: what one registration does to it, and
 * what the nested loops of a bulk assembly scan do to it, as functions that
 * the container's methods are proved against.
 */
module Registry {
  import opened Types

  type Dictionary = map<TypeId, TypeId>

  /** The dictionary invariant: only interface types are ever keys. */
  ghost predicate KeysAreInterfaces(refl: Reflection, deps: Dictionary)
  {
    forall k :: k in deps ==> refl.isInterface(k)
  }

  /** Every binding can be cast back to its key: what the typed registration form guarantees. */
  ghost predicate BindingsAssignable(refl: Reflection, deps: Dictionary)
  {
    forall k :: k in deps ==> refl.assignable(k, deps[k])
  }

  /** The dictionary after a sequence of registrations, and whether they all went through. */
  datatype Registration = Registration(deps: Dictionary, outcome: Outcome)

  /**
   * One call Register(key, impl): a non-interface key throws and changes
   * nothing; a present key is left alone; an absent interface key is added.
   */
  function Step(refl: Reflection, deps: Dictionary, key: TypeId, impl: TypeId): (r: Registration)
    ensures r.outcome == Pass <==> refl.isInterface(key)
    ensures r.outcome.Fail? ==> r.outcome.error == NotAnInterface(key) && r.deps == deps
    ensures forall k :: k in deps ==> k in r.deps && r.deps[k] == deps[k]
    ensures forall k :: k in r.deps && k !in deps ==> k == key && r.deps[k] == impl
    ensures refl.isInterface(key) ==> key in r.deps
  {
    if !refl.isInterface(key) then Registration(deps, Fail(NotAnInterface(key)))
    else if key in deps then Registration(deps, Pass)
    else Registration(deps[key := impl], Pass)
  }

  /** The inner loop of a scan: Register(i, impl) for each i of ifaces in order, up to the first throw. */
  function RegisterEach(refl: Reflection, deps: Dictionary, ifaces: seq<TypeId>, impl: TypeId): (r: Registration)
    ensures forall k :: k in deps ==> k in r.deps && r.deps[k] == deps[k]
    ensures forall k :: k in r.deps && k !in deps ==> k in ifaces && refl.isInterface(k) && r.deps[k] == impl
    ensures r.outcome.Fail? ==>
              r.outcome.error.NotAnInterface? && r.outcome.error.t in ifaces && !refl.isInterface(r.outcome.error.t)
    decreases |ifaces|
  {
    if ifaces == [] then Registration(deps, Pass)
    else
      var prev := RegisterEach(refl, deps, ifaces[..|ifaces| - 1], impl);
      if prev.outcome.Fail? then prev else Step(refl, prev.deps, ifaces[|ifaces| - 1], impl)
  }

  /** The outer loop of a scan: for every class among types, in order, register it for its interfaces. */
  function Scan(refl: Reflection, deps: Dictionary, types: seq<TypeId>): (r: Registration)
    ensures forall k :: k in deps ==> k in r.deps && r.deps[k] == deps[k]
    ensures forall k :: k in r.deps && k !in deps ==>
              refl.isInterface(k) && r.deps[k] in types && Declares(refl, r.deps[k], k)
    ensures r.outcome.Fail? ==> r.outcome.error.NotAnInterface? && !refl.isInterface(r.outcome.error.t)
    decreases |types|
  {
    if types == [] then Registration(deps, Pass)
    else
      var prev := Scan(refl, deps, types[..|types| - 1]);
      var c := types[|types| - 1];
      if prev.outcome.Fail? || !refl.isClass(c) then prev
      else RegisterEach(refl, prev.deps, refl.interfaces(c), c)
  }

  /** Registering one class for a list of interfaces adds exactly the absent ones, all bound to that class. */
  lemma {:induction false} RegisterEachBindsAbsent(refl: Reflection, deps: Dictionary, ifaces: seq<TypeId>, impl: TypeId)
    requires forall j :: 0 <= j < |ifaces| ==> refl.isInterface(ifaces[j])
    ensures RegisterEach(refl, deps, ifaces, impl).outcome == Pass
    ensures forall k :: k in RegisterEach(refl, deps, ifaces, impl).deps <==> k in deps || k in ifaces
    ensures forall k :: k in deps ==> RegisterEach(refl, deps, ifaces, impl).deps[k] == deps[k]
    ensures forall k :: k in ifaces && k !in deps ==> RegisterEach(refl, deps, ifaces, impl).deps[k] == impl
    decreases |ifaces|
  {
    if ifaces != [] {
      var init := ifaces[..|ifaces| - 1];
      RegisterEachBindsAbsent(refl, deps, init, impl);
      assert ifaces == init + [ifaces[|ifaces| - 1]];
    }
  }

  /** Once a registration of the scan has thrown, the later types change nothing. */
  lemma {:induction false} ScanStopsAtFailure(refl: Reflection, deps: Dictionary, types: seq<TypeId>, k: nat)
    requires k <= |types|
    requires Scan(refl, deps, types[..k]).outcome.Fail?
    ensures Scan(refl, deps, types) == Scan(refl, deps, types[..k])
    decreases |types| - k
  {
    if k < |types| {
      var init := types[..|types| - 1];
      assert init[..k] == types[..k];
      ScanStopsAtFailure(refl, deps, init, k);
    } else {
      assert types[..k] == types;
    }
  }

  /** Once a registration of the inner loop has thrown, the later interfaces change nothing. */
  lemma {:induction false} RegisterEachStopsAtFailure(refl: Reflection, deps: Dictionary, ifaces: seq<TypeId>, impl: TypeId, k: nat)
    requires k <= |ifaces|
    requires RegisterEach(refl, deps, ifaces[..k], impl).outcome.Fail?
    ensures RegisterEach(refl, deps, ifaces, impl) == RegisterEach(refl, deps, ifaces[..k], impl)
    decreases |ifaces| - k
  {
    if k < |ifaces| {
      var init := ifaces[..|ifaces| - 1];
      assert init[..k] == ifaces[..k];
      RegisterEachStopsAtFailure(refl, deps, init, impl, k);
    } else {
      assert ifaces[..k] == ifaces;
    }
  }

  /** Some class among types declares interface i. */
  ghost predicate Declared(refl: Reflection, types: seq<TypeId>, i: TypeId)
  {
    exists j :: 0 <= j < |types| && Declares(refl, types[j], i)
  }

  /** types[j] is the earliest class among types that declares interface i. */
  ghost predicate FirstDeclarer(refl: Reflection, types: seq<TypeId>, j: int, i: TypeId)
  {
    0 <= j < |types| && Declares(refl, types[j], i) &&
    forall l :: 0 <= l < j ==> !Declares(refl, types[l], i)
  }

  /** i is declared in types plus one more class exactly when it is declared in types or by that class. */
  lemma DeclaredSnoc(refl: Reflection, types: seq<TypeId>, c: TypeId, i: TypeId)
    ensures Declared(refl, types + [c], i) <==> Declared(refl, types, i) || Declares(refl, c, i)
  {
    var all := types + [c];
    if Declared(refl, all, i) {
      var j :| 0 <= j < |all| && Declares(refl, all[j], i);
      if j < |types| { assert all[j] == types[j]; }
    }
    if Declared(refl, types, i) {
      var j :| 0 <= j < |types| && Declares(refl, types[j], i);
      assert all[j] == types[j];
    }
    if Declares(refl, c, i) { assert all[|types|] == c; }
  }

  /** The interfaces of a class are all interfaces when reflection only lists interfaces. */
  lemma ClassInterfacesAreInterfaces(refl: Reflection, c: TypeId)
    requires ListsOnlyInterfaces(refl)
    ensures forall j :: 0 <= j < |refl.interfaces(c)| ==> refl.isInterface(refl.interfaces(c)[j])
  {
  }

  /** When reflection only lists interfaces, no registration of a bulk scan throws. */
  lemma {:induction false} ScanSucceeds(refl: Reflection, deps: Dictionary, types: seq<TypeId>)
    requires ListsOnlyInterfaces(refl)
    ensures Scan(refl, deps, types).outcome == Pass
    decreases |types|
  {
    if types != [] {
      var init := types[..|types| - 1];
      var c := types[|types| - 1];
      ScanSucceeds(refl, deps, init);
      ClassInterfacesAreInterfaces(refl, c);
      RegisterEachBindsAbsent(refl, Scan(refl, deps, init).deps, refl.interfaces(c), c);
    }
  }

  /**
   * When reflection only lists interfaces, a bulk scan binds an interface
   * that was absent before exactly when some class of the sequence declares
   * it, and then to the earliest such class.
   */
  lemma {:induction false} ScanBindsEarliestDeclarer(refl: Reflection, deps: Dictionary, types: seq<TypeId>, i: TypeId)
    requires ListsOnlyInterfaces(refl)
    requires i !in deps
    ensures i in Scan(refl, deps, types).deps <==> Declared(refl, types, i)
    ensures forall j :: FirstDeclarer(refl, types, j, i) ==> Scan(refl, deps, types).deps[i] == types[j]
    decreases |types|
  {
    if types != [] {
      var n := |types| - 1;
      var init, c := types[..n], types[n];
      assert types == init + [c];
      ScanBindsEarliestDeclarer(refl, deps, init, i);
      ScanSucceeds(refl, deps, init);
      DeclaredSnoc(refl, init, c, i);
      var before := Scan(refl, deps, init).deps;
      if refl.isClass(c) {
        ClassInterfacesAreInterfaces(refl, c);
        RegisterEachBindsAbsent(refl, before, refl.interfaces(c), c);
      }
      forall j | FirstDeclarer(refl, types, j, i) ensures Scan(refl, deps, types).deps[i] == types[j] {
        if j < n {
          assert types[j] == init[j];
          assert FirstDeclarer(refl, init, j, i) by {
            forall l | 0 <= l < j ensures !Declares(refl, init[l], i) {
              assert init[l] == types[l];
            }
          }
        }
      }
    }
  }
}
