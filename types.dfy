/**
 * The vocabulary shared by the container's components: runtime types as
 * abstract identifiers, the reflection metadata the container reads about
 * them, and the errors its operations raise.
 */
module Types {

  /** A runtime type (System.Type) as an abstract identifier, compared by identity. */
  type TypeId = string

  /**
   * What reflection reports about types. Each field is one query the container
   * makes of System.Type; the model holds for every choice of them.
   *   isInterface(t)      Type.IsInterface
   *   isClass(t)          Type.IsClass
   *   interfaces(t)       Type.GetInterfaces(), in the order reflection returns them
   *   ctors(t)            Type.GetConstructors(): one entry per public constructor,
   *                       holding that constructor's parameter types in declared order
   *   assignable(t, u)    t.IsAssignableFrom(u): a value of runtime type u can be
   *                       viewed (cast) as a t
   */
  datatype Reflection = Reflection(
    isInterface: TypeId -> bool,
    isClass: TypeId -> bool,
    interfaces: TypeId -> seq<TypeId>,
    ctors: TypeId -> seq<seq<TypeId>>,
    assignable: (TypeId, TypeId) -> bool)

  /** The runtime's guarantee that GetInterfaces() only ever lists interface types. */
  ghost predicate ListsOnlyInterfaces(refl: Reflection)
  {
    forall c: TypeId, i: TypeId :: i in refl.interfaces(c) ==> refl.isInterface(i)
  }

  /** Class c implements interface i, as GetInterfaces() lists it, so a bulk scan registers c for i. */
  predicate Declares(refl: Reflection, c: TypeId, i: TypeId)
  {
    refl.isClass(c) && i in refl.interfaces(c)
  }

  /** The exceptions the container's operations can raise, and the model's depth bound. */
  datatype Error =
    | NotAnInterface(t: TypeId)   // "{t} is not an interface"
    | NotRegistered(t: TypeId)    // "Dependency for {t} Not registered"
    | NoCtor(t: TypeId)           // "Constructor for {t} Not Found"
    | AmbiguousCtor               // SingleOrDefault on two or more constructors; names no type
    | ArgumentMismatch(param: TypeId, given: TypeId)
                                  // ConstructorInfo.Invoke: an argument of runtime type
                                  // `given` cannot be passed as parameter type `param`
    | InvalidCast(target: TypeId) // the (T) cast of a typed resolve
    | OutOfFuel                   // the depth bound was too small for this resolution

  /** The result of an operation that produces a value or fails. */
  datatype Result<T> = Ok(value: T) | Err(error: Error)

  /** The result of an operation that only has an effect or fails. */
  datatype Outcome = Pass | Fail(error: Error)
}
