/** The registration rule of `singleton<T>` (include/singleton.hpp): one
    static `instance_` pointer per type `T`. */
module Singleton {
  import opened Wrappers

  /** A type `T` the template is instantiated with. */
  type TypeName = string

  /** The address of a constructed object. */
  type ObjectId = nat

  /** The `instance_` pointers of all instantiations; a missing key is a
      null pointer. */
  datatype Registry = Registry(instances: map<TypeName, ObjectId>)

  /** Every `instance_` starts out null. */
  function Empty(): (r: Registry)
    ensures forall t :: t !in r.instances
  {
    Registry(map[])
  }

  /** The message of the exception a second construction throws. */
  const SecondInstanceError: string := "Second instance not allowed for singleton"

  /** The registry after a construction attempt, and the exception, if one
      was thrown. */
  datatype Attempt = Attempt(registry: Registry, error: Option<string>)

  /** The constructor of `singleton<T>` for object `obj`. The base `T`
      is built first: `baseError` is the exception its constructor throws,
      if any, and it escapes before `instance_` is looked at. Only a base
      that was built is then checked against an existing instance. A
      throwing constructor leaves the registry as it was: `~singleton()`
      does not run for the half-built object. */
  function Construct(reg: Registry, t: TypeName, obj: ObjectId, baseError: Option<string>): (r: Attempt)
    ensures r.error.Some? <==> baseError.Some? || t in reg.instances
    ensures baseError.Some? ==> r.error == baseError
    ensures baseError.None? && t in reg.instances ==> r.error == Some(SecondInstanceError)
    ensures r.error.Some? ==> r.registry == reg
    ensures r.error.None? ==> r.registry.instances == reg.instances[t := obj]
  {
    if baseError.Some? then Attempt(reg, baseError)
    else if t in reg.instances then Attempt(reg, Some(SecondInstanceError))
    else Attempt(Registry(reg.instances[t := obj]), None)
  }

  /** `~singleton()`: resets the type's pointer to null. */
  function Destroy(reg: Registry, t: TypeName): (r: Registry)
    ensures t !in r.instances
    ensures forall u :: u != t ==> (u in r.instances <==> u in reg.instances)
    ensures forall u :: u != t && u in reg.instances ==> r.instances[u] == reg.instances[u]
  {
    Registry(reg.instances - {t})
  }

  /** `instance()`: the registered object; `None` is the null pointer the
      C++ code would dereference. */
  function Instance(reg: Registry, t: TypeName): (r: Option<ObjectId>)
    ensures r.Some? <==> t in reg.instances
    ensures r.Some? ==> r.value == reg.instances[t]
  {
    if t in reg.instances then Some(reg.instances[t]) else None
  }

  /** A construction whose base is built, for a type with no instance,
      makes its object the instance. */
  lemma ConstructRegisters(reg: Registry, t: TypeName, obj: ObjectId)
    requires Instance(reg, t).None?
    ensures Construct(reg, t, obj, None).error.None?
    ensures Instance(Construct(reg, t, obj, None).registry, t) == Some(obj)
  {
  }

  /** A construction whose base throws leaves every instance as it was,
      whether or not the type already had one. */
  lemma BaseFailureRegistersNothing(reg: Registry, t: TypeName, obj: ObjectId, err: string)
    ensures Construct(reg, t, obj, Some(err)).error == Some(err)
    ensures forall u :: Instance(Construct(reg, t, obj, Some(err)).registry, u) == Instance(reg, u)
  {
  }

  /** A second construction throws and the first object stays registered;
      the exception is the fixed message unless the second base threw
      its own first. */
  lemma SecondConstructionFails(reg: Registry, t: TypeName, first: ObjectId, second: ObjectId,
                                secondBase: Option<string>)
    requires Instance(reg, t).None?
    ensures var a := Construct(Construct(reg, t, first, None).registry, t, second, secondBase);
      && a.error.Some?
      && (secondBase.None? ==> a.error == Some(SecondInstanceError))
      && Instance(a.registry, t) == Some(first)
  {
  }

  /** After destruction a new object can be constructed. */
  lemma DestroyThenConstruct(reg: Registry, t: TypeName, obj: ObjectId)
    ensures Construct(Destroy(reg, t), t, obj, None).error.None?
    ensures Instance(Construct(Destroy(reg, t), t, obj, None).registry, t) == Some(obj)
  {
  }

  /** Instantiations for different types do not interfere. */
  lemma TypesIndependent(reg: Registry, t: TypeName, u: TypeName, obj: ObjectId, baseError: Option<string>)
    requires t != u
    ensures Instance(Construct(reg, t, obj, baseError).registry, u) == Instance(reg, u)
    ensures Instance(Destroy(reg, t), u) == Instance(reg, u)
  {
  }
}
