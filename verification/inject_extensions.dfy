/** `InjectExtensions`: scans assemblies for public classes carrying
    `MfcServiceAttribute` and appends one service descriptor per marked
    class to the service collection. */
module InjectExtensions {
  import opened Wrappers
  import opened DependencyInjection
  import opened MfcService
  import opened Reflection

  /** `ArgumentOutOfRangeException`, thrown for a lifetime outside the
      three named members. */
  datatype Exception = ArgumentOutOfRange

  /** How a call ends. The collection is mutated in place, so when an
      exception escapes, `services` is the collection as the caller sees it
      afterwards: whatever was appended before the throw stays there. */
  datatype Outcome =
    | Returned(services: ServiceCollection)
    | Threw(services: ServiceCollection, exception: Exception)

  /** The two `Where` filters of the scan: `t.IsClass` and `t.IsPublic`. */
  predicate IsPublicClass(t: TypeInfo)
  {
    t.isClass && t.isPublic
  }

  /** `assembly.GetTypes().Where(t => t.IsClass).Where(t => t.IsPublic).ToList()`:
      the public classes, in enumeration order. */
  function PublicClasses(types: seq<TypeInfo>): (r: seq<TypeInfo>)
    ensures |r| <= |types|
    ensures forall t :: t in r <==> t in types && IsPublicClass(t)
  {
    if |types| == 0 then []
    else
      assert types == [types[0]] + types[1..];
      (if IsPublicClass(types[0]) then [types[0]] else []) + PublicClasses(types[1..])
  }

  /** The descriptor a class marked with `attribute` is owed: keyed by the
      attribute's service type, or by the class itself when none is given,
      with the attribute's lifetime. */
  function OwedDescriptor(implementationType: TypeId, attribute: MfcServiceAttribute): ServiceDescriptor
  {
    ServiceDescriptor(attribute.serviceType.GetOr(implementationType), implementationType, attribute.serviceLifetime)
  }

  /** `InjectService`: the `switch` on the attribute's lifetime. Each named
      lifetime appends one descriptor, keyed by the attribute's service type
      when present and by the class itself otherwise; any other value
      throws before the collection is touched. */
  function InjectService(services: ServiceCollection, implementationType: TypeId, attribute: MfcServiceAttribute)
    : (r: Result<ServiceCollection, Exception>)
    ensures r.Success? <==> IsDefined(attribute.serviceLifetime)
    ensures r.Success? ==> r.value == services + [OwedDescriptor(implementationType, attribute)]
  {
    if attribute.serviceLifetime == Singleton then
      if attribute.serviceType.None? then
        Success(AddSingleton(services, implementationType, implementationType))
      else
        Success(AddSingleton(services, attribute.serviceType.value, implementationType))
    else if attribute.serviceLifetime == Scoped then
      if attribute.serviceType.None? then
        Success(AddScoped(services, implementationType, implementationType))
      else
        Success(AddScoped(services, attribute.serviceType.value, implementationType))
    else if attribute.serviceLifetime == Transient then
      if attribute.serviceType.None? then
        Success(AddTransient(services, implementationType, implementationType))
      else
        Success(AddTransient(services, attribute.serviceType.value, implementationType))
    else
      Failure(ArgumentOutOfRange)
  }

  /** The `foreach` over the public classes: look up each one's attribute
      and, when present, inject it. The first exception ends the loop. */
  function InjectEach(services: ServiceCollection, types: seq<TypeInfo>): (r: Outcome)
    ensures services <= r.services
    ensures |r.services| <= |services| + |types|
    decreases |types|
  {
    if |types| == 0 then Returned(services)
    else
      match GetCustomAttribute(types[0])
      case None => InjectEach(services, types[1..])
      case Some(attribute) =>
        match InjectService(services, types[0].id, attribute)
        case Failure(e) => Threw(services, e)
        case Success(next) => InjectEach(next, types[1..])
  }

  /** `AddMfcServicesFromAssembly`: register every marked public class of
      one assembly; the same collection is handed back. */
  function AddMfcServicesFromAssembly(services: ServiceCollection, assembly: Assembly): (r: Outcome)
    ensures services <= r.services
    ensures |r.services| <= |services| + |assembly|
  {
    InjectEach(services, PublicClasses(assembly))
  }

  /** `AddMfcServicesFromAssemblies`: scan each assembly in the order
      given, with no de-duplication; an exception from any of them
      propagates. */
  function AddMfcServicesFromAssemblies(services: ServiceCollection, assemblies: seq<Assembly>): (r: Outcome)
    ensures services <= r.services
    decreases |assemblies|
  {
    if |assemblies| == 0 then Returned(services)
    else
      match AddMfcServicesFromAssembly(services, assemblies[0])
      case Threw(partial, e) => Threw(partial, e)
      case Returned(next) => AddMfcServicesFromAssemblies(next, assemblies[1..])
  }
}
