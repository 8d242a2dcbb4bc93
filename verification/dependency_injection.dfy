/** The part of Microsoft.Extensions.DependencyInjection the registrar uses:
    the `ServiceLifetime` enumeration, service descriptors, and the
    `AddSingleton` / `AddScoped` / `AddTransient` extension methods, each of
    which appends exactly one descriptor to an `IServiceCollection`. */
module DependencyInjection {

  /** Identity of a runtime type (`System.Type`). */
  type TypeId = nat

  /** A C# enum is a 32-bit integer and may hold any value of that range,
      not only its named members. */
  newtype ServiceLifetime = x: int | -0x8000_0000 <= x < 0x8000_0000

  const Singleton: ServiceLifetime := 0
  const Scoped: ServiceLifetime := 1
  const Transient: ServiceLifetime := 2

  /** The lifetime is one of the three named members of the enumeration. */
  predicate IsDefined(lifetime: ServiceLifetime)
  {
    lifetime == Singleton || lifetime == Scoped || lifetime == Transient
  }

  /** One registration: the key other components resolve against, the
      concrete class constructed, and how long an instance is reused. */
  datatype ServiceDescriptor = ServiceDescriptor(
    serviceType: TypeId,
    implementationType: TypeId,
    lifetime: ServiceLifetime)

  /** `IServiceCollection`: an ordered, append-only list of descriptors.
      Duplicate descriptors are kept. */
  type ServiceCollection = seq<ServiceDescriptor>

  function Add(services: ServiceCollection, descriptor: ServiceDescriptor): ServiceCollection
  {
    services + [descriptor]
  }

  /** `AddSingleton(serviceType, implementationType)`; the one-argument
      overload `AddSingleton(type)` is this with both types equal. */
  function AddSingleton(services: ServiceCollection, serviceType: TypeId, implementationType: TypeId): ServiceCollection
  {
    Add(services, ServiceDescriptor(serviceType, implementationType, Singleton))
  }

  /** `AddScoped(serviceType, implementationType)`, likewise. */
  function AddScoped(services: ServiceCollection, serviceType: TypeId, implementationType: TypeId): ServiceCollection
  {
    Add(services, ServiceDescriptor(serviceType, implementationType, Scoped))
  }

  /** `AddTransient(serviceType, implementationType)`, likewise. */
  function AddTransient(services: ServiceCollection, serviceType: TypeId, implementationType: TypeId): ServiceCollection
  {
    Add(services, ServiceDescriptor(serviceType, implementationType, Transient))
  }
}
