/** `MfcServiceAttribute`: the marker placed on a class to have it
    registered automatically. It carries a lifetime and an optional service
    type; both are fixed when the attribute is constructed. */
module MfcService {
  import opened Wrappers
  import opened DependencyInjection

  /** The attribute's two get-only properties. A `None` service type means
      "register the class under its own type". */
  datatype MfcServiceAttribute = MfcServiceAttribute(
    serviceLifetime: ServiceLifetime,
    serviceType: Option<TypeId>)

  /** The primary constructor, with the source's default arguments:
      lifetime `Scoped` and no service type. */
  function New(serviceLifetime: ServiceLifetime := Scoped, serviceType: Option<TypeId> := None): (a: MfcServiceAttribute)
    ensures a.serviceLifetime == serviceLifetime
    ensures a.serviceType == serviceType
  {
    MfcServiceAttribute(serviceLifetime, serviceType)
  }

  /** `[MfcService]` with no arguments registers the class itself as Scoped. */
  lemma DefaultArguments()
    ensures New().serviceLifetime == Scoped
    ensures New().serviceType == None
    ensures forall lifetime: ServiceLifetime :: New(lifetime).serviceType == None
  {
  }
}
