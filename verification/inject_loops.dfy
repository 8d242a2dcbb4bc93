/** The two entry points written as the source's `foreach` loops over a
    collection that grows in place, shown to agree with the functional
    definitions and with the reference. */
module InjectLoops {
  import opened DependencyInjection
  import opened Reflection
  import opened InjectExtensions
  import opened InjectProperties

  /** `AddMfcServicesFromAssembly` as a loop: filter the public classes,
      then visit them in order, injecting each one that carries the
      attribute; an exception leaves the loop with the collection as it
      stands. */
  method RegisterAssembly(services: ServiceCollection, assembly: Assembly) returns (r: Outcome)
    ensures r == AddMfcServicesFromAssembly(services, assembly)
    ensures r.Returned? <==> ScanSucceeds(assembly)
    ensures r.Returned? ==> r.services == services + Registrations(assembly)
  {
    var types := PublicClasses(assembly);
    var current := services;
    var i := 0;
    while i < |types|
      invariant 0 <= i <= |types|
      invariant InjectEach(current, types[i..]) == InjectEach(services, types)
    {
      assert types[i..][1..] == types[i + 1..];
      var attribute := GetCustomAttribute(types[i]);
      if attribute.Some? {
        var injected := InjectService(current, types[i].id, attribute.value);
        if injected.Failure? {
          AddFromAssemblySpec(services, assembly);
          return Threw(current, injected.error);
        }
        current := injected.value;
      }
      i := i + 1;
    }
    r := Returned(current);
    AddFromAssemblySpec(services, assembly);
  }

  /** `AddMfcServicesFromAssemblies` as a loop over the assemblies in the
      order given. */
  method RegisterAssemblies(services: ServiceCollection, assemblies: seq<Assembly>) returns (r: Outcome)
    ensures r == AddMfcServicesFromAssemblies(services, assemblies)
    ensures r.Returned? <==> AllScansSucceed(assemblies)
    ensures r.Returned? ==> r.services == services + AllRegistrations(assemblies)
  {
    var current := services;
    var i := 0;
    while i < |assemblies|
      invariant 0 <= i <= |assemblies|
      invariant AddMfcServicesFromAssemblies(current, assemblies[i..]) == AddMfcServicesFromAssemblies(services, assemblies)
    {
      assert assemblies[i..][1..] == assemblies[i + 1..];
      var scanned := RegisterAssembly(current, assemblies[i]);
      if scanned.Threw? {
        AddFromAssembliesSpec(services, assemblies);
        return scanned;
      }
      current := scanned.services;
      i := i + 1;
    }
    r := Returned(current);
    AddFromAssembliesSpec(services, assemblies);
  }
}
