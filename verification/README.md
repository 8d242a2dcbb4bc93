# Convention-based service registration, modelled in Dafny

This project models `Mfc.DependencyInjection.Extensions`. It is a registrar
that scans assemblies for public classes carrying `[MfcService]`. For each
such class it appends one service descriptor to an `IServiceCollection`. The
attribute sets the service lifetime, which defaults to Scoped, and an
optional service type, which defaults to the class itself.

Reflection and the container are foreign, so they are modelled abstractly:

- A runtime type is a `TypeInfo` record. It holds an identity, `IsClass`,
  `IsPublic`, a base type and the `MfcServiceAttribute` declared on the
  type itself, if any.
- An assembly is the sequence of its types in `GetTypes()` order.
- `IServiceCollection` is an append-only sequence of `ServiceDescriptor`s.
  `AddSingleton`, `AddScoped` and `AddTransient` each append exactly one
  descriptor. The one-argument overload `AddX(type)` is `AddX(type, type)`.
- `ServiceLifetime` is a 32-bit integer newtype with the named values
  Singleton = 0, Scoped = 1 and Transient = 2. A C# enum can hold any other
  value, so the `default:` branch that throws stays reachable.
- The registrar mutates the collection in place and returns that same
  collection. An `Outcome` records how a call ends: `Returned(services)`,
  or `Threw(services, ArgumentOutOfRange)` when the exception escapes.
  `services` is the collection as the caller sees it afterwards, so entries
  appended before a throw are still there.

Modules, one per concern:

- `Wrappers`: `Option` and `Result`.
- `DependencyInjection`: the lifetime enum, descriptors and the `AddX` calls.
- `MfcService`: the attribute and its constructor defaults.
- `Reflection`: type records and `GetCustomAttribute`.
- `InjectExtensions`: the three operations of the source.
- `InjectProperties`: reference definitions and the theorems that relate
  the operations to them.
- `InjectLoops`: the `foreach` loops as methods, proved equal to the
  functions.
- `Scenarios`: a worked assembly and a bad lifetime.

The reference side is independent of the loop structure:

- `MarkedClasses` keeps the marked public classes in a single filter.
- `DescriptorFor` gives the descriptor each marked class is owed:
  `(serviceType ?? class, class, lifetime)`.
- `FirstInvalid` finds the first marked class whose lifetime the dispatch
  rejects.

## Model

| member | source | states |
|---|---|---|
| MfcService.New | src/DiExtensions/MfcService.cs:11-14 | The constructor's defaults are lifetime Scoped and no service type. The get-only `ServiceLifetime` and `ServiceType` properties return exactly the constructor arguments. |
| MfcService.DefaultArguments | src/DiExtensions/MfcService.cs:8-11 | `[MfcService]` with no arguments means lifetime Scoped and no service type, that is, "register the class as itself". Giving only a lifetime also leaves the service type absent. |
| InjectExtensions.PublicClasses | src/DiExtensions/InjectExtensions.cs:31-34 | The scan keeps exactly the types that are both classes and public. It keeps no more types than the assembly has. |
| InjectExtensions.InjectService | src/DiExtensions/InjectExtensions.cs:53-90 | Dispatch succeeds exactly when the lifetime is Singleton, Scoped or Transient. It then appends one descriptor with that lifetime, keyed by the service type or by the class itself when none is given. Any other lifetime fails with `ArgumentOutOfRange`. |
| InjectExtensions.InjectEach | src/DiExtensions/InjectExtensions.cs:35-42 | The loop over the public classes only appends. The existing entries are an unchanged prefix, and at most one entry is added per visited type. |
| InjectExtensions.AddMfcServicesFromAssembly | src/DiExtensions/InjectExtensions.cs:29-44 | The collection handed back is the one given, with the existing entries an unchanged prefix, whether the call returns or throws. |
| InjectExtensions.AddMfcServicesFromAssemblies | src/DiExtensions/InjectExtensions.cs:14-21 | The collection handed back is the one given, with the existing entries an unchanged prefix. |
| InjectProperties.MarkedClassesMembers | src/DiExtensions/InjectExtensions.cs:31-41 | The reference list holds exactly the public classes that declare the attribute, each paired with its own attribute. |
| InjectProperties.FirstInvalid | src/DiExtensions/InjectExtensions.cs:87-88 | Gives the position of the first marked class whose lifetime the dispatch rejects. Every class before it has a known lifetime. |
| InjectProperties.DescriptorsAt | src/DiExtensions/InjectExtensions.cs:35-42 | The i-th expected descriptor is the one owed to the i-th marked class. |
| InjectProperties.InjectEachSpec | src/DiExtensions/InjectExtensions.cs:35-42 | The loop appends the descriptors of the annotated types in order, stopping before the first one with an unknown lifetime. It completes exactly when there is no such type. |
| InjectProperties.AnnotatedPublicClasses | src/DiExtensions/InjectExtensions.cs:31-38 | Filtering to public classes and then checking for the attribute keeps the same list as the single reference filter. |
| InjectProperties.AddFromAssemblySpec | src/DiExtensions/InjectExtensions.cs:29-44 | A one-assembly scan completes exactly when every marked public class has a known lifetime. It then appends the reference registrations in enumeration order. Otherwise it throws at the first bad class, keeping what came before and adding nothing for that class. |
| InjectProperties.RegistrationPerMarkedClass | src/DiExtensions/InjectExtensions.cs:35-42 | For scans that complete, because every marked public class has a known lifetime: one descriptor is added per marked public class, and the count is equal. The i-th descriptor carries the i-th class, its lifetime, and its service type or the class itself. The old entries are untouched. |
| InjectProperties.MarkedClassesAppend | src/DiExtensions/InjectExtensions.cs:31-35 | The marked classes of `a + b` are those of `a` followed by those of `b`, so registration follows enumeration order. |
| InjectProperties.OutcomeDependsOnlyOnMarked | src/DiExtensions/InjectExtensions.cs:31-42 | Two assemblies with the same marked public classes, in the same order, give the same outcome. |
| InjectProperties.IgnoredTypeAddsNothing | src/DiExtensions/InjectExtensions.cs:31-41 | Inserting a non-class, non-public or unmarked type anywhere changes nothing, even when that type is annotated. |
| InjectProperties.RegistrationsTraceToMarkedClass | src/DiExtensions/InjectExtensions.cs:37-40 | Every appended descriptor is the one owed to some marked public class of the scanned assembly. |
| InjectProperties.UnmarkedClassNotRegistered | src/DiExtensions/MfcService.cs:10 | A class that declares no attribute itself, such as a subclass of a marked class, is never the implementation type of an appended descriptor. |
| InjectProperties.SubclassOfMarkedNotRegistered | src/DiExtensions/MfcService.cs:10 | A subclass whose base class is marked, but which declares no `[MfcService]` itself, is never the implementation type of an appended descriptor. This is not derived from `Inherited = false`: that flag is built into the `GetCustomAttribute` abstraction, which reads only the type's own attribute and never its base type. |
| InjectProperties.AddFromAssembliesSpec | src/DiExtensions/InjectExtensions.cs:14-21 | A multi-assembly scan completes exactly when every assembly's scan would. It then appends each assembly's registrations in the order given. |
| InjectProperties.FirstFailingScanIsFirst | src/DiExtensions/InjectExtensions.cs:16-19 | Every assembly before the computed position scans cleanly, and the assembly at that position, if any, does not. |
| InjectProperties.AddFromAssembliesThrows | src/DiExtensions/InjectExtensions.cs:16-19 | A multi-assembly scan throws exactly when some assembly's scan would. The collection then keeps the registrations of every assembly before the first failing one, then those of that assembly's marked classes ahead of its first bad lifetime. |
| InjectProperties.OneAssembly | src/DiExtensions/InjectExtensions.cs:16-19 | Scanning a one-element list is scanning that assembly alone, including the collection left after a throw. |
| InjectProperties.AddFromAssembliesAppend | src/DiExtensions/InjectExtensions.cs:16-19 | Scanning `first + second` means scanning `first` and then, if that completed, scanning `second` on the result. |
| InjectProperties.TwoAssembliesInOrder | src/DiExtensions/InjectExtensions.cs:16-19 | For scans that complete, because every marked public class of both A and B has a known lifetime: scanning `[A, B]` appends A's registrations and then B's. |
| InjectProperties.ScanningTwiceDuplicates | src/DiExtensions/InjectExtensions.cs:16-19 | For scans that complete, because every marked public class has a known lifetime: scanning one assembly twice, through either entry point, appends its registrations twice. Nothing is de-duplicated. |
| InjectLoops.RegisterAssembly | src/DiExtensions/InjectExtensions.cs:29-44 | The `foreach` loop over the public classes equals the functional definition and the reference. |
| InjectLoops.RegisterAssemblies | src/DiExtensions/InjectExtensions.cs:14-21 | The `foreach` loop over the assemblies equals the functional definition and the reference. |
| Scenarios.SampleRegistrations | src/DiExtensions/InjectExtensions.cs:55-86 | In the sample, `OrderService` is registered as itself with Scoped lifetime and `IEmailSender` maps to `SmtpEmailSender` as a Singleton. Nothing else is registered. |
| Scenarios.SampleMarkedClasses | src/DiExtensions/MfcService.cs:10 | An annotated interface is skipped, and a subclass of a marked class inherits nothing. |
| Scenarios.UnknownLifetimeThrows | src/DiExtensions/InjectExtensions.cs:87-88 | A lifetime of 7 throws. The class before it is already registered; neither it nor the class after it is. |

## Left out

- Reflection itself is not modelled. That covers `Assembly.GetTypes`, type-load failures and the generic `GetCustomAttribute<T>` lookup. Types are given as records in enumeration order.
- Dependency-injection internals are not modelled beyond appending a descriptor. There is no resolution, no check that the implementation is assignable to the service type, and no rule for which of several bindings wins.
- `AttributeUsage(AttributeTargets.Class)` is enforced by the C# compiler, not by the registrar. The model allows an annotated non-class and shows that the scan skips it.
- Attributes derived from `MfcServiceAttribute` are not modelled; a type carries at most one attribute, `MfcServiceAttribute` itself, as an `Option`. The class is not sealed, and `GetCustomAttribute<MfcServiceAttribute>()` also matches derived attributes with inheritance on. So the source has two effects the model lacks. A class with both `[MfcService]` and a derived attribute throws `AmbiguousMatchException`. A derived attribute that re-declares `AttributeUsage(Inherited = true)` is also found on subclasses, which are then registered.
- Reference identity of the returned `IServiceCollection` is modelled as the outcome carrying the mutated collection itself. Thread safety is the container's concern and is not modelled.
- `Type.IsPublic` is false for public nested types. The model takes `isPublic` as given, so such types are skipped as in the source.
- `params` and extension-method syntax are plumbing and are not modelled; the assemblies are a plain sequence.
