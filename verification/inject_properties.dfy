/** What the registrar promises, stated against reference definitions that
    are independent of its loop structure: the marked public classes of an
    assembly in enumeration order, and the one descriptor each of them is
    owed. */
module InjectProperties {
  import opened Wrappers
  import opened DependencyInjection
  import opened MfcService
  import opened Reflection
  import opened InjectExtensions

  /** A type that declares the attribute, paired with that attribute. */
  datatype MarkedClass = MarkedClass(info: TypeInfo, attribute: MfcServiceAttribute)

  /** A type the registrar acts on: a public class declaring the attribute. */
  predicate IsMarkedPublicClass(t: TypeInfo)
  {
    IsPublicClass(t) && GetCustomAttribute(t).Some?
  }

  /** The attribute asks for a lifetime the dispatch knows. */
  predicate HasKnownLifetime(m: MarkedClass)
  {
    IsDefined(m.attribute.serviceLifetime)
  }

  /** The types of `types` that declare the attribute, in order: the `if`
      inside the loop body. */
  function Annotated(types: seq<TypeInfo>): (r: seq<MarkedClass>)
    ensures |r| <= |types|
  {
    if |types| == 0 then []
    else
      match GetCustomAttribute(types[0])
      case None => Annotated(types[1..])
      case Some(attribute) => [MarkedClass(types[0], attribute)] + Annotated(types[1..])
  }

  /** Reference: the marked public classes of an assembly, in enumeration
      order, as a single filter. */
  function MarkedClasses(assembly: Assembly): (r: seq<MarkedClass>)
    ensures |r| <= |assembly|
  {
    if |assembly| == 0 then []
    else if IsMarkedPublicClass(assembly[0]) then
      [MarkedClass(assembly[0], GetCustomAttribute(assembly[0]).value)] + MarkedClasses(assembly[1..])
    else MarkedClasses(assembly[1..])
  }

  /** The reference keeps exactly the marked public classes, each with the
      attribute it declares. */
  lemma {:induction false} MarkedClassesMembers(assembly: Assembly)
    ensures forall m :: m in MarkedClasses(assembly) ==>
              m.info in assembly && IsPublicClass(m.info) && GetCustomAttribute(m.info) == Some(m.attribute)
    ensures forall t :: t in assembly && IsMarkedPublicClass(t) ==>
              MarkedClass(t, GetCustomAttribute(t).value) in MarkedClasses(assembly)
  {
    if |assembly| > 0 {
      MarkedClassesMembers(assembly[1..]);
      assert assembly == [assembly[0]] + assembly[1..];
    }
  }

  /** Reference: the descriptor a marked class is owed. */
  function DescriptorFor(m: MarkedClass): ServiceDescriptor
  {
    OwedDescriptor(m.info.id, m.attribute)
  }

  /** One descriptor per marked class, in the same order. */
  function Descriptors(marked: seq<MarkedClass>): (r: seq<ServiceDescriptor>)
    ensures |r| == |marked|
  {
    if |marked| == 0 then [] else [DescriptorFor(marked[0])] + Descriptors(marked[1..])
  }

  /** The i-th descriptor is the one owed to the i-th marked class. */
  lemma {:induction false} DescriptorsAt(marked: seq<MarkedClass>)
    ensures forall i :: 0 <= i < |marked| ==> Descriptors(marked)[i] == DescriptorFor(marked[i])
  {
    if |marked| > 0 {
      DescriptorsAt(marked[1..]);
    }
  }

  /** The descriptors one successful scan of `assembly` appends. */
  function Registrations(assembly: Assembly): seq<ServiceDescriptor>
  {
    Descriptors(MarkedClasses(assembly))
  }

  /** Position of the first marked class whose lifetime the dispatch
      rejects, or the length when there is none. */
  function FirstInvalid(marked: seq<MarkedClass>): (k: nat)
    ensures k <= |marked|
    ensures forall i :: 0 <= i < k ==> HasKnownLifetime(marked[i])
    ensures k < |marked| ==> !HasKnownLifetime(marked[k])
  {
    if |marked| == 0 then 0
    else if !HasKnownLifetime(marked[0]) then 0
    else 1 + FirstInvalid(marked[1..])
  }

  /** No marked public class of the assembly carries an unknown lifetime. */
  predicate ScanSucceeds(assembly: Assembly)
  {
    forall t :: t in assembly && IsMarkedPublicClass(t) ==> IsDefined(GetCustomAttribute(t).value.serviceLifetime)
  }

  lemma {:induction false} ScanSucceedsIffNoInvalid(assembly: Assembly)
    ensures ScanSucceeds(assembly) <==> FirstInvalid(MarkedClasses(assembly)) == |MarkedClasses(assembly)|
  {
    if |assembly| > 0 {
      ScanSucceedsIffNoInvalid(assembly[1..]);
      assert assembly == [assembly[0]] + assembly[1..];
      if IsMarkedPublicClass(assembly[0]) {
        assert MarkedClasses(assembly)[1..] == MarkedClasses(assembly[1..]);
      }
    }
  }

  // ---- the loop of one assembly ----

  /** Outcome `r` of a loop started on `services` agrees with the
      reference for the marked classes `marked`: it appends their
      descriptors, in order, up to (not including) the first one with an
      unknown lifetime, and completes exactly when there is no such class. */
  ghost predicate MatchesReference(r: Outcome, services: ServiceCollection, marked: seq<MarkedClass>)
  {
    var k := FirstInvalid(marked);
    && (r.Returned? <==> k == |marked|)
    && r.services == services + Descriptors(marked[..k])
  }

  /** The `foreach` over `types` agrees with the reference. */
  lemma {:induction false} InjectEachSpec(services: ServiceCollection, types: seq<TypeInfo>)
    ensures MatchesReference(InjectEach(services, types), services, Annotated(types))
    decreases |types|
  {
    if |types| == 0 {
      assert Annotated(types) == [];
    } else {
      match GetCustomAttribute(types[0])
      case None =>
        InjectEachSpec(services, types[1..]);
      case Some(attribute) =>
        var m := MarkedClass(types[0], attribute);
        if !HasKnownLifetime(m) {
          InjectEachThrows(services, types, m);
        } else {
          var next := services + [DescriptorFor(m)];
          InjectEachSpec(next, types[1..]);
          InjectEachKeeps(services, types, m);
          MatchesReferenceCons(InjectEach(next, types[1..]), services, m, Annotated(types[1..]));
        }
    }
  }

  /** The first type is annotated with an unknown lifetime: nothing is
      appended and the loop throws. */
  lemma {:induction false} InjectEachThrows(services: ServiceCollection, types: seq<TypeInfo>, m: MarkedClass)
    requires |types| > 0 && GetCustomAttribute(types[0]).Some?
    requires m == MarkedClass(types[0], GetCustomAttribute(types[0]).value) && !HasKnownLifetime(m)
    ensures InjectEach(services, types) == Threw(services, ArgumentOutOfRange)
    ensures MatchesReference(InjectEach(services, types), services, Annotated(types))
  {
  }

  /** The first type is annotated with a known lifetime: its descriptor is
      appended and the loop carries on with the rest. */
  lemma {:induction false} InjectEachKeeps(services: ServiceCollection, types: seq<TypeInfo>, m: MarkedClass)
    requires |types| > 0 && GetCustomAttribute(types[0]).Some?
    requires m == MarkedClass(types[0], GetCustomAttribute(types[0]).value) && HasKnownLifetime(m)
    ensures InjectEach(services, types) == InjectEach(services + [DescriptorFor(m)], types[1..])
    ensures Annotated(types) == [m] + Annotated(types[1..])
  {
  }

  /** A leading marked class with a known lifetime contributes its
      descriptor ahead of the rest's. */
  lemma MatchesReferenceCons(r: Outcome, services: ServiceCollection, m: MarkedClass, rest: seq<MarkedClass>)
    requires HasKnownLifetime(m)
    requires MatchesReference(r, services + [DescriptorFor(m)], rest)
    ensures MatchesReference(r, services, [m] + rest)
  {
    var k := FirstInvalid(rest);
    var d := DescriptorFor(m);
    var tail := Descriptors(rest[..k]);
    FirstInvalidCons(m, rest);
    assert ([m] + rest)[..k + 1] == [m] + rest[..k];
    DescriptorsCons(m, rest[..k]);
    assert Descriptors(([m] + rest)[..k + 1]) == [d] + tail;
    assert (services + [d]) + tail == services + ([d] + tail);
  }

  lemma {:induction false} FirstInvalidCons(m: MarkedClass, rest: seq<MarkedClass>)
    requires HasKnownLifetime(m)
    ensures FirstInvalid([m] + rest) == FirstInvalid(rest) + 1
  {
  }

  lemma {:induction false} DescriptorsCons(m: MarkedClass, rest: seq<MarkedClass>)
    ensures Descriptors([m] + rest) == [DescriptorFor(m)] + Descriptors(rest)
  {
  }

  /** Keeping the attributed public classes in two steps is the same as
      keeping the marked public classes in one. */
  lemma {:induction false} AnnotatedPublicClasses(assembly: Assembly)
    ensures Annotated(PublicClasses(assembly)) == MarkedClasses(assembly)
  {
    if |assembly| > 0 {
      AnnotatedPublicClasses(assembly[1..]);
      var head := if IsPublicClass(assembly[0]) then [assembly[0]] else [];
      assert PublicClasses(assembly) == head + PublicClasses(assembly[1..]);
      AnnotatedAppend(head, PublicClasses(assembly[1..]));
      if IsPublicClass(assembly[0]) {
        assert head[1..] == [];
      }
    }
  }

  lemma {:induction false} AnnotatedAppend(a: seq<TypeInfo>, b: seq<TypeInfo>)
    ensures Annotated(a + b) == Annotated(a) + Annotated(b)
  {
    if |a| > 0 {
      assert (a + b)[0] == a[0];
      assert (a + b)[1..] == a[1..] + b;
      AnnotatedAppend(a[1..], b);
    } else {
      assert a + b == b;
    }
  }

  // ---- one assembly ----

  /** Scanning one assembly: it completes exactly when every marked public
      class asks for a known lifetime, and then it has appended one
      descriptor per marked public class, in enumeration order. Otherwise it
      throws at the first bad class, after appending the descriptors of the
      marked classes before it and nothing for that class. */
  lemma AddFromAssemblySpec(services: ServiceCollection, assembly: Assembly)
    ensures var r := AddMfcServicesFromAssembly(services, assembly);
            var marked := MarkedClasses(assembly);
            var k := FirstInvalid(marked);
            && (r.Returned? <==> ScanSucceeds(assembly))
            && (r.Returned? ==> r.services == services + Registrations(assembly))
            && (r.Threw? ==> k < |marked| && r.services == services + Descriptors(marked[..k]))
  {
    var marked := MarkedClasses(assembly);
    AnnotatedPublicClasses(assembly);
    InjectEachSpec(services, PublicClasses(assembly));
    ScanSucceedsIffNoInvalid(assembly);
    assert marked[..|marked|] == marked;
  }

  /** Counting form: a completed scan appends exactly as many descriptors
      as there are marked public classes, the i-th one for the i-th class,
      with the class's lifetime and its service type or itself. */
  lemma RegistrationPerMarkedClass(services: ServiceCollection, assembly: Assembly)
    requires ScanSucceeds(assembly)
    ensures var r := AddMfcServicesFromAssembly(services, assembly);
            var marked := MarkedClasses(assembly);
            && r.Returned?
            && |r.services| == |services| + |marked|
            && r.services[..|services|] == services
            && forall i :: 0 <= i < |marked| ==>
                 && r.services[|services| + i].implementationType == marked[i].info.id
                 && r.services[|services| + i].lifetime == marked[i].attribute.serviceLifetime
                 && r.services[|services| + i].serviceType == marked[i].attribute.serviceType.GetOr(marked[i].info.id)
  {
    AddFromAssemblySpec(services, assembly);
    DescriptorsAt(MarkedClasses(assembly));
  }

  /** Two assemblies with the same marked public classes in the same order
      give the same outcome. */
  lemma OutcomeDependsOnlyOnMarked(services: ServiceCollection, a: Assembly, b: Assembly)
    requires MarkedClasses(a) == MarkedClasses(b)
    ensures AddMfcServicesFromAssembly(services, a) == AddMfcServicesFromAssembly(services, b)
  {
    AddFromAssemblySpec(services, a);
    AddFromAssemblySpec(services, b);
    ScanSucceedsIffNoInvalid(a);
    ScanSucceedsIffNoInvalid(b);
  }

  lemma {:induction false} MarkedClassesAppend(a: Assembly, b: Assembly)
    ensures MarkedClasses(a + b) == MarkedClasses(a) + MarkedClasses(b)
  {
    if |a| > 0 {
      assert (a + b)[0] == a[0];
      assert (a + b)[1..] == a[1..] + b;
      MarkedClassesAppend(a[1..], b);
    } else {
      assert a + b == b;
    }
  }

  /** A type that is not a class, not public, or declares no attribute of
      its own adds nothing wherever it sits in the assembly, even when it is
      annotated. */
  lemma IgnoredTypeAddsNothing(services: ServiceCollection, before: Assembly, t: TypeInfo, after: Assembly)
    requires !t.isClass || !t.isPublic || GetCustomAttribute(t).None?
    ensures AddMfcServicesFromAssembly(services, before + [t] + after)
         == AddMfcServicesFromAssembly(services, before + after)
  {
    MarkedClassesAppend(before, [t]);
    MarkedClassesAppend(before + [t], after);
    MarkedClassesAppend(before, after);
    assert MarkedClasses([t]) == [];
    OutcomeDependsOnlyOnMarked(services, before + [t] + after, before + after);
  }

  /** Every appended descriptor is the one owed to some marked public class
      of the scanned assembly, whether the scan completed or threw. */
  lemma RegistrationsTraceToMarkedClass(services: ServiceCollection, assembly: Assembly)
    ensures var r := AddMfcServicesFromAssembly(services, assembly);
            forall i :: |services| <= i < |r.services| ==>
              exists m :: m in MarkedClasses(assembly) && r.services[i] == DescriptorFor(m)
  {
    var r := AddMfcServicesFromAssembly(services, assembly);
    var marked := MarkedClasses(assembly);
    var k := FirstInvalid(marked);
    AddFromAssemblySpec(services, assembly);
    ScanSucceedsIffNoInvalid(assembly);
    if r.Returned? {
      assert marked[..k] == marked;
    }
    assert r.services == services + Descriptors(marked[..k]);
    DescriptorsAt(marked[..k]);
    forall i | |services| <= i < |r.services|
      ensures exists m :: m in marked && r.services[i] == DescriptorFor(m)
    {
      var j := i - |services|;
      assert marked[j] in marked;
      assert r.services[i] == DescriptorFor(marked[j]);
    }
  }

  /** The attribute is not inherited: a class is registered only through an
      attribute it declares itself, so a subclass of a marked class that
      declares none gets no registration. */
  lemma UnmarkedClassNotRegistered(services: ServiceCollection, assembly: Assembly, c: TypeId)
    requires forall t :: t in assembly && t.id == c ==> t.attribute.None?
    ensures var r := AddMfcServicesFromAssembly(services, assembly);
            forall i :: |services| <= i < |r.services| ==> r.services[i].implementationType != c
  {
    RegistrationsTraceToMarkedClass(services, assembly);
    MarkedClassesMembers(assembly);
  }

  /** The attribute is not inherited: a subclass that declares no
      `[MfcService]` of its own is never registered, even though its base
      class is a marked class of the same assembly. */
  lemma SubclassOfMarkedNotRegistered(services: ServiceCollection, assembly: Assembly, sub: TypeInfo, base: TypeInfo)
    requires sub in assembly && base in assembly
    requires sub.baseType == Some(base.id) && base.attribute.Some?
    requires forall t :: t in assembly && t.id == sub.id ==> t.attribute.None?
    ensures var r := AddMfcServicesFromAssembly(services, assembly);
            forall i :: |services| <= i < |r.services| ==> r.services[i].implementationType != sub.id
  {
    UnmarkedClassNotRegistered(services, assembly, sub.id);
  }

  // ---- several assemblies ----

  predicate AllScansSucceed(assemblies: seq<Assembly>)
  {
    forall a :: a in assemblies ==> ScanSucceeds(a)
  }

  /** Reference: the registrations of each assembly, concatenated in the
      order given. */
  function AllRegistrations(assemblies: seq<Assembly>): seq<ServiceDescriptor>
  {
    if |assemblies| == 0 then [] else Registrations(assemblies[0]) + AllRegistrations(assemblies[1..])
  }

  /** The descriptors a throwing scan of `assembly` leaves behind: those of
      the marked classes ahead of the first one with an unknown lifetime. */
  function RegistrationsBeforeThrow(assembly: Assembly): seq<ServiceDescriptor>
  {
    var marked := MarkedClasses(assembly);
    Descriptors(marked[..FirstInvalid(marked)])
  }

  /** Position of the first assembly whose scan throws, or the length when
      there is none. */
  function FirstFailingScan(assemblies: seq<Assembly>): (j: nat)
    ensures j <= |assemblies|
  {
    if |assemblies| == 0 then 0
    else if !ScanSucceeds(assemblies[0]) then 0
    else 1 + FirstFailingScan(assemblies[1..])
  }

  /** Every assembly before `FirstFailingScan` scans cleanly, and the one at
      it, if any, does not. */
  lemma {:induction false} FirstFailingScanIsFirst(assemblies: seq<Assembly>)
    ensures var j := FirstFailingScan(assemblies);
            && (forall i :: 0 <= i < j ==> ScanSucceeds(assemblies[i]))
            && (j < |assemblies| ==> !ScanSucceeds(assemblies[j]))
  {
    if |assemblies| > 0 && ScanSucceeds(assemblies[0]) {
      FirstFailingScanIsFirst(assemblies[1..]);
    }
  }

  /** Scanning several assemblies completes exactly when each of their scans
      would, and then appends every assembly's registrations in turn. */
  lemma {:induction false} AddFromAssembliesSpec(services: ServiceCollection, assemblies: seq<Assembly>)
    ensures var r := AddMfcServicesFromAssemblies(services, assemblies);
            && (r.Returned? <==> AllScansSucceed(assemblies))
            && (r.Returned? ==> r.services == services + AllRegistrations(assemblies))
    decreases |assemblies|
  {
    if |assemblies| > 0 {
      var rest := assemblies[1..];
      AddFromAssemblySpec(services, assemblies[0]);
      assert assemblies == [assemblies[0]] + rest;
      match AddMfcServicesFromAssembly(services, assemblies[0])
      case Threw(_, _) =>
      case Returned(next) =>
        AddFromAssembliesSpec(next, rest);
    }
  }

  /** Scanning several assemblies throws exactly when some assembly's scan
      would. The collection then keeps the registrations of every assembly
      before the first failing one, followed by those of that assembly's
      marked classes ahead of its first bad one. */
  lemma {:induction false} AddFromAssembliesThrows(services: ServiceCollection, assemblies: seq<Assembly>)
    ensures var r := AddMfcServicesFromAssemblies(services, assemblies);
            var j := FirstFailingScan(assemblies);
            && (r.Threw? <==> j < |assemblies|)
            && (r.Threw? ==>
                  j < |assemblies| &&
                  r.services == services + AllRegistrations(assemblies[..j]) + RegistrationsBeforeThrow(assemblies[j]))
    decreases |assemblies|
  {
    if |assemblies| > 0 {
      var rest := assemblies[1..];
      AddFromAssemblySpec(services, assemblies[0]);
      match AddMfcServicesFromAssembly(services, assemblies[0])
      case Threw(_, _) =>
        assert FirstFailingScan(assemblies) == 0;
        assert AllRegistrations(assemblies[..0]) == [];
      case Returned(next) =>
        assert FirstFailingScan(assemblies) == 1 + FirstFailingScan(rest);
        AddFromAssembliesThrows(next, rest);
        AllRegistrationsPrefixCons(assemblies, FirstFailingScan(rest));
    }
  }

  lemma {:induction false} AllRegistrationsPrefixCons(assemblies: seq<Assembly>, j: nat)
    requires j < |assemblies|
    ensures AllRegistrations(assemblies[..j + 1]) == Registrations(assemblies[0]) + AllRegistrations(assemblies[1..][..j])
  {
    assert assemblies[..j + 1][1..] == assemblies[1..][..j];
  }

  /** A list of one assembly is scanned exactly as that assembly alone,
      whether the scan returns or throws. */
  lemma {:induction false} OneAssembly(services: ServiceCollection, a: Assembly)
    ensures AddMfcServicesFromAssemblies(services, [a]) == AddMfcServicesFromAssembly(services, a)
  {
  }

  /** Scanning `first + second` is scanning `first`, then, if that
      completed, scanning `second` on the resulting collection. */
  lemma {:induction false} AddFromAssembliesAppend(services: ServiceCollection, first: seq<Assembly>, second: seq<Assembly>)
    ensures AddMfcServicesFromAssemblies(services, first + second)
         == match AddMfcServicesFromAssemblies(services, first)
            case Threw(partial, e) => Threw(partial, e)
            case Returned(next) => AddMfcServicesFromAssemblies(next, second)
    decreases |first|
  {
    if |first| == 0 {
      assert first + second == second;
    } else {
      assert (first + second)[0] == first[0];
      assert (first + second)[1..] == first[1..] + second;
      match AddMfcServicesFromAssembly(services, first[0])
      case Threw(_, _) =>
      case Returned(next) =>
        AddFromAssembliesAppend(next, first[1..], second);
    }
  }

  /** When every marked public class of both A and B has a known lifetime,
      `[A, B]` registers A's marked classes and then B's. */
  lemma TwoAssembliesInOrder(services: ServiceCollection, a: Assembly, b: Assembly)
    requires ScanSucceeds(a) && ScanSucceeds(b)
    ensures AddMfcServicesFromAssemblies(services, [a, b])
         == Returned(services + Registrations(a) + Registrations(b))
  {
    AddFromAssembliesSpec(services, [a, b]);
    assert [a, b][1..] == [b];
    assert [b][1..] == [];
    assert AllRegistrations([b]) == Registrations(b) + AllRegistrations([]);
    assert AllRegistrations([a, b]) == Registrations(a) + AllRegistrations([b]);
  }

  /** Duplicates pass through: when every marked public class has a known
      lifetime, scanning one assembly twice, through either entry point,
      registers each marked class twice. */
  lemma ScanningTwiceDuplicates(services: ServiceCollection, a: Assembly)
    requires ScanSucceeds(a)
    ensures AddMfcServicesFromAssemblies(services, [a, a])
         == Returned(services + Registrations(a) + Registrations(a))
    ensures AddMfcServicesFromAssembly(AddMfcServicesFromAssembly(services, a).services, a)
         == Returned(services + Registrations(a) + Registrations(a))
  {
    TwoAssembliesInOrder(services, a, a);
    AddFromAssemblySpec(services, a);
    AddFromAssemblySpec(services + Registrations(a), a);
  }
}
