/** A worked assembly: a default-marked service, an interface mapping, an
    unmarked helper, an unmarked subclass of a marked class, and a marked
    interface (which the compiler would refuse, but the scan skips anyway). */
module Scenarios {
  import opened Wrappers
  import opened DependencyInjection
  import opened MfcService
  import opened Reflection
  import opened InjectExtensions
  import opened InjectProperties

  /** `[MfcService] public class OrderService`,
      `[MfcService(ServiceLifetime.Transient)] public interface IEmailSender`,
      `[MfcService(ServiceLifetime.Singleton, typeof(IEmailSender))] public class SmtpEmailSender : IEmailSender`,
      `public class Utility`, and
      `public class PriorityOrderService : OrderService`, for any choice of
      type identities. */
  function Sample(orderService: TypeId, emailSender: TypeId, smtpEmailSender: TypeId, utility: TypeId, priorityOrderService: TypeId): Assembly
  {
    [ TypeInfo(orderService, true, true, None, Some(New())),
      TypeInfo(emailSender, false, true, None, Some(New(Transient))),
      TypeInfo(smtpEmailSender, true, true, None, Some(New(Singleton, Some(emailSender)))),
      TypeInfo(utility, true, true, None, None),
      TypeInfo(priorityOrderService, true, true, Some(orderService), None) ]
  }

  /** `OrderService` is registered as itself with the default Scoped
      lifetime, `IEmailSender` maps to `SmtpEmailSender` as a Singleton, and
      nothing else is registered. */
  lemma SampleRegistrations(services: ServiceCollection, o: TypeId, e: TypeId, s: TypeId, u: TypeId, p: TypeId)
    ensures AddMfcServicesFromAssembly(services, Sample(o, e, s, u, p))
         == Returned(services + [ ServiceDescriptor(o, o, Scoped), ServiceDescriptor(e, s, Singleton) ])
  {
    var a := Sample(o, e, s, u, p);
    var m0 := MarkedClass(a[0], New());
    var m2 := MarkedClass(a[2], New(Singleton, Some(e)));
    SampleMarkedClasses(o, e, s, u, p);
    assert [m0, m2][1..] == [m2];
    assert [m2][1..] == [];
    assert FirstInvalid([m0, m2]) == 2;
    ScanSucceedsIffNoInvalid(a);
    AddFromAssemblySpec(services, a);
    assert Descriptors([m2]) == [DescriptorFor(m2)];
    assert Descriptors([m0, m2]) == [DescriptorFor(m0)] + Descriptors([m2]);
  }

  /** Only `OrderService` and `SmtpEmailSender` are marked public classes:
      the interface is skipped although annotated, and the subclass of
      `OrderService` does not inherit its attribute. */
  lemma SampleMarkedClasses(o: TypeId, e: TypeId, s: TypeId, u: TypeId, p: TypeId)
    ensures var a := Sample(o, e, s, u, p);
            MarkedClasses(a) == [ MarkedClass(a[0], New()), MarkedClass(a[2], New(Singleton, Some(e))) ]
  {
    var a := Sample(o, e, s, u, p);
    var m2 := MarkedClass(a[2], New(Singleton, Some(e)));
    assert MarkedClasses(a[4..]) == [] by { assert a[4..][1..] == []; }
    assert MarkedClasses(a[3..]) == [] by { assert a[3..][1..] == a[4..]; }
    assert MarkedClasses(a[2..]) == [m2] by { assert a[2..][1..] == a[3..]; }
    assert MarkedClasses(a[1..]) == [m2] by { assert a[1..][1..] == a[2..]; }
  }

  /** `[MfcService] public class OrderService`,
      `[MfcService((ServiceLifetime)7)] public class BrokenService`, and
      `[MfcService(ServiceLifetime.Transient)] public class Utility`, in that
      order. */
  function BrokenSample(orderService: TypeId, brokenService: TypeId, utility: TypeId): Assembly
  {
    [ TypeInfo(orderService, true, true, None, Some(New())),
      TypeInfo(brokenService, true, true, None, Some(New(7 as ServiceLifetime))),
      TypeInfo(utility, true, true, None, Some(New(Transient))) ]
  }

  /** A marked class whose lifetime is none of the three named values makes
      the scan throw; the class before it has already been registered, and
      neither it nor the class after it is. */
  lemma UnknownLifetimeThrows(services: ServiceCollection, o: TypeId, b: TypeId, u: TypeId)
    ensures AddMfcServicesFromAssembly(services, BrokenSample(o, b, u))
         == Threw(services + [ServiceDescriptor(o, o, Scoped)], ArgumentOutOfRange)
  {
    var a := BrokenSample(o, b, u);
    var m0 := MarkedClass(a[0], New());
    var m1 := MarkedClass(a[1], New(7 as ServiceLifetime));
    var m2 := MarkedClass(a[2], New(Transient));
    assert MarkedClasses(a[2..]) == [m2] by { assert a[2..][1..] == []; }
    assert MarkedClasses(a[1..]) == [m1, m2] by { assert a[1..][1..] == a[2..]; }
    assert MarkedClasses(a) == [m0, m1, m2];
    assert [m0, m1, m2][1..] == [m1, m2];
    assert FirstInvalid([m0, m1, m2]) == 1;
    assert [m0, m1, m2][..1] == [m0];
    assert [m0][1..] == [];
    AddFromAssemblySpec(services, a);
    ScanSucceedsIffNoInvalid(a);
    assert Descriptors([m0]) == [DescriptorFor(m0)];
  }
}
