/** The reflection facts the registrar reads about a type, and an assembly
    as the sequence of its types in `Assembly.GetTypes()` order. */
module Reflection {
  import opened Wrappers
  import opened DependencyInjection
  import opened MfcService

  /** What reflection reports about one type. `isPublic` is `Type.IsPublic`,
      which holds only for top-level public types (a public nested type has
      `IsNestedPublic` instead). `attribute` is the `MfcServiceAttribute`
      declared on this very type. `baseType` records the direct base class;
      the lookup never consults it, because `MfcServiceAttribute` itself is
      declared `Inherited = false`. */
  datatype TypeInfo = TypeInfo(
    id: TypeId,
    isClass: bool,
    isPublic: bool,
    baseType: Option<TypeId>,
    attribute: Option<MfcServiceAttribute>)

  type Assembly = seq<TypeInfo>

  /** `type.GetCustomAttribute<MfcServiceAttribute>()`: the attribute the
      type declares itself, or null. `MfcServiceAttribute` is declared with
      `Inherited = false`, so a base class's `MfcServiceAttribute` is never
      returned. Attributes derived from it are not modelled. */
  function GetCustomAttribute(t: TypeInfo): Option<MfcServiceAttribute>
  {
    t.attribute
  }
}
