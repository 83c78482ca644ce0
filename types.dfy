/**
 * The records the data map works on: systems of an inventory, each with the
 * privacy declarations that say which data categories it processes and for
 * which data use.
 */
module Types {

  /** One purpose-of-use statement of a system. */
  datatype PrivacyDeclaration = PrivacyDeclaration(
    dataCategories: seq<string>,  // dotted category paths, e.g. "user.derived.identifiable.location"
    dataSubjects: seq<string>,
    dataUse: string,
    name: string)

  /** A system of the inventory; `fidesKey` is its identity. */
  datatype System = System(
    description: string,
    fidesKey: string,
    name: string,
    privacyDeclarations: seq<PrivacyDeclaration>,
    systemDependencies: seq<string>,
    systemType: string)

  /** How the page groups systems into sections. */
  datatype LayoutMode = SystemType | DataUse

  /** The key of a system, as a function value for the generic sequence operations. */
  function KeyOf(s: System): string
  {
    s.fidesKey
  }
}
