/** What the current generator (TypeGenerator.ts, TsTypeGenerator.ts)
    produces before rendering, reconstructed from how those files build and
    read it: a `TypeEntryType` is a union of alternatives, each either a type
    name or a nested union, optionally rendered as an array. */
module GeneratedTypes {
  import opened StrapiTypes

  /** `string | TypeEntryType` */
  datatype Alt = Lit(text: string) | Group(alts: seq<Alt>, isArray: bool)

  /** One field of a generated shape. */
  datatype TypeEntry = TypeEntry(
    name: string,
    typeExpr: Alt,
    isRequired: bool,
    isOptional: bool,
    isPrivate: bool)

  /** A read or write ("send") shape of a collection, the registry shape, or an
      enum extracted from an `enumeration` attribute. Only shapes built for
      content types carry a plural name. */
  datatype GeneratedType =
    | Shape(id: string, name: string, pluralName: Option<string>, isToSend: bool, entries: seq<TypeEntry>)
    | Enum(name: string, values: seq<string>)

  /** The sort key of `getTypes`. */
  function NameOf(t: GeneratedType): string
  {
    t.name
  }
}
