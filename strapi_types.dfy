/** The schema descriptors the remote service returns (src/strapi-types.ts),
    reduced to the fields the generator reads. */
module StrapiTypes {

  datatype Option<+T> = None | Some(value: T)
  {
    function GetOr(default: T): T
    {
      match this
      case Some(v) => v
      case None => default
    }
  }

  /** One attribute of a schema. `kind` is the descriptor's `type` string; the
      generator looks at the kind-specific fields only for the matching kind:
      `relation`/`target` for "relation", `component`/`repeatable` for
      "component", `components` for "dynamiczone", `enumValues` (the `enum`
      list) for "enumeration". An absent `required` or `private` flag reads as
      false; `hasDefault` says whether a `default` is present. */
  datatype Attribute = Attribute(
    kind: string,
    required: bool,
    hasDefault: bool,
    isPrivate: bool,
    relation: string,
    target: Option<string>,
    component: string,
    repeatable: bool,
    components: seq<string>,
    enumValues: seq<string>)

  /** A content type carries the schema's `pluralName`; a component has none. */
  datatype CollectionKind = ContentTypeKind(pluralName: string) | ComponentKind

  /** A content type or a component: its `uid`, optional `plugin`, the schema's
      `displayName` and its attributes in the order `Object.entries`
      reports them. */
  datatype Collection = Collection(
    uid: string,
    plugin: Option<string>,
    displayName: string,
    attributes: seq<(string, Attribute)>,
    kind: CollectionKind)

  /** Kinds rendered as `string`. */
  predicate IsStringKind(kind: string)
  {
    kind == "datetime" || kind == "text" || kind == "email" || kind == "json" || kind == "password"
  }

  /** Kinds rendered as `number`. */
  predicate IsNumberKind(kind: string)
  {
    kind == "decimal" || kind == "integer"
  }
}
