/** Name resolution of the current generator (TypeGenerator.ts): type names,
    enum names and the plural names that key the registry. `toPascalCase` is
    not part of this model; it is passed in as `pascal`. */
module TypeNames {
  import opened Strings
  import opened StrapiTypes
  import opened StrapiUtils

  /** `getTypeName`: the plugin prefix and the display name without spaces;
      the write form wraps it as `Send…Form`. */
  function TypeName(c: Collection, isToSend: bool): (name: string)
    ensures ' ' !in name
  {
    var base := MapPluginName(c.plugin) + RemoveSpaces(c.displayName);
    if isToSend then "Send" + base + "Form" else base
  }

  /** `getTypeName` as written, reassigning its `typename`. */
  method GetTypeName(c: Collection, isToSend: bool) returns (typename: string)
    ensures typename == TypeName(c, isToSend)
    ensures ' ' !in typename
  {
    typename := MapPluginName(c.plugin) + RemoveSpaces(c.displayName);
    if isToSend {
      typename := "Send" + typename + "Form";
    }
  }

  /** The write-form name wraps the read-form name. */
  lemma SendNameWrapsReadName(c: Collection)
    ensures TypeName(c, true) == "Send" + TypeName(c, false) + "Form"
  {
  }

  /** Spaces in a display name do not matter: two collections whose display
      names differ only in spaces get the same type name. */
  lemma TypeNameIgnoresSpaces(c: Collection, isToSend: bool)
    ensures TypeName(c, isToSend) == TypeName(c.(displayName := RemoveSpaces(c.displayName)), isToSend)
  {
    RemoveSpacesIdentity(RemoveSpaces(c.displayName));
  }

  /** `getEnumName`: the read-form type name followed by the PascalCase
      attribute name. */
  function EnumName(attributeName: string, c: Collection, pascal: string -> string): (name: string)
    ensures StartsWith(name, TypeName(c, false))
    ensures EndsWith(name, pascal(attributeName))
    ensures |name| == |TypeName(c, false)| + |pascal(attributeName)|
  {
    TypeName(c, false) + pascal(attributeName)
  }

  /** Within one collection, two attributes get the same enum name exactly
      when their PascalCase names agree: the type name is a shared prefix and
      the rest of the enum name is the attribute's part. */
  lemma EnumNameDistinguishesAttributes(a: string, b: string, c: Collection, pascal: string -> string)
    ensures EnumName(a, c, pascal) == EnumName(b, c, pascal) <==> pascal(a) == pascal(b)
  {
    var n := |TypeName(c, false)|;
    if EnumName(a, c, pascal) == EnumName(b, c, pascal) {
      assert EnumName(a, c, pascal)[n..] == pascal(a);
      assert EnumName(b, c, pascal)[n..] == pascal(b);
    }
  }

  /** The plural name before quoting: the lower-cased plugin prefix, a hyphen
      and the schema's `pluralName` when there is a prefix; the bare
      `pluralName` otherwise. */
  function RawPluralName(plugin: Option<string>, pluralName: string): string
  {
    var prefix := MapPluginName(plugin);
    if prefix != "" then ToLower(prefix) + "-" + pluralName else pluralName
  }

  /** A plural name with a hyphen becomes a quoted object key. */
  function QuoteKey(raw: string): string
  {
    if '-' in raw then "\"" + raw + "\"" else raw
  }

  /** The plural name of a content type; components have none. */
  function PluralName(c: Collection): (r: Option<string>)
    ensures r.Some? <==> c.kind.ContentTypeKind?
  {
    match c.kind
    case ContentTypeKind(pluralName) => Some(QuoteKey(RawPluralName(c.plugin, pluralName)))
    case ComponentKind => None
  }

  /** Removes the quotes `QuoteKey` adds. */
  function UnquoteKey(key: string): string
  {
    if |key| >= 2 && key[0] == '"' && key[|key| - 1] == '"' then key[1..|key| - 1] else key
  }

  /** Quoting is undone by unquoting, and a key starts with a quote exactly
      when it holds a hyphen, for any key without quotes of its own. */
  lemma QuoteKeyRoundTrip(raw: string)
    requires '"' !in raw
    ensures UnquoteKey(QuoteKey(raw)) == raw
    ensures StartsWith(QuoteKey(raw), "\"") <==> '-' in raw
  {
    if '-' !in raw && |raw| > 0 {
      assert raw[0] != '"';
    }
  }

  /** Lower-casing brings no quote into a string. */
  lemma ToLowerQuoteFree(s: string)
    requires '"' !in s
    ensures '"' !in ToLower(s)
  {
    var r := ToLower(s);
    forall i | 0 <= i < |r|
      ensures r[i] != '"'
    {
      assert r[i] == LowerChar(s[i]) && s[i] in s;
    }
  }

  /** A prefixed plural name holds the hyphen that joins it. */
  lemma PrefixedHasHyphen(lower: string, pluralName: string)
    ensures '-' in lower + "-" + pluralName
    ensures QuoteKey(lower + "-" + pluralName) == "\"" + lower + "-" + pluralName + "\""
  {
    assert (lower + "-" + pluralName)[|lower|] == '-';
  }

  /** A plural name is quoted exactly when it holds a hyphen, and unquoting it
      gives back the unquoted plural name (schema plural names hold no quote). */
  lemma PluralNameQuoting(c: Collection)
    requires c.kind.ContentTypeKind? && '"' !in c.kind.pluralName
    ensures var raw := RawPluralName(c.plugin, c.kind.pluralName);
            var key := PluralName(c).value;
            && UnquoteKey(key) == raw
            && (StartsWith(key, "\"") <==> '-' in raw)
  {
    var prefix := MapPluginName(c.plugin);
    var raw := RawPluralName(c.plugin, c.kind.pluralName);
    if prefix != "" {
      assert '"' !in prefix;
      ToLowerQuoteFree(prefix);
      assert raw == ToLower(prefix) + "-" + c.kind.pluralName;
    }
    QuoteKeyRoundTrip(raw);
  }

  /** Every plugin-prefixed plural name is quoted, since the prefix is joined
      with a hyphen: content types of the upload plugin are keyed
      `"strapi-…"`. */
  lemma PrefixedPluralNameIsQuoted(c: Collection)
    requires c.kind.ContentTypeKind? && c.plugin == Some("upload")
    ensures PluralName(c) == Some("\"strapi-" + c.kind.pluralName + "\"")
  {
    var lower := ToLower("Strapi");
    assert lower == "strapi" by {
      assert |lower| == 6 && lower[0] == LowerChar('S');
      assert forall i :: 1 <= i < 6 ==> lower[i] == "Strapi"[i];
    }
    PrefixedHasHyphen("strapi", c.kind.pluralName);
    assert "\"" + "strapi" + "-" + c.kind.pluralName + "\"" == "\"strapi-" + c.kind.pluralName + "\"";
  }
}
