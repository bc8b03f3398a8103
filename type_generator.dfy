/** The shared half of the current generator (TypeGenerator.ts): building the
    read and write shapes and the enums of each collection, the `StrapiTypes`
    registry, collecting and sorting every generated type, and joining the
    rendered declarations into the file's content. The attribute mapper and
    the renderer are those of TsTypeGenerator.ts, its only implementation. */
module TypeGenerator {
  import opened Strings
  import opened StrapiTypes
  import opened StrapiUtils
  import opened GeneratedTypes
  import opened TypeNames
  import opened Ordering
  import opened TsTypeGenerator

  // ---------------------------------------------------------------------------
  // makeTypes

  /** The entry `makeTypes` builds for one schema attribute. */
  function SchemaEntry(name: string, attribute: Attribute, c: Collection, isToSend: bool,
                       pascal: string -> string): TypeEntry
  {
    TypeEntry(name, EntryType(name, attribute, c, isToSend, pascal), attribute.required,
              isToSend && (!attribute.required || attribute.hasDefault), attribute.isPrivate)
  }

  /** One entry per attribute, in schema order. */
  function SchemaEntries(attributes: seq<(string, Attribute)>, c: Collection, isToSend: bool,
                         pascal: string -> string): (entries: seq<TypeEntry>)
    ensures |entries| == |attributes|
    ensures forall k :: 0 <= k < |attributes| ==>
              entries[k] == SchemaEntry(attributes[k].0, attributes[k].1, c, isToSend, pascal)
  {
    seq(|attributes|, k requires 0 <= k < |attributes| =>
      SchemaEntry(attributes[k].0, attributes[k].1, c, isToSend, pascal))
  }

  /** The `id` entry of a content type: required when read, optional when sent. */
  function IdEntry(isToSend: bool): TypeEntry
  {
    TypeEntry("id", Group([Lit("number")], false), !isToSend, isToSend, false)
  }

  /** A `createdAt` or `updatedAt` entry of a read shape. */
  function TimestampEntry(name: string): TypeEntry
  {
    TypeEntry(name, Group([Lit("string")], false), true, false, false)
  }

  /** The entries pushed after the schema's: none for a component; `id` for a
      content type, followed by the two timestamps in the read form. */
  function SyntheticEntries(c: Collection, isToSend: bool): (extra: seq<TypeEntry>)
    ensures c.kind.ComponentKind? ==> extra == []
    ensures c.kind.ContentTypeKind? ==> |extra| == (if isToSend then 1 else 3) && extra[0] == IdEntry(isToSend)
  {
    if c.kind.ComponentKind? then []
    else [IdEntry(isToSend)] + (if isToSend then [] else [TimestampEntry("createdAt"), TimestampEntry("updatedAt")])
  }

  /** The enum declared for one `enumeration` attribute. */
  function EnumOf(name: string, attribute: Attribute, c: Collection, pascal: string -> string): GeneratedType
  {
    Enum(EnumName(name, c, pascal), attribute.enumValues)
  }

  /** The enums of the `enumeration` attributes, in schema order. */
  function EnumsOf(attributes: seq<(string, Attribute)>, c: Collection, pascal: string -> string)
    : (enums: seq<GeneratedType>)
    ensures |enums| <= |attributes|
    ensures forall t :: t in enums ==> t.Enum?
  {
    if |attributes| == 0 then []
    else AttributeEnums(attributes[0], c, pascal) + EnumsOf(attributes[1..], c, pascal)
  }

  /** The enum of one attribute: its own enum exactly when it is an
      `enumeration`, nothing otherwise. */
  function AttributeEnums(attribute: (string, Attribute), c: Collection, pascal: string -> string)
    : (enums: seq<GeneratedType>)
    ensures forall t :: t in enums <==> attribute.1.kind == "enumeration" && t == EnumOf(attribute.0, attribute.1, c, pascal)
  {
    if attribute.1.kind == "enumeration" then [EnumOf(attribute.0, attribute.1, c, pascal)] else []
  }

  /** Every `enumeration` attribute yields its enum, and every enum comes from one. */
  lemma {:induction false} EnumsOfMembership(attributes: seq<(string, Attribute)>, c: Collection,
                                             pascal: string -> string, t: GeneratedType)
    ensures t in EnumsOf(attributes, c, pascal) <==>
            exists k :: 0 <= k < |attributes| && t in AttributeEnums(attributes[k], c, pascal)
  {
    if |attributes| > 0 {
      var head := AttributeEnums(attributes[0], c, pascal);
      var rest := attributes[1..];
      assert EnumsOf(attributes, c, pascal) == head + EnumsOf(rest, c, pascal);
      EnumsOfMembership(rest, c, pascal, t);
      if t in EnumsOf(rest, c, pascal) {
        var k :| 0 <= k < |rest| && t in AttributeEnums(rest[k], c, pascal);
        assert rest[k] == attributes[k + 1];
      }
      if exists k :: 0 <= k < |attributes| && t in AttributeEnums(attributes[k], c, pascal) {
        var k :| 0 <= k < |attributes| && t in AttributeEnums(attributes[k], c, pascal);
        if k > 0 {
          assert rest[k - 1] == attributes[k];
        }
      }
    }
  }

  /** Enums keep the order of their attributes across a split of the schema. */
  lemma {:induction false} EnumsOfConcat(a: seq<(string, Attribute)>, b: seq<(string, Attribute)>,
                                         c: Collection, pascal: string -> string)
    ensures EnumsOf(a + b, c, pascal) == EnumsOf(a, c, pascal) + EnumsOf(b, c, pascal)
  {
    if |a| == 0 {
      assert a + b == b;
    } else {
      var head := AttributeEnums(a[0], c, pascal);
      assert (a + b)[0] == a[0];
      assert (a + b)[1..] == a[1..] + b;
      assert EnumsOf(a + b, c, pascal) == head + EnumsOf(a[1..] + b, c, pascal);
      EnumsOfConcat(a[1..], b, c, pascal);
      assert head + (EnumsOf(a[1..], c, pascal) + EnumsOf(b, c, pascal))
          == (head + EnumsOf(a[1..], c, pascal)) + EnumsOf(b, c, pascal);
    }
  }

  /** The shape `makeTypes` builds for a collection in one form. */
  function ShapeOf(c: Collection, isToSend: bool, pascal: string -> string): GeneratedType
  {
    Shape((if isToSend then "send::" else "") + c.uid, TypeName(c, isToSend), PluralName(c), isToSend,
          SchemaEntries(c.attributes, c, isToSend, pascal) + SyntheticEntries(c, isToSend))
  }

  /** `makeTypes(collection, isToSend)`: the shape first, then (read form
      only) one enum per `enumeration` attribute. */
  function TypesOf(c: Collection, isToSend: bool, pascal: string -> string): (types: seq<GeneratedType>)
    ensures |types| >= 1 && types[0].Shape?
    ensures isToSend ==> |types| == 1
    ensures forall k :: 1 <= k < |types| ==> types[k].Enum?
  {
    [ShapeOf(c, isToSend, pascal)] + (if isToSend then [] else EnumsOf(c.attributes, c, pascal))
  }

  /** `makeTypes` as written: the attribute map calls the mapper once per
      attribute, `pluralName` is computed and quoted in place, and the
      synthetic entries are pushed onto `entries`. */
  method MakeTypes(c: Collection, isToSend: bool, pascal: string -> string) returns (types: seq<GeneratedType>)
    ensures types == TypesOf(c, isToSend, pascal)
  {
    var typename := GetTypeName(c, isToSend);
    var pluralName: Option<string> := None;
    var entries := MapEntries(c, isToSend, pascal);
    if c.kind.ContentTypeKind? {
      var prefix := MapPluginName(c.plugin);
      var name := if prefix != "" then ToLower(prefix) + "-" + c.kind.pluralName else c.kind.pluralName;
      if '-' in name {
        name := "\"" + name + "\"";
      }
      pluralName := Some(name);
      entries := entries + [IdEntry(isToSend)];
      if !isToSend {
        entries := entries + [TimestampEntry("createdAt"), TimestampEntry("updatedAt")];
      }
    }
    assert pluralName == PluralName(c);
    assert entries == SchemaEntries(c.attributes, c, isToSend, pascal) + SyntheticEntries(c, isToSend);
    var enums := if isToSend then [] else EnumsOf(c.attributes, c, pascal);
    types := [Shape((if isToSend then "send::" else "") + c.uid, typename, pluralName, isToSend, entries)] + enums;
  }

  /** The `Object.entries(attributes).map(...)` of `makeTypes`: the mapper is
      called once per attribute, in schema order. */
  method MapEntries(c: Collection, isToSend: bool, pascal: string -> string) returns (entries: seq<TypeEntry>)
    ensures entries == SchemaEntries(c.attributes, c, isToSend, pascal)
  {
    entries := [];
    for k := 0 to |c.attributes|
      invariant |entries| == k
      invariant forall m :: 0 <= m < k ==>
                  entries[m] == SchemaEntry(c.attributes[m].0, c.attributes[m].1, c, isToSend, pascal)
    {
      var (name, attribute) := c.attributes[k];
      var entryType := MapTypeEntryType(name, attribute, c, isToSend, pascal);
      entries := entries + [TypeEntry(name, entryType, attribute.required,
                                      isToSend && (!attribute.required || attribute.hasDefault),
                                      attribute.isPrivate)];
    }
    assert entries == SchemaEntries(c.attributes, c, isToSend, pascal);
  }

  /** The shape is identified by the collection's uid, prefixed with `send::`
      in the write form, and named by `getTypeName`. */
  lemma ShapeIdentity(c: Collection, isToSend: bool, pascal: string -> string)
    ensures var t := TypesOf(c, isToSend, pascal)[0];
            && t.id == (if isToSend then "send::" + c.uid else c.uid)
            && t.name == (if isToSend then "Send" + TypeName(c, false) + "Form" else TypeName(c, false))
            && t.isToSend == isToSend
            && (t.pluralName.Some? <==> c.kind.ContentTypeKind?)
  {
    SendNameWrapsReadName(c);
  }

  /** The optionality law: no entry of a read shape is optional; in the write
      form an attribute is optional exactly when it is not required or has a
      default. Every entry is required exactly when its attribute is, and
      private exactly when its attribute is. */
  lemma OptionalityLaw(c: Collection, isToSend: bool, pascal: string -> string, k: int)
    requires 0 <= k < |c.attributes|
    ensures var e := TypesOf(c, isToSend, pascal)[0].entries[k];
            var attribute := c.attributes[k].1;
            && e.name == c.attributes[k].0
            && (e.isOptional <==> isToSend && (!attribute.required || attribute.hasDefault))
            && (e.isRequired <==> attribute.required)
            && (e.isPrivate <==> attribute.isPrivate)
            && e.typeExpr == EntryType(c.attributes[k].0, attribute, c, isToSend, pascal)
  {
  }

  /** A content type's read shape ends with a required `id` and the two
      timestamps; its write shape ends with an optional `id`; a component's
      shapes hold its attributes only. */
  lemma SyntheticEntriesLaw(c: Collection, isToSend: bool, pascal: string -> string)
    ensures var entries := TypesOf(c, isToSend, pascal)[0].entries;
            var n := |c.attributes|;
            && (c.kind.ComponentKind? ==> |entries| == n)
            && (c.kind.ContentTypeKind? && isToSend ==>
                  |entries| == n + 1 && entries[n].name == "id" && entries[n].isOptional && !entries[n].isRequired)
            && (c.kind.ContentTypeKind? && !isToSend ==>
                  |entries| == n + 3 && entries[n].name == "id" && entries[n].isRequired && !entries[n].isOptional
                  && entries[n + 1].name == "createdAt" && entries[n + 2].name == "updatedAt")
  {
  }

  /** Privacy: a private attribute is left out of the rendered read shape and
      kept in the rendered write shape; the synthetic entries are never left out. */
  lemma PrivacyLaw(c: Collection, pascal: string -> string, k: int)
    requires 0 <= k < |c.attributes| && c.attributes[k].1.isPrivate
    ensures SchemaEntry(c.attributes[k].0, c.attributes[k].1, c, false, pascal)
            !in VisibleEntries(TypesOf(c, false, pascal)[0].entries, false)
    ensures SchemaEntry(c.attributes[k].0, c.attributes[k].1, c, true, pascal)
            in VisibleEntries(TypesOf(c, true, pascal)[0].entries, true)
    ensures forall e :: e in SyntheticEntries(c, false) ==> e in VisibleEntries(TypesOf(c, false, pascal)[0].entries, false)
  {
    var readEntries := TypesOf(c, false, pascal)[0].entries;
    var sendEntries := TypesOf(c, true, pascal)[0].entries;
    assert sendEntries[k] == SchemaEntry(c.attributes[k].0, c.attributes[k].1, c, true, pascal);
    forall e | e in SyntheticEntries(c, false)
      ensures e in VisibleEntries(readEntries, false)
    {
      assert e in readEntries;
    }
  }

  /** Enums appear in the read form only, one per `enumeration` attribute,
      named by `getEnumName` and carrying the attribute's values. */
  lemma EnumsLaw(c: Collection, pascal: string -> string, k: int)
    requires 0 <= k < |c.attributes| && c.attributes[k].1.kind == "enumeration"
    ensures Enum(EnumName(c.attributes[k].0, c, pascal), c.attributes[k].1.enumValues) in TypesOf(c, false, pascal)
    ensures forall t :: t in TypesOf(c, true, pascal) ==> t.Shape?
  {
    EnumsOfMembership(c.attributes, c, pascal, EnumOf(c.attributes[k].0, c.attributes[k].1, c, pascal));
  }

  // ---------------------------------------------------------------------------
  // makeStrapiTypesType

  /** What `.` may not match in a JavaScript regular expression. */
  predicate IsLineTerminator(ch: char)
  {
    ch == '\n' || ch == '\r' || ch == '\U{2028}' || ch == '\U{2029}'
  }

  /** The test of `/^(api::.+|plugin::(users-permissions\.user|upload\.file))$/`:
      an `api::` id with at least one more character and no line terminator
      after the prefix, or one of the two plugin ids spelt out. */
  predicate RegistryId(id: string)
    ensures RegistryId(id) ==> StartsWith(id, "api::") || StartsWith(id, "plugin::")
    ensures RegistryId(id) ==> |id| > 5
  {
    || (StartsWith(id, "api::") && |id| > 5 && forall i :: 5 <= i < |id| ==> !IsLineTerminator(id[i]))
    || id == "plugin::users-permissions.user"
    || id == "plugin::upload.file"
  }

  /** The ids of write shapes never pass the test. */
  lemma SendIdNeverRegistered(uid: string)
    ensures !RegistryId("send::" + uid)
  {
    var id := "send::" + uid;
    assert id[0] == 's';
  }

  /** The object type of one registry entry, naming the read and write shapes. */
  function GetSendString(id: string): (r: string)
    ensures StartsWith(r, "{\n        get: " + id + ";")
    ensures EndsWith(r, "\n        send: send::" + id + ";\n    }")
    ensures |r| == 2 * |id| + 44
  {
    var head := "{\n        get: " + id + ";";
    var tail := "\n        send: send::" + id + ";\n    }";
    assert (head + tail)[..|head|] == head;
    assert (head + tail)[|head + tail| - |tail|..] == tail;
    head + tail
  }

  /** `types.filter(type => "pluralName" in type && regex.test(type.id))`: every
      object `makeTypes` returns for a collection carries a `pluralName`
      property, possibly undefined, and no enum does. */
  function Registered(types: seq<GeneratedType>): (registered: seq<GeneratedType>)
    ensures forall t :: t in registered <==> t in types && t.Shape? && RegistryId(t.id)
    ensures |registered| <= |types|
  {
    if |types| == 0 then []
    else
      (if types[0].Shape? && RegistryId(types[0].id) then [types[0]] else []) + Registered(types[1..])
  }

  /** The registry entry of one shape: keyed by its plural name (`undefined`
      when it has none), required and public. */
  function RegistryEntry(t: GeneratedType): TypeEntry
    requires t.Shape?
  {
    TypeEntry(if t.pluralName.Some? then t.pluralName.value else "undefined",
              Group([Lit(GetSendString(t.id))], false), true, false, false)
  }

  /** `makeStrapiTypesType`: the read-only `StrapiTypes` shape, one required,
      public, non-optional entry per registered shape, in order. */
  function MakeStrapiTypesType(contentTypeTypes: seq<GeneratedType>): (t: GeneratedType)
    ensures t.Shape? && t.id == "result::strapiTypes" && t.name == "StrapiTypes" && !t.isToSend
    ensures |t.entries| == |Registered(contentTypeTypes)|
    ensures forall e :: e in t.entries ==> e.isRequired && !e.isOptional && !e.isPrivate
  {
    var registered := Registered(contentTypeTypes);
    Shape("result::strapiTypes", "StrapiTypes", None, false,
          seq(|registered|, k requires 0 <= k < |registered| => RegistryEntry(registered[k])))
  }

  /** An entry is in the registry exactly when it is the entry of a shape
      whose id passes the test. */
  lemma RegistryMembership(contentTypeTypes: seq<GeneratedType>, e: TypeEntry)
    ensures e in MakeStrapiTypesType(contentTypeTypes).entries <==>
            exists t :: t in contentTypeTypes && t.Shape? && RegistryId(t.id) && e == RegistryEntry(t)
  {
    var registered := Registered(contentTypeTypes);
    EntriesOfRegistered(registered, e);
    if exists t :: t in contentTypeTypes && t.Shape? && RegistryId(t.id) && e == RegistryEntry(t) {
      var t :| t in contentTypeTypes && t.Shape? && RegistryId(t.id) && e == RegistryEntry(t);
      assert t in registered;
    }
  }

  /** The entries built from registered shapes are exactly their entries. */
  lemma EntriesOfRegistered(registered: seq<GeneratedType>, e: TypeEntry)
    requires forall t :: t in registered ==> t.Shape?
    ensures e in seq(|registered|, k requires 0 <= k < |registered| => RegistryEntry(registered[k])) <==>
            exists t :: t in registered && e == RegistryEntry(t)
  {
    var entries := seq(|registered|, k requires 0 <= k < |registered| => RegistryEntry(registered[k]));
    if exists t :: t in registered && e == RegistryEntry(t) {
      var t :| t in registered && e == RegistryEntry(t);
      var k :| 0 <= k < |registered| && registered[k] == t;
      assert entries[k] == e;
    }
  }

  // ---------------------------------------------------------------------------
  // getTypes

  /** A `reduce` that concatenates what `f` gives for each element, in order. */
  function Gather<A, B>(xs: seq<A>, f: A -> seq<B>): seq<B>
  {
    if |xs| == 0 then [] else Gather(xs[..|xs| - 1], f) + f(xs[|xs| - 1])
  }

  /** What `f` gives for any element is in the gathered list. */
  lemma {:induction false} GatherMember<A, B>(xs: seq<A>, f: A -> seq<B>, k: int, t: B)
    requires 0 <= k < |xs| && t in f(xs[k])
    ensures t in Gather(xs, f)
    decreases |xs|
  {
    var n := |xs|;
    if k < n - 1 {
      var init := xs[..n - 1];
      assert init[k] == xs[k];
      GatherMember(init, f, k, t);
    }
  }

  /** One more element appends what `f` gives for it. */
  lemma GatherSnoc<A, B>(xs: seq<A>, f: A -> seq<B>, k: int)
    requires 0 <= k < |xs|
    ensures Gather(xs[..k + 1], f) == Gather(xs[..k], f) + f(xs[k])
  {
    assert xs[..k + 1][..k] == xs[..k];
  }

  /** The `reduce` over the components: every component's read types, in order. */
  function ComponentTypes(components: seq<Collection>, pascal: string -> string): seq<GeneratedType>
  {
    Gather(components, c => TypesOf(c, false, pascal))
  }

  /** The `reduce` over the content types: each one's read types, then its write shape. */
  function ContentTypeTypes(contentTypes: seq<Collection>, pascal: string -> string): seq<GeneratedType>
  {
    Gather(contentTypes, c => ReadAndWrite(c, pascal))
  }

  /** One content type's read types followed by its write shape: the leading
      shapes of both forms are there. */
  function ReadAndWrite(c: Collection, pascal: string -> string): (types: seq<GeneratedType>)
    ensures TypesOf(c, false, pascal)[0] in types && TypesOf(c, true, pascal)[0] in types
  {
    TypesOf(c, false, pascal) + TypesOf(c, true, pascal)
  }

  /** Every content type contributes both its read and its write shape. */
  lemma ContentTypeShapes(contentTypes: seq<Collection>, pascal: string -> string, k: int)
    requires 0 <= k < |contentTypes|
    ensures ShapeOf(contentTypes[k], false, pascal) in ContentTypeTypes(contentTypes, pascal)
    ensures ShapeOf(contentTypes[k], true, pascal) in ContentTypeTypes(contentTypes, pascal)
  {
    var c := contentTypes[k];
    var f := (c: Collection) => ReadAndWrite(c, pascal);
    assert f(c) == ReadAndWrite(c, pascal);
    GatherMember(contentTypes, f, k, TypesOf(c, false, pascal)[0]);
    GatherMember(contentTypes, f, k, TypesOf(c, true, pascal)[0]);
    assert TypesOf(c, false, pascal)[0] == ShapeOf(c, false, pascal);
    assert TypesOf(c, true, pascal)[0] == ShapeOf(c, true, pascal);
  }

  /** Every content type with an `api::` uid is registered under its plural
      name, with the object type naming its uid and its `send::` uid. */
  lemma ContentTypeRegistered(contentTypes: seq<Collection>, pascal: string -> string, k: int)
    requires 0 <= k < |contentTypes| && contentTypes[k].kind.ContentTypeKind?
    requires RegistryId(contentTypes[k].uid)
    ensures var c := contentTypes[k];
            TypeEntry(PluralName(c).value, Group([Lit(GetSendString(c.uid))], false), true, false, false)
            in MakeStrapiTypesType(ContentTypeTypes(contentTypes, pascal)).entries
  {
    var types := ContentTypeTypes(contentTypes, pascal);
    var c := contentTypes[k];
    ContentTypeShapes(contentTypes, pascal, k);
    var t := ShapeOf(c, false, pascal);
    assert t.id == c.uid by {
      assert "" + c.uid == c.uid;
    }
    assert t.pluralName == PluralName(c);
    RegistryMembership(types, RegistryEntry(t));
  }

  /** No shape with a `send::` id is ever registered. */
  lemma SendShapesNeverRegistered(types: seq<GeneratedType>)
    ensures forall t :: t in Registered(types) ==> !StartsWith(t.id, "send::")
  {
    forall r | r in Registered(types)
      ensures !StartsWith(r.id, "send::")
    {
      if StartsWith(r.id, "send::") {
        var rest := r.id[6..];
        assert r.id == "send::" + rest;
        SendIdNeverRegistered(rest);
      }
    }
  }

  /** Every generated type, before sorting: components' types, content
      types' types, then the registry. */
  function AllTypes(components: seq<Collection>, contentTypes: seq<Collection>, pascal: string -> string)
    : seq<GeneratedType>
  {
    var contentTypeTypes := ContentTypeTypes(contentTypes, pascal);
    ComponentTypes(components, pascal) + contentTypeTypes + [MakeStrapiTypesType(contentTypeTypes)]
  }

  /** The `reduce` over the components, one `makeTypes` call per component. */
  method CollectComponentTypes(components: seq<Collection>, pascal: string -> string)
    returns (componentTypes: seq<GeneratedType>)
    ensures componentTypes == ComponentTypes(components, pascal)
  {
    componentTypes := [];
    for k := 0 to |components|
      invariant componentTypes == ComponentTypes(components[..k], pascal)
    {
      var made := MakeTypes(components[k], false, pascal);
      GatherSnoc(components, c => TypesOf(c, false, pascal), k);
      componentTypes := componentTypes + made;
    }
    assert components[..|components|] == components;
  }

  /** The `reduce` over the content types, two `makeTypes` calls per content type. */
  method CollectContentTypeTypes(contentTypes: seq<Collection>, pascal: string -> string)
    returns (contentTypeTypes: seq<GeneratedType>)
    ensures contentTypeTypes == ContentTypeTypes(contentTypes, pascal)
  {
    contentTypeTypes := [];
    for k := 0 to |contentTypes|
      invariant contentTypeTypes == ContentTypeTypes(contentTypes[..k], pascal)
    {
      var read := MakeTypes(contentTypes[k], false, pascal);
      var send := MakeTypes(contentTypes[k], true, pascal);
      GatherSnoc(contentTypes, c => ReadAndWrite(c, pascal), k);
      contentTypeTypes := contentTypeTypes + (read + send);
    }
    assert contentTypes[..|contentTypes|] == contentTypes;
  }

  /** `getTypes`, given the fetched components and content types: the two
      `reduce`s call `makeTypes`, then the list is sorted in place by name. */
  method GetTypes(components: seq<Collection>, contentTypes: seq<Collection>, pascal: string -> string)
    returns (types: seq<GeneratedType>)
    ensures multiset(types) == multiset(AllTypes(components, contentTypes, pascal))
    ensures SortedBy(types, NameOf)
  {
    var componentTypes := CollectComponentTypes(components, pascal);
    var contentTypeTypes := CollectContentTypeTypes(contentTypes, pascal);
    types := SortCopy(componentTypes + contentTypeTypes + [MakeStrapiTypesType(contentTypeTypes)], NameOf);
  }

  /** `joinTypeStrings`: the declarations in order, separated by a blank
      line. No declaration gives the empty text, one gives itself, and one
      more declaration comes after a blank line at the end; each of them
      occurs in the result. */
  function JoinTypeStrings(typeStrings: seq<string>): (content: string)
    decreases |typeStrings|
    ensures |typeStrings| == 0 ==> content == ""
    ensures |typeStrings| == 1 ==> content == typeStrings[0]
    ensures |typeStrings| >= 2 ==>
              content == JoinTypeStrings(typeStrings[..|typeStrings| - 1]) + "\n\n" + typeStrings[|typeStrings| - 1]
    ensures forall k :: 0 <= k < |typeStrings| ==> Contains(content, typeStrings[k])
  {
    var content := Join(typeStrings, "\n\n");
    var n := |typeStrings|;
    assert n >= 2 ==> content == Join(typeStrings[..n - 1], "\n\n") + "\n\n" + typeStrings[n - 1] by {
      if n >= 2 {
        assert typeStrings[..n - 1] + [typeStrings[n - 1]] == typeStrings;
        JoinSnoc(typeStrings[..n - 1], typeStrings[n - 1], "\n\n");
      }
    }
    assert forall k :: 0 <= k < |typeStrings| ==> Contains(content, typeStrings[k]) by {
      forall k | 0 <= k < |typeStrings| {
        JoinContainsPart(typeStrings, "\n\n", k);
      }
    }
    content
  }

  /** `generateTypes` up to the file write: the sorted types, rendered and
      joined, plus the final newline `saveFile` adds. */
  method GenerateTypes(components: seq<Collection>, contentTypes: seq<Collection>, pascal: string -> string)
    returns (types: seq<GeneratedType>, content: string)
    ensures multiset(types) == multiset(AllTypes(components, contentTypes, pascal))
    ensures SortedBy(types, NameOf)
    ensures content == JoinTypeStrings(seq(|types|, k requires 0 <= k < |types| => Stringified(types[k], types, pascal))) + "\n"
  {
    types := GetTypes(components, contentTypes, pascal);
    var strings := StringifyTypes(types, pascal);
    assert strings == seq(|types|, k requires 0 <= k < |types| => Stringified(types[k], types, pascal));
    content := JoinTypeStrings(strings) + "\n";
  }
}
