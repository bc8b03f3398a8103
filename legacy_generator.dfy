/** The first revision of the generator (src/generateTypes.ts): flat type
    strings with enumerations inlined as unions of quoted values, its own
    plugin-prefix table, a read block and a `Create…Form` block per
    collection, one substitution pass over the file, and the directory the
    file is written into. */
module LegacyGenerator {
  import opened Strings
  import opened StrapiTypes
  import opened StrapiUtils
  import opened Ordering
  import opened Substitution
  import TsCommand

  datatype TypeEntry = TypeEntry(name: string, text: string, isRequired: bool, isProvided: bool, isPrivate: bool)

  datatype Type = Type(id: string, name: string, entries: seq<TypeEntry>)

  function NameOf(t: Type): string
  {
    t.name
  }

  /** `"value"` */
  function Quote(value: string): string
  {
    "\"" + value + "\""
  }

  /** The inline union of an enumeration's values. */
  function EnumUnion(values: seq<string>): string
  {
    Join(seq(|values|, k requires 0 <= k < |values| => Quote(values[k])), " | ")
  }

  /** One more value adds ` | "value"` at the end: the values stay in order. */
  lemma EnumUnionSnoc(values: seq<string>, v: string)
    requires |values| > 0
    ensures EnumUnion(values + [v]) == EnumUnion(values) + " | \"" + v + "\""
  {
    var quoted := seq(|values|, k requires 0 <= k < |values| => Quote(values[k]));
    var all := values + [v];
    assert seq(|all|, k requires 0 <= k < |all| => Quote(all[k])) == quoted + [Quote(v)];
    JoinSnoc(quoted, Quote(v), " | ");
    assert EnumUnion(values) + " | " + Quote(v) == EnumUnion(values) + " | \"" + v + "\"";
  }

  /** A single value is one quoted literal. */
  lemma EnumUnionSingle(v: string)
    ensures EnumUnion([v]) == "\"" + v + "\""
  {
    assert seq(1, k requires 0 <= k < 1 => Quote([v][k])) == [Quote(v)];
  }

  /** `mapType(attribute)`: an enumeration's type holds every value quoted;
      `MapTypeMatchesCommand` gives every other row. */
  function MapType(attribute: Attribute): (text: string)
    ensures attribute.kind == "enumeration" ==>
              forall k :: 0 <= k < |attribute.enumValues| ==> Contains(text, Quote(attribute.enumValues[k]))
  {
    assert attribute.kind == "enumeration" ==>
             forall k :: 0 <= k < |attribute.enumValues| ==> Contains(EnumUnion(attribute.enumValues), Quote(attribute.enumValues[k])) by {
      var values := attribute.enumValues;
      forall k | 0 <= k < |values| ensures Contains(EnumUnion(values), Quote(values[k])) {
        JoinContainsPart(seq(|values|, m requires 0 <= m < |values| => Quote(values[m])), " | ", k);
      }
    }
    var kind := attribute.kind;
    if IsStringKind(kind) then "string"
    else if IsNumberKind(kind) then "number"
    else if kind == "relation" then
      attribute.target.GetOr("unknown") + (if EndsWith(attribute.relation, "Many") then "[]" else "")
    else if kind == "media" then "plugin::upload.file"
    else if kind == "component" then attribute.component + (if attribute.repeatable then "[]" else "")
    else if kind == "dynamiczone" then "(" + Join(attribute.components, " | ") + ")[]"
    else if kind == "enumeration" then EnumUnion(attribute.enumValues)
    else kind
  }

  /** The two flat revisions map every kind but `enumeration` alike; an
      enumeration is inlined here and named there. */
  lemma MapTypeMatchesCommand(name: string, attribute: Attribute, typename: string, pascal: string -> string)
    ensures var t := TsCommand.MapTypeEntryType(name, attribute, typename, pascal);
            if attribute.kind == "enumeration" then t.EnumRef? && MapType(attribute) == EnumUnion(t.values)
            else t == TsCommand.Plain(MapType(attribute))
  {
  }

  /** `mapPlugin`: this revision's prefix table. */
  function MapPlugin(plugin: Option<string>): (prefix: string)
    ensures plugin == Some("users-permissions") ==> prefix == "UsersPermissions"
    ensures plugin == Some("upload") || plugin == Some("admin") ==> prefix == "Strapi"
    ensures plugin == Some("i18n") ==> prefix == "I18N"
    ensures plugin !in {Some("users-permissions"), Some("upload"), Some("admin"), Some("i18n")} ==> prefix == ""
  {
    match plugin
    case Some("users-permissions") => "UsersPermissions"
    case Some("upload") => "Strapi"
    case Some("admin") => "Strapi"
    case Some("i18n") => "I18N"
    case _ => ""
  }

  /** The later table differs only for `users-permissions` (no prefix there)
      and `admin` (`Admin` there). */
  lemma MapPluginVersusMapPluginName(plugin: Option<string>)
    ensures plugin !in {Some("users-permissions"), Some("admin")} ==> MapPlugin(plugin) == MapPluginName(plugin)
    ensures plugin == Some("users-permissions") ==> MapPlugin(plugin) == "UsersPermissions" && MapPluginName(plugin) == ""
    ensures plugin == Some("admin") ==> MapPlugin(plugin) == "Strapi" && MapPluginName(plugin) == "Admin"
  {
  }

  /** `makeType`: id, prefixed name without spaces, one entry per attribute. */
  function MakeType(c: Collection): (t: Type)
    ensures t.id == c.uid
    ensures t.name == MapPlugin(c.plugin) + RemoveSpaces(c.displayName) && ' ' !in RemoveSpaces(c.displayName)
    ensures |t.entries| == |c.attributes|
    ensures forall k :: 0 <= k < |c.attributes| ==>
              t.entries[k] == TypeEntry(c.attributes[k].0, MapType(c.attributes[k].1), c.attributes[k].1.required,
                                        c.attributes[k].1.hasDefault, c.attributes[k].1.isPrivate)
  {
    Type(c.uid, MapPlugin(c.plugin) + RemoveSpaces(c.displayName),
         seq(|c.attributes|, k requires 0 <= k < |c.attributes| =>
           TypeEntry(c.attributes[k].0, MapType(c.attributes[k].1), c.attributes[k].1.required,
                     c.attributes[k].1.hasDefault, c.attributes[k].1.isPrivate)))
  }

  /** `res.data.map(makeType)` */
  function MakeTypes(collections: seq<Collection>): (types: seq<Type>)
    ensures |types| == |collections|
    ensures forall k :: 0 <= k < |collections| ==> types[k] == MakeType(collections[k])
  {
    seq(|collections|, k requires 0 <= k < |collections| => MakeType(collections[k]))
  }

  /** One read line: ` | null` exactly for the non-required entries. */
  function ReadLine(e: TypeEntry): (line: string)
    ensures StartsWith(line, "    " + e.name + ": " + e.text)
    ensures EndsWith(line, if e.isRequired then e.text + ";" else " | null;")
    ensures |line| == 6 + |e.name| + |e.text| + (if e.isRequired then 1 else 8)
  {
    var head := "    " + e.name + ": " + e.text;
    var line := head + (if e.isRequired then "" else " | null") + ";";
    assert line[..|head|] == head;
    assert !e.isRequired ==> line[|line| - 8..] == " | null;";
    assert e.isRequired ==> line[|line| - |e.text| - 1..] == e.text + ";";
    line
  }

  /** The read block's entries: the non-private ones, in order. */
  function PublicEntries(entries: seq<TypeEntry>): (visible: seq<TypeEntry>)
    ensures forall e :: e in visible <==> e in entries && !e.isPrivate
    ensures |visible| <= |entries|
  {
    if |entries| == 0 then []
    else (if entries[0].isPrivate then [] else [entries[0]]) + PublicEntries(entries[1..])
  }

  /** `makeTypeString`: the read block, framed as a type declaration;
      `ReadBlockHolds` gives the lines it holds. */
  function MakeTypeString(t: Type): (block: string)
    ensures StartsWith(block, "export type " + t.name + " = {\n") && EndsWith(block, "\n};")
  {
    var head := "export type " + t.name + " = {\n";
    var body := Join(TsCommand.Lines(PublicEntries(t.entries), ReadLine), "\n");
    Framed(head, body, "\n};");
    head + body + "\n};"
  }

  /** One `Create…Form` line: `?` unless required and without a default. */
  function CreateLine(e: TypeEntry): (line: string)
    ensures |line| > 4 + |e.name| && line[..4 + |e.name|] == "    " + e.name
    ensures line[4 + |e.name|] == (if e.isRequired && !e.isProvided then ':' else '?')
    ensures EndsWith(line, e.text + ";")
    ensures |line| == 7 + |e.name| + (if e.isRequired && !e.isProvided then 0 else 1) + |e.text|
  {
    var tail := e.text + ";";
    var line := "    " + e.name + (if e.isRequired && !e.isProvided then "" else "?") + ": " + tail;
    assert line[|line| - |tail|..] == tail;
    line
  }

  /** `makeCreateTypeString`: the `Create…Form` block, framed as a type
      declaration; `CreateBlockKeepsAll` gives the lines it holds. */
  function MakeCreateTypeString(t: Type): (block: string)
    ensures StartsWith(block, "export type Create" + t.name + "Form = {\n") && EndsWith(block, "\n};")
  {
    var head := "export type Create" + t.name + "Form = {\n";
    var body := Join(TsCommand.Lines(t.entries, CreateLine), "\n");
    Framed(head, body, "\n};");
    head + body + "\n};"
  }

  /** The create block holds the line of every entry, the read block the line
      of every non-private one, and the read filter keeps exactly the
      non-private entries. */
  lemma CreateBlockKeepsAll(t: Type, k: int)
    requires 0 <= k < |t.entries|
    ensures Contains(MakeCreateTypeString(t), CreateLine(t.entries[k]))
    ensures !t.entries[k].isPrivate ==> Contains(MakeTypeString(t), ReadLine(t.entries[k]))
    ensures t.entries[k] in PublicEntries(t.entries) <==> !t.entries[k].isPrivate
  {
    FramedJoinContains("export type Create" + t.name + "Form = {\n", TsCommand.Lines(t.entries, CreateLine), "\n", "\n};", k);
    if !t.entries[k].isPrivate {
      var visible := PublicEntries(t.entries);
      var j :| 0 <= j < |visible| && visible[j] == t.entries[k];
      ReadBlockHolds(t, j);
    }
  }

  /** The read block holds the line of every entry it keeps. */
  lemma ReadBlockHolds(t: Type, k: int)
    requires 0 <= k < |PublicEntries(t.entries)|
    ensures Contains(MakeTypeString(t), ReadLine(PublicEntries(t.entries)[k]))
  {
    FramedJoinContains("export type " + t.name + " = {\n", TsCommand.Lines(PublicEntries(t.entries), ReadLine), "\n", "\n};", k);
  }

  /** The read filter keeps the relative order of the entries. */
  lemma {:induction false} PublicEntriesConcat(a: seq<TypeEntry>, b: seq<TypeEntry>)
    ensures PublicEntries(a + b) == PublicEntries(a) + PublicEntries(b)
  {
    if |a| == 0 {
      assert a + b == b;
    } else {
      assert (a + b)[0] == a[0];
      assert (a + b)[1..] == a[1..] + b;
      PublicEntriesConcat(a[1..], b);
    }
  }

  /** A private entry leaves no trace in the read block: removing it renders
      the same block. */
  lemma PrivateEntryDropped(t: Type, k: int)
    requires 0 <= k < |t.entries| && t.entries[k].isPrivate
    ensures MakeTypeString(t) == MakeTypeString(t.(entries := t.entries[..k] + t.entries[k + 1..]))
  {
    var rest := t.(entries := t.entries[..k] + t.entries[k + 1..]);
    PrivateEntryFiltered(t.entries, k);
    assert rest.name == t.name && PublicEntries(rest.entries) == PublicEntries(t.entries);
  }

  /** The read filter keeps nothing of a private entry on its own. */
  lemma PrivateAlone(e: TypeEntry)
    requires e.isPrivate
    ensures PublicEntries([e]) == []
  {
    assert [e][1..] == [];
  }

  /** The read filter gives the same entries with or without a private one. */
  lemma PrivateEntryFiltered(entries: seq<TypeEntry>, k: int)
    requires 0 <= k < |entries| && entries[k].isPrivate
    ensures PublicEntries(entries[..k] + entries[k + 1..]) == PublicEntries(entries)
  {
    var a, e, b := entries[..k], entries[k], entries[k + 1..];
    TsCommand.SplitAt(entries, k);
    PrivateAlone(e);
    PublicEntriesConcat(a + [e], b);
    PublicEntriesConcat(a, [e]);
    PublicEntriesConcat(a, b);
    TsCommand.DropEmpty(PublicEntries(a), PublicEntries([e]), PublicEntries(b));
  }

  /** One type's part of the file: its read block, a blank line, its create block. */
  function TypeBlocks(t: Type): string
  {
    MakeTypeString(t) + "\n\n" + MakeCreateTypeString(t)
  }

  /** `buildTypesFile`: per type its read block and its create block; each
      further type adds a blank line and its two blocks at the end. */
  function BuildTypesFile(types: seq<Type>): (file: string)
    ensures |types| == 0 ==> file == ""
    ensures |types| == 1 ==> file == TypeBlocks(types[0])
    ensures |types| >= 2 ==> file == BuildTypesFile(types[..|types| - 1]) + "\n\n" + TypeBlocks(types[|types| - 1])
    decreases |types|
  {
    if |types| >= 2 then
      assert Join(TsCommand.Lines(types, TypeBlocks), "\n\n")
             == Join(TsCommand.Lines(types[..|types| - 1], TypeBlocks), "\n\n") + "\n\n" + TypeBlocks(types[|types| - 1]) by {
        TsCommand.JoinLinesSnoc(types, TypeBlocks, "\n\n");
      }
      Join(TsCommand.Lines(types, TypeBlocks), "\n\n")
    else
      Join(TsCommand.Lines(types, TypeBlocks), "\n\n")
  }

  /** All blocks in file order: read then create, type by type. */
  function Blocks(types: seq<Type>): (blocks: seq<string>)
    ensures |blocks| == 2 * |types|
  {
    if |types| == 0 then []
    else
      var last := types[|types| - 1];
      Blocks(types[..|types| - 1]) + [MakeTypeString(last), MakeCreateTypeString(last)]
  }

  /** The file is every block, read before create, separated by blank lines. */
  lemma {:induction false} BuildTypesFileBlocks(types: seq<Type>)
    ensures BuildTypesFile(types) == Join(Blocks(types), "\n\n")
  {
    if |types| > 0 {
      var last := types[|types| - 1];
      var pair := [MakeTypeString(last), MakeCreateTypeString(last)];
      assert Join(pair, "\n\n") == TypeBlocks(last) by {
        assert pair[1..] == [MakeCreateTypeString(last)];
      }
      if |types| == 1 {
        assert Blocks(types) == pair;
      } else {
        BuildTypesFileBlocks(types[..|types| - 1]);
        JoinAppend(Blocks(types[..|types| - 1]), pair, "\n\n");
      }
    }
  }

  /** The (id, name) pairs of the sorted types, in order. */
  function IdPairs(types: seq<Type>): (pairs: seq<(string, string)>)
    ensures |pairs| == |types|
    ensures forall k :: 0 <= k < |types| ==> pairs[k] == (types[k].id, types[k].name)
  {
    seq(|types|, k requires 0 <= k < |types| => (types[k].id, types[k].name))
  }

  /** `generateTypes` on already fetched collections, up to the file write:
      sort by name, build the file with its final newline, then reassign it
      once per type in the substitution `forEach`. */
  method GenerateTypes(components: seq<Collection>, contentTypes: seq<Collection>)
    returns (types: seq<Type>, content: string)
    ensures multiset(types) == multiset(MakeTypes(components) + MakeTypes(contentTypes))
    ensures SortedBy(types, NameOf)
    ensures content == SubstituteAll(BuildTypesFile(types) + "\n", IdPairs(types))
  {
    types := SortCopy(MakeTypes(components) + MakeTypes(contentTypes), NameOf);
    content := SubstituteIds(BuildTypesFile(types) + "\n", types);
  }

  /** The substitution `forEach`: the file is reassigned once per type, each
      id replaced by its type's name, in the sorted order. */
  method SubstituteIds(text: string, types: seq<Type>) returns (content: string)
    ensures content == SubstituteAll(text, IdPairs(types))
  {
    content := text;
    for k := 0 to |types|
      invariant content == SubstituteAll(text, IdPairs(types[..k]))
    {
      var pairs := IdPairs(types[..k + 1]);
      assert pairs[..k] == IdPairs(types[..k]);
      content := Replace(content, types[k].id, types[k].name);
    }
    assert types[..|types|] == types;
  }

  /** The parent directory of the output path: split on `/`, drop the last
      segment with `pop`, join the rest. A path without `/` has the empty
      parent; otherwise the parent is everything before the last `/`. */
  method ParentPath(output: string) returns (parent: string)
    ensures '/' !in output ==> parent == ""
    ensures '/' in output ==>
              && |parent| < |output| && output[..|parent|] == parent
              && output[|parent|] == '/' && '/' !in output[|parent| + 1..]
  {
    var pathParts := Split(output, '/');
    ghost var all := pathParts;
    ghost var last := pathParts[|pathParts| - 1];
    pathParts := pathParts[..|pathParts| - 1];
    parent := Join(pathParts, "/");
    SplitSingle(output, '/');
    JoinSplit(output, '/');
    SplitPiecesLackSep(output, '/');
    if '/' in output {
      assert all == pathParts + [last];
      JoinSnoc(pathParts, last, "/");
      assert output == parent + "/" + last;
      assert output[|parent| + 1..] == last;
      assert output[..|parent|] == parent;
    }
  }
}
