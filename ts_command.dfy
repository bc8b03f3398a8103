/** The earlier revision of the generator command (src/commands/generateTypes/ts.ts):
    one flat type string per attribute, a read block and a `Send…Form` block
    per collection, one substitution pass over the whole file, then the
    user-login form and every enum appended. */
module TsCommand {
  import opened Strings
  import opened StrapiTypes
  import opened StrapiUtils
  import opened TypeNames
  import opened Ordering
  import opened Substitution
  import GeneratedTypes
  import TsTypeGenerator

  /** `string | StrapiEnum`: a type written out, or an enum with its values. */
  datatype EntryType = Plain(text: string) | EnumRef(name: string, values: seq<string>)

  datatype TypeEntry = TypeEntry(
    name: string,
    entryType: EntryType,
    isRequired: bool,
    isProvided: bool,
    isPrivate: bool)

  datatype Type = Type(id: string, name: string, entries: seq<TypeEntry>)

  function NameOf(t: Type): string
  {
    t.name
  }

  /** `mapTypeEntryType(name, attribute, typename)`: an enum reference exactly
      for an enumeration, named after the type and the attribute and keeping
      the values; `MappingTable` gives every other row. */
  function MapTypeEntryType(name: string, attribute: Attribute, typename: string,
                            pascal: string -> string): (t: EntryType)
    ensures t.EnumRef? <==> attribute.kind == "enumeration"
    ensures t.EnumRef? ==> t.name == typename + pascal(name) && t.values == attribute.enumValues
  {
    var kind := attribute.kind;
    if IsStringKind(kind) then Plain("string")
    else if IsNumberKind(kind) then Plain("number")
    else if kind == "relation" then
      Plain(attribute.target.GetOr("unknown") + (if EndsWith(attribute.relation, "Many") then "[]" else ""))
    else if kind == "media" then Plain("plugin::upload.file")
    else if kind == "component" then Plain(attribute.component + (if attribute.repeatable then "[]" else ""))
    else if kind == "dynamiczone" then Plain("(" + Join(attribute.components, " | ") + ")[]")
    else if kind == "enumeration" then EnumRef(typename + pascal(name), attribute.enumValues)
    else Plain(kind)
  }

  /** The mapping table of this revision: relations and components carry `[]`
      exactly when they are to-many or repeatable, a missing target reads as
      `unknown`, an enumeration becomes an enum named after the type and the
      attribute, and an unknown kind passes through. */
  lemma MappingTable(name: string, attribute: Attribute, typename: string, pascal: string -> string)
    ensures var t := MapTypeEntryType(name, attribute, typename, pascal);
            && (IsStringKind(attribute.kind) ==> t == Plain("string"))
            && (IsNumberKind(attribute.kind) ==> t == Plain("number"))
            && (attribute.kind == "relation" ==>
                  t == Plain(attribute.target.GetOr("unknown") + (if EndsWith(attribute.relation, "Many") then "[]" else "")))
            && (attribute.kind == "media" ==> t == Plain("plugin::upload.file"))
            && (attribute.kind == "component" ==>
                  t == Plain(attribute.component + (if attribute.repeatable then "[]" else "")))
            && (attribute.kind == "dynamiczone" ==> t == Plain("(" + Join(attribute.components, " | ") + ")[]"))
            && (attribute.kind == "enumeration" <==> t.EnumRef?)
            && (t.EnumRef? ==> t.name == typename + pascal(name) && t.values == attribute.enumValues)
            && (!IsStringKind(attribute.kind) && !IsNumberKind(attribute.kind)
                && attribute.kind !in {"relation", "media", "component", "dynamiczone", "enumeration"}
                ==> t == Plain(attribute.kind))
  {
  }

  /** The flat strings of this revision are what the later revision's tree
      renders to in the read form, before `null` is added, whenever the names
      involved hold no ` | ` and a dynamic zone has at least two components. */
  lemma FlatMatchesTree(name: string, attribute: Attribute, c: Collection, pascal: string -> string)
    requires attribute.kind != "enumeration"
    requires attribute.kind == "relation" ==> !Contains(attribute.target.GetOr("unknown"), " | ")
    requires attribute.kind == "component" ==> !Contains(attribute.component, " | ")
    requires attribute.kind == "dynamiczone" ==> |attribute.components| >= 2
    ensures MapTypeEntryType(name, attribute, TypeName(c, false), pascal)
            == Plain(TsTypeGenerator.AltToString(TsTypeGenerator.KindAlternative(name, attribute, c, false, pascal)))
  {
    var alt := TsTypeGenerator.KindAlternative(name, attribute, c, false, pascal);
    if attribute.kind == "relation" {
      var target := attribute.target.GetOr("unknown");
      if EndsWith(attribute.relation, "Many") {
        TsTypeGenerator.SingleArrayIsBare(target);
      } else {
        var parts := seq(1, k requires 0 <= k < 1 => TsTypeGenerator.AltToString(alt.alts[k]));
        assert parts == [target];
      }
    } else if attribute.kind == "component" {
      if attribute.repeatable {
        TsTypeGenerator.SingleArrayIsBare(attribute.component);
      } else {
        var parts := seq(1, k requires 0 <= k < 1 => TsTypeGenerator.AltToString(alt.alts[k]));
        assert parts == [attribute.component];
      }
    } else if attribute.kind == "dynamiczone" {
      TsTypeGenerator.UnionArrayIsParenthesised(alt.alts);
      var parts := seq(|alt.alts|, k requires 0 <= k < |alt.alts| => TsTypeGenerator.AltToString(alt.alts[k]));
      assert parts == attribute.components;
    }
  }

  /** `makeType`: id and name of the collection, one entry per attribute. */
  function MakeType(c: Collection, pascal: string -> string): (t: Type)
    ensures t.id == c.uid
    ensures t.name == MapPluginName(c.plugin) + RemoveSpaces(c.displayName)
    ensures |t.entries| == |c.attributes|
    ensures forall k :: 0 <= k < |c.attributes| ==>
              var e := t.entries[k];
              var attribute := c.attributes[k].1;
              && e.name == c.attributes[k].0
              && e.isRequired == attribute.required
              && e.isProvided == attribute.hasDefault
              && e.isPrivate == attribute.isPrivate
              && e.entryType == MapTypeEntryType(c.attributes[k].0, attribute, t.name, pascal)
  {
    var typename := TypeName(c, false);
    Type(c.uid, typename, seq(|c.attributes|, k requires 0 <= k < |c.attributes| =>
      TypeEntry(c.attributes[k].0, MapTypeEntryType(c.attributes[k].0, c.attributes[k].1, typename, pascal),
                c.attributes[k].1.required, c.attributes[k].1.hasDefault, c.attributes[k].1.isPrivate)))
  }

  /** `res.data.map(makeType)` */
  function MakeTypes(collections: seq<Collection>, pascal: string -> string): (types: seq<Type>)
    ensures |types| == |collections|
    ensures forall k :: 0 <= k < |collections| ==> types[k] == MakeType(collections[k], pascal)
  {
    seq(|collections|, k requires 0 <= k < |collections| => MakeType(collections[k], pascal))
  }

  /** An enum entry renders as the enum's name. */
  function TypeText(t: EntryType): string
  {
    match t
    case Plain(text) => text
    case EnumRef(name, _) => name
  }

  /** `makeTypeEntryString`: the read line of one entry; a non-required entry
      gains ` | null`. */
  function MakeTypeEntryString(e: TypeEntry): (line: string)
    ensures StartsWith(line, "    " + e.name + ": " + TypeText(e.entryType))
    ensures EndsWith(line, if e.isRequired then TypeText(e.entryType) + ";" else " | null;")
    ensures |line| == 6 + |e.name| + |TypeText(e.entryType)| + (if e.isRequired then 1 else 8)
  {
    var head := "    " + e.name + ": " + TypeText(e.entryType);
    var line := head + (if e.isRequired then "" else " | null") + ";";
    assert line[..|head|] == head;
    assert !e.isRequired ==> line[|line| - 8..] == " | null;";
    assert e.isRequired ==> line[|line| - |TypeText(e.entryType)| - 1..] == TypeText(e.entryType) + ";";
    line
  }

  /** The entries of the read block: the non-private ones, in order. */
  function PublicEntries(entries: seq<TypeEntry>): (visible: seq<TypeEntry>)
    ensures forall e :: e in visible <==> e in entries && !e.isPrivate
    ensures |visible| <= |entries|
  {
    if |entries| == 0 then []
    else (if entries[0].isPrivate then [] else [entries[0]]) + PublicEntries(entries[1..])
  }

  function Lines<T>(items: seq<T>, render: T -> string): (lines: seq<string>)
    ensures |lines| == |items|
    ensures forall k :: 0 <= k < |items| ==> lines[k] == render(items[k])
  {
    seq(|items|, k requires 0 <= k < |items| => render(items[k]))
  }

  /** Joining the renderings of one more item appends the separator and its
      rendering. */
  lemma JoinLinesSnoc<T>(items: seq<T>, render: T -> string, sep: string)
    requires |items| >= 2
    ensures Join(Lines(items, render), sep)
            == Join(Lines(items[..|items| - 1], render), sep) + sep + render(items[|items| - 1])
  {
    var n := |items|;
    assert Lines(items, render) == Lines(items[..n - 1], render) + [render(items[n - 1])];
    JoinSnoc(Lines(items[..n - 1], render), render(items[n - 1]), sep);
  }

  /** `makeTypeString`: the read block, framed as a type declaration;
      `ReadBlockHolds` gives the lines it holds. */
  function MakeTypeString(t: Type): (block: string)
    ensures StartsWith(block, "export type " + t.name + " = {\n") && EndsWith(block, "\n};")
  {
    var head := "export type " + t.name + " = {\n";
    var body := Join(Lines(PublicEntries(t.entries), MakeTypeEntryString), "\n");
    Framed(head, body, "\n};");
    head + body + "\n};"
  }

  /** The write-form type text: a non-enum type that names another collection
      (it holds `::`) also accepts raw numeric ids, as an array when the type
      is one. */
  function SendTypeText(t: EntryType): string
  {
    match t
    case EnumRef(name, _) => name
    case Plain(text) =>
      if Contains(text, "::") then text + " | number" + (if Contains(text, "[]") then "[]" else "") else text
  }

  /** `makeSendTypeEntryString`: `?` unless the attribute is required and has
      no default. */
  function MakeSendTypeEntryString(e: TypeEntry): (line: string)
    ensures |line| > 4 + |e.name| && line[..4 + |e.name|] == "    " + e.name
    ensures line[4 + |e.name|] == (if e.isRequired && !e.isProvided then ':' else '?')
    ensures EndsWith(line, SendTypeText(e.entryType) + ";")
    ensures |line| == 7 + |e.name| + (if e.isRequired && !e.isProvided then 0 else 1) + |SendTypeText(e.entryType)|
  {
    var marker := if e.isRequired && !e.isProvided then "" else "?";
    var tail := SendTypeText(e.entryType) + ";";
    var line := "    " + e.name + marker + ": " + tail;
    assert line[|line| - |tail|..] == tail;
    line
  }

  /** In the write form a reference `T` also accepts a raw id: `T | number`. */
  lemma SendReference(id: string)
    requires Contains(id, "::") && !Contains(id, "[]")
    ensures SendTypeText(Plain(id)) == id + " | number"
  {
    assert SendTypeText(Plain(id)) == id + " | number" + "";
  }

  /** An array of references `T[]` becomes `T[] | number[]`. */
  lemma SendReferenceArray(id: string)
    requires Contains(id, "::")
    ensures SendTypeText(Plain(id + "[]")) == id + "[]" + " | number" + "[]"
  {
    var text := id + "[]";
    assert Contains(text, "[]") by {
      ContainsInfix(id, "[]", "");
      assert id + "[]" + "" == text;
    }
    assert Contains(text, "::") by {
      ContainsPrefix(id, "[]", "::");
    }
  }

  /** A reference line of the read block resolves through the whole
      substitution pass: a line naming the k-th collection id, alone or as an
      array (`    tags: api::tag.tag[] | null;`), becomes the same line naming
      the k-th type name. */
  lemma ReadReferenceResolved(e: TypeEntry, suffix: string, pairs: seq<(string, string)>, k: nat)
    requires WellFormedPairs(pairs) && k < |pairs|
    requires forall m :: 0 <= m < |pairs| ==> CollectionId(pairs[m].0)
    requires '.' !in e.name && ':' !in e.name && (suffix == "" || suffix == "[]")
    requires e.entryType == Plain(pairs[k].0 + suffix)
    ensures SubstituteAll(MakeTypeEntryString(e), pairs)
            == MakeTypeEntryString(e.(entryType := Plain(pairs[k].1 + suffix)))
  {
    var head := "    " + e.name + "" + ": " + "";
    var after := (if e.isRequired then "" else " | null") + ";";
    var resolved := e.(entryType := Plain(pairs[k].1 + suffix));
    ReadLineShape(e, pairs[k].0, suffix);
    ReadLineShape(resolved, pairs[k].1, suffix);
    assert resolved.name == e.name && resolved.isRequired == e.isRequired;
    TsTypeGenerator.EntryHeadPlain(e.name, "", "");
    ReadLineAfter(e.isRequired);
    SubstituteAllInContext(head, suffix, after, pairs, k);
  }

  /** A reference line of the send block resolves the same way, and keeps the
      raw-id alternative: `    tags?: api::tag.tag[] | number[];` becomes
      `    tags?: Tag[] | number[];`. */
  lemma SendReferenceResolved(e: TypeEntry, suffix: string, pairs: seq<(string, string)>, k: nat)
    requires WellFormedPairs(pairs) && k < |pairs|
    requires forall m :: 0 <= m < |pairs| ==> CollectionId(pairs[m].0)
    requires '.' !in e.name && ':' !in e.name && (suffix == "" || suffix == "[]")
    requires e.entryType == Plain(pairs[k].0 + suffix) && Contains(pairs[k].0, "::")
    ensures var marker := if e.isRequired && !e.isProvided then "" else "?";
            SubstituteAll(MakeSendTypeEntryString(e), pairs)
            == "    " + e.name + marker + ": " + pairs[k].1 + suffix + " | number" + suffix + ";"
  {
    assert TokenId(pairs[k].0);
    SendLineShape(e, pairs[k].0, suffix);
    SendLineResolved(e.name, if e.isRequired && !e.isProvided then "" else "?", suffix, pairs, k);
  }

  /** The send line cut around the k-th id, resolved by the whole pass. */
  lemma SendLineResolved(name: string, marker: string, suffix: string, pairs: seq<(string, string)>, k: nat)
    requires WellFormedPairs(pairs) && k < |pairs|
    requires forall m :: 0 <= m < |pairs| ==> CollectionId(pairs[m].0)
    requires '.' !in name && ':' !in name && (marker == "" || marker == "?") && (suffix == "" || suffix == "[]")
    ensures SubstituteAll(("    " + name + marker + ": " + "") + pairs[k].0 + suffix + (" | number" + suffix + ";"), pairs)
            == "    " + name + marker + ": " + pairs[k].1 + suffix + " | number" + suffix + ";"
  {
    TsTypeGenerator.EntryHeadPlain(name, marker, "");
    SendLineAfter(suffix);
    SubstituteAllInContext("    " + name + marker + ": " + "", suffix, " | number" + suffix + ";", pairs, k);
    SendLineText(name, marker, pairs[k].1, suffix);
  }

  /** The read line of a reference, cut around the id. */
  lemma ReadLineShape(e: TypeEntry, target: string, suffix: string)
    requires e.entryType == Plain(target + suffix)
    ensures MakeTypeEntryString(e)
            == ("    " + e.name + "" + ": " + "") + target + suffix + ((if e.isRequired then "" else " | null") + ";")
  {
  }

  /** The send line of a reference, cut around the id. */
  lemma SendLineShape(e: TypeEntry, target: string, suffix: string)
    requires e.entryType == Plain(target + suffix) && Contains(target, "::") && TokenId(target)
    requires suffix == "" || suffix == "[]"
    ensures MakeSendTypeEntryString(e)
            == ("    " + e.name + (if e.isRequired && !e.isProvided then "" else "?") + ": " + "")
               + target + suffix + (" | number" + suffix + ";")
  {
    if suffix == "" {
      if Contains(target, "[]") {
        ContainsCharOf(target, "[]", 0);
      }
      assert target + suffix == target;
      SendReference(target);
    } else {
      SendReferenceArray(target);
    }
  }

  /** What follows the id on a read line opens with a delimiter and is plain. */
  lemma ReadLineAfter(isRequired: bool)
    ensures var after := (if isRequired then "" else " | null") + ";";
            |after| > 0 && ClosesToken(after[0]) && PlainText(after)
  {
    NoColonPlain((if isRequired then "" else " | null") + ";");
  }

  /** What follows the id on a send line opens with a delimiter and is plain. */
  lemma SendLineAfter(suffix: string)
    requires suffix == "" || suffix == "[]"
    ensures var after := " | number" + suffix + ";";
            |after| > 0 && ClosesToken(after[0]) && PlainText(after)
  {
    NoColonPlain(" | number" + suffix + ";");
  }

  /** The resolved send line, regrouped as the write form prints it. */
  lemma SendLineText(name: string, marker: string, id: string, suffix: string)
    ensures ("    " + name + marker + ": " + "") + id + suffix + (" | number" + suffix + ";")
            == "    " + name + marker + ": " + id + suffix + " | number" + suffix + ";"
  {
  }

  /** `makeSendTypeString`: the `Send…Form` block, framed as a type
      declaration; `BlocksAndPrivacy` gives the lines it holds. */
  function MakeSendTypeString(t: Type): (block: string)
    ensures StartsWith(block, "export type Send" + t.name + "Form = {\n") && EndsWith(block, "\n};")
  {
    var head := "export type Send" + t.name + "Form = {\n";
    var body := Join(Lines(t.entries, MakeSendTypeEntryString), "\n");
    Framed(head, body, "\n};");
    head + body + "\n};"
  }

  /** Privacy in this revision: the write block holds the line of every
      entry, the read block the line of every non-private one, and the read
      filter keeps exactly the non-private entries. */
  lemma BlocksAndPrivacy(t: Type, k: int)
    requires 0 <= k < |t.entries|
    ensures Contains(MakeSendTypeString(t), MakeSendTypeEntryString(t.entries[k]))
    ensures !t.entries[k].isPrivate ==> Contains(MakeTypeString(t), MakeTypeEntryString(t.entries[k]))
    ensures t.entries[k] !in PublicEntries(t.entries) <==> t.entries[k].isPrivate
  {
    FramedJoinContains("export type Send" + t.name + "Form = {\n", Lines(t.entries, MakeSendTypeEntryString), "\n", "\n};", k);
    if !t.entries[k].isPrivate {
      var visible := PublicEntries(t.entries);
      var j :| 0 <= j < |visible| && visible[j] == t.entries[k];
      ReadBlockHolds(t, j);
    }
  }

  /** The read block holds the line of every entry it keeps. */
  lemma ReadBlockHolds(t: Type, k: int)
    requires 0 <= k < |PublicEntries(t.entries)|
    ensures Contains(MakeTypeString(t), MakeTypeEntryString(PublicEntries(t.entries)[k]))
  {
    FramedJoinContains("export type " + t.name + " = {\n", Lines(PublicEntries(t.entries), MakeTypeEntryString), "\n", "\n};", k);
  }

  /** The read filter keeps the relative order of the entries. */
  lemma {:induction false} PublicEntriesConcat(a: seq<TypeEntry>, b: seq<TypeEntry>)
    ensures PublicEntries(a + b) == PublicEntries(a) + PublicEntries(b)
  {
    if |a| == 0 {
      assert a + b == b;
    } else {
      assert (a + b)[0] == a[0];
      assert (a + b)[1..] == a[1..] + b;
      PublicEntriesConcat(a[1..], b);
    }
  }

  /** A private entry leaves no trace in the read block: removing it renders
      the same block. */
  lemma PrivateEntryDropped(t: Type, k: int)
    requires 0 <= k < |t.entries| && t.entries[k].isPrivate
    ensures MakeTypeString(t) == MakeTypeString(t.(entries := t.entries[..k] + t.entries[k + 1..]))
  {
    var rest := t.(entries := t.entries[..k] + t.entries[k + 1..]);
    PrivateEntryFiltered(t.entries, k);
    assert rest.name == t.name && PublicEntries(rest.entries) == PublicEntries(t.entries);
  }

  /** The read filter keeps nothing of a private entry on its own. */
  lemma PrivateAlone(e: TypeEntry)
    requires e.isPrivate
    ensures PublicEntries([e]) == []
  {
    assert [e][1..] == [];
  }

  /** The read filter gives the same entries with or without a private one. */
  lemma PrivateEntryFiltered(entries: seq<TypeEntry>, k: int)
    requires 0 <= k < |entries| && entries[k].isPrivate
    ensures PublicEntries(entries[..k] + entries[k + 1..]) == PublicEntries(entries)
  {
    var a, e, b := entries[..k], entries[k], entries[k + 1..];
    SplitAt(entries, k);
    PrivateAlone(e);
    PublicEntriesConcat(a + [e], b);
    PublicEntriesConcat(a, [e]);
    PublicEntriesConcat(a, b);
    DropEmpty(PublicEntries(a), PublicEntries([e]), PublicEntries(b));
  }

  /** One type's part of the file: its read block, a blank line, its send block. */
  function TypeBlocks(t: Type): string
  {
    MakeTypeString(t) + "\n\n" + MakeSendTypeString(t)
  }

  /** `buildTypesFile`: per type, its read block and its send block; each
      further type adds a blank line and its two blocks at the end. */
  function BuildTypesFile(types: seq<Type>): (file: string)
    ensures |types| == 0 ==> file == ""
    ensures |types| == 1 ==> file == TypeBlocks(types[0])
    ensures |types| >= 2 ==> file == BuildTypesFile(types[..|types| - 1]) + "\n\n" + TypeBlocks(types[|types| - 1])
    decreases |types|
  {
    if |types| >= 2 then
      assert Join(Lines(types, TypeBlocks), "\n\n")
             == Join(Lines(types[..|types| - 1], TypeBlocks), "\n\n") + "\n\n" + TypeBlocks(types[|types| - 1]) by {
        JoinLinesSnoc(types, TypeBlocks, "\n\n");
      }
      Join(Lines(types, TypeBlocks), "\n\n")
    else
      Join(Lines(types, TypeBlocks), "\n\n")
  }

  /** All blocks in file order: read then send, type by type. */
  function Blocks(types: seq<Type>): (blocks: seq<string>)
    ensures |blocks| == 2 * |types|
  {
    if |types| == 0 then []
    else
      var last := types[|types| - 1];
      Blocks(types[..|types| - 1]) + [MakeTypeString(last), MakeSendTypeString(last)]
  }

  /** The file is every block, read before send, separated by blank lines. */
  lemma {:induction false} BuildTypesFileBlocks(types: seq<Type>)
    ensures BuildTypesFile(types) == Join(Blocks(types), "\n\n")
  {
    if |types| > 0 {
      var last := types[|types| - 1];
      var pair := [MakeTypeString(last), MakeSendTypeString(last)];
      assert Join(pair, "\n\n") == TypeBlocks(last) by {
        assert pair[1..] == [MakeSendTypeString(last)];
      }
      if |types| == 1 {
        assert Blocks(types) == pair;
      } else {
        BuildTypesFileBlocks(types[..|types| - 1]);
        JoinAppend(Blocks(types[..|types| - 1]), pair, "\n\n");
      }
    }
  }

  /** The enum declarations of one type's enum entries, in entry order. */
  function EntryEnums(entries: seq<TypeEntry>, pascal: string -> string): seq<string>
  {
    if |entries| == 0 then []
    else EntryEnum(entries[0], pascal) + EntryEnums(entries[1..], pascal)
  }

  /** The enum declaration of one entry, if it names an enum. */
  function EntryEnum(e: TypeEntry, pascal: string -> string): seq<string>
  {
    match e.entryType
    case EnumRef(name, values) => [TsTypeGenerator.MakeEnumString(name, values, pascal)]
    case Plain(_) => []
  }

  /** The `reduce` collecting the enum declarations of all types, in type order. */
  function EnumDecls(types: seq<Type>, pascal: string -> string): seq<string>
  {
    if |types| == 0 then []
    else EnumDecls(types[..|types| - 1], pascal) + EntryEnums(types[|types| - 1].entries, pascal)
  }

  /** Every enum entry, private or not, is declared. */
  lemma {:induction false} EntryEnumsComplete(entries: seq<TypeEntry>, pascal: string -> string, k: int)
    requires 0 <= k < |entries| && entries[k].entryType.EnumRef?
    ensures TsTypeGenerator.MakeEnumString(entries[k].entryType.name, entries[k].entryType.values, pascal)
            in EntryEnums(entries, pascal)
  {
    if k > 0 {
      EntryEnumsComplete(entries[1..], pascal, k - 1);
    }
  }

  /** Enum declarations keep the type order across a split of the list. */
  lemma {:induction false} EnumDeclsConcat(a: seq<Type>, b: seq<Type>, pascal: string -> string)
    ensures EnumDecls(a + b, pascal) == EnumDecls(a, pascal) + EnumDecls(b, pascal)
    decreases |b|
  {
    if |b| == 0 {
      assert a + b == a;
    } else {
      var init := b[..|b| - 1];
      SplitLast(a, b);
      EnumDeclsConcat(a, init, pascal);
      SeqAssoc(EnumDecls(a, pascal), EnumDecls(init, pascal), EntryEnums(b[|b| - 1].entries, pascal));
    }
  }

  /** Dropping the last element of a concatenation drops it from its right part. */
  lemma SplitLast<T>(a: seq<T>, b: seq<T>)
    requires |b| > 0
    ensures (a + b)[..|a + b| - 1] == a + b[..|b| - 1] && (a + b)[|a + b| - 1] == b[|b| - 1]
  {
  }

  /** A sequence is its part before `k`, its element at `k` and its part after. */
  lemma SplitAt<T>(s: seq<T>, k: int)
    requires 0 <= k < |s|
    ensures s == s[..k] + [s[k]] + s[k + 1..]
  {
  }

  lemma DropEmpty<T>(x: seq<T>, y: seq<T>, z: seq<T>)
    requires y == []
    ensures x + y + z == x + z
  {
  }

  lemma SeqAssoc<T>(x: seq<T>, y: seq<T>, z: seq<T>)
    ensures x + y + z == x + (y + z)
  {
  }

  /** The hard-coded login form. */
  function UserLoginType(): Type
  {
    Type("custom::UserLogin", "UserLoginForm",
         [TypeEntry("identifier", Plain("string"), true, false, false),
          TypeEntry("password", Plain("string"), true, false, false)])
  }

  /** The (id, name) pairs of the sorted types, in order. */
  function IdPairs(types: seq<Type>): (pairs: seq<(string, string)>)
    ensures |pairs| == |types|
    ensures forall k :: 0 <= k < |types| ==> pairs[k] == (types[k].id, types[k].name)
  {
    seq(|types|, k requires 0 <= k < |types| => (types[k].id, types[k].name))
  }

  /** The file `generateTypes` writes, in terms of the sorted types:
      substituted read and send blocks, the login form, then the enums. */
  function Content(types: seq<Type>, pascal: string -> string): string
  {
    SubstituteAll(BuildTypesFile(types), IdPairs(types))
    + "\n\n" + MakeTypeString(UserLoginType())
    + "\n\n" + Join(EnumDecls(types, pascal), "\n\n") + "\n"
  }

  /** `generateTypes` on already fetched collections: build, sort, substitute
      with `forEach`, append the login form and the collected enums. */
  method GenerateTypes(components: seq<Collection>, contentTypes: seq<Collection>, pascal: string -> string)
    returns (types: seq<Type>, content: string)
    ensures multiset(types) == multiset(MakeTypes(components, pascal) + MakeTypes(contentTypes, pascal))
    ensures SortedBy(types, NameOf)
    ensures content == Content(types, pascal)
  {
    var made := MakeTypes(components, pascal) + MakeTypes(contentTypes, pascal);
    types := SortCopy(made, NameOf);
    var text := SubstituteTypes(types, BuildTypesFile(types));
    text := text + "\n\n" + MakeTypeString(UserLoginType());
    var strapiEnums := CollectEnums(types, pascal);
    content := text + "\n\n" + Join(strapiEnums, "\n\n") + "\n";
  }

  /** The substitution `forEach`, reassigning the text once per type. */
  method SubstituteTypes(types: seq<Type>, text: string) returns (content: string)
    ensures content == SubstituteAll(text, IdPairs(types))
  {
    content := text;
    for k := 0 to |types|
      invariant content == SubstituteAll(text, IdPairs(types[..k]))
    {
      var pairs := IdPairs(types[..k + 1]);
      assert pairs[..k] == IdPairs(types[..k]);
      content := Replace(content, types[k].id, types[k].name);
    }
    assert types[..|types|] == types;
  }

  /** The enum-collecting `reduce`. */
  method CollectEnums(types: seq<Type>, pascal: string -> string) returns (enums: seq<string>)
    ensures enums == EnumDecls(types, pascal)
  {
    enums := [];
    for k := 0 to |types|
      invariant enums == EnumDecls(types[..k], pascal)
    {
      assert types[..k + 1][..k] == types[..k];
      enums := enums + EntryEnums(types[k].entries, pascal);
    }
    assert types[..|types|] == types;
  }
}
