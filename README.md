# Strapi schema to TypeScript declarations, modelled in Dafny

This project models the core of StrapiTools' type generator. The generator reads
the schemas of a Strapi server and writes a TypeScript file.
Its input is a list of components and content types. Each of them has a uid, an
optional plugin, a display name and named attributes.
Its output declares read shapes, write shapes ("send" or "create" forms) and
enums for these collections; which collections get which shapes depends on
the revision, as described below.
Internal ids such as `api::post.post` are rewritten into type names wherever they
stand as whole tokens.

Three revisions of the generator live side by side in the repository, and all
three are modelled:

- `TypeGenerator.ts` + `TsTypeGenerator.ts` (the current one). An attribute
  becomes a tree of alternatives (`GeneratedTypes.Alt`). A component gets a
  read shape only (`TypeGenerator.ts:24`). A content type gets a read shape
  and a write shape; its read shape gains `id`, `createdAt` and `updatedAt`,
  its write shape `id` only (`TypeGenerator.ts:99-134`). A `StrapiTypes`
  registry maps plural names to `{get; send}` pairs. Modules
  `TypeNames`, `TsTypeGenerator`, `TypeGenerator`.
- `src/commands/generateTypes/ts.ts`. Attributes become flat strings or enum
  references. Each type gets a read block and a `Send…Form` block. One
  substitution pass runs over the whole file, and then the login form and the
  enums are appended. Module `TsCommand`.
- `src/generateTypes.ts` (the first one). Enumerations are inlined as unions
  of quoted values, and the module has its own plugin-prefix table and
  `Create…Form` blocks. It also computes the parent directory of the output
  path. Module `LegacyGenerator`.

The shared pieces each have a module of their own:

- `Utils`: `escapeRegExp`.
- `StrapiUtils`: `mapPluginName`.
- `StrapiTypes`: the schema descriptors.
- `Ordering`: the by-name sort, an in-place insertion sort on an array.
- `Strings`: the JavaScript string and array operations used.
- `Substitution`: the whole-token id substitution. The regular expression
  `(?<=[ (])ID(?=(?:\[])?[; )])` with the `g` flag becomes an explicit
  left-to-right scanner. It tests the lookbehind on the original text and
  never overlaps two matches.

Code that updates variables step by step is written as methods. The loops
of `makeTypes`, `getTypes` with its in-place sort, the `map`/`reduce` passes
and the `forEach` reassignments of the substitution steps become methods with
`for` loops and their invariants. The reassignments without a loop, the
`typename` of `getTypeName`, the `let type` / `push("null")` of
`mapTypeEntryType` and the `pop` of the parent-path computation, become
methods with straight-line bodies. Each such method is proved against a
specification function, and the properties are stated as lemmas about that
function.

Two points of the code's behaviour are easy to misread:

- `null` is appended to the alternatives only in the read form
  (`!isToSend && !attribute.required`, `TsTypeGenerator.ts:67`), never in the
  write form. `TsTypeGenerator.EntryType` and `TsTypeGenerator.NullMarker`
  state this.
- The registry filter `"pluralName" in type` holds for every object that
  `makeTypes` returns for a collection. The property is written with object
  shorthand, so it exists even when its value is `undefined`. The filter never
  holds for an enum. `TypeGenerator.Registered` therefore keeps every shape whose
  id passes the pattern. A shape without a plural name would be keyed
  `undefined`, as the template literal renders it.

## Model

| member | source | states |
|---|---|---|
| Utils.EscapeRegExp | src/utils.ts:1 | the output is longer than the input by exactly the number of metacharacters; an input without metacharacters comes back unchanged |
| Utils.UnescapeEscape | src/utils.ts:1 | removing the backslash in front of every escaped metacharacter gives back the original string, so the escaped pattern denotes the id literally |
| Utils.EscapeConcat | src/utils.ts:1 | escaping distributes over concatenation |
| Utils.EscapePlain | src/utils.ts:1 | a string with no metacharacter, such as `api::post-tag`, is used as it is |
| Utils.EscapeOneMeta | src/utils.ts:1 | a single metacharacter between plain stretches (the dot of `plugin::upload.file`) gains exactly one backslash, and every other character is copied in order |
| StrapiUtils.MapPluginName | src/strapi-utils.ts:1-14 | the prefix is one of `""`, `Strapi`, `Admin`, `I18N`, and it is non-empty exactly for the plugins `upload`, `admin` and `i18n` |
| StrapiUtils.MapPluginNameTable | src/strapi-utils.ts:2-13 | the table row by row: `users-permissions` gives `""`, `upload` gives `Strapi`, `admin` gives `Admin`, `i18n` gives `I18N`, and any other or absent plugin gives `""` |
| StrapiUtils.PrefixIsPlainWord | src/strapi-utils.ts:1-14 | no prefix contains a space or a hyphen |
| Strings.RemoveSpaces | src/commands/generateTypes/generator/TypeGenerator.ts:170 | `replace(/ /g, "")` leaves no space and shortens the text exactly when it held one |
| Strings.JoinSplit | src/generateTypes.ts:103-105 | joining the pieces of a split with the separator gives back the path |
| Ordering.BelowTotal | src/commands/generateTypes/generator/TypeGenerator.ts:47 | any two names are comparable |
| Ordering.BelowTransitive | src/commands/generateTypes/generator/TypeGenerator.ts:47 | the comparator is transitive |
| Ordering.BelowAntisymmetric | src/commands/generateTypes/generator/TypeGenerator.ts:47 | names that sort both ways are equal |
| Ordering.SortByName | src/commands/generateTypes/generator/TypeGenerator.ts:47 | the in-place sort leaves the array ordered by name and holding the same elements |
| Ordering.InsertLast | src/commands/generateTypes/generator/TypeGenerator.ts:47 | one insertion step of the in-place sort extends the sorted prefix by one element and keeps the elements |
| Ordering.SortCopy | src/generateTypes.ts:90-92 | the sorted list is a permutation of its input, in ascending name order |
| Substitution.ReplaceNoMatch | src/commands/generateTypes/generator/TsTypeGenerator.ts:82-85 | text with no whole-token occurrence of the id is left unchanged |
| Substitution.Replace | src/commands/generateTypes/generator/TsTypeGenerator.ts:82-85 | one `replace` call keeps the first character: a match needs a delimiter in front of it |
| Substitution.SubstituteAll | src/commands/generateTypes/generator/TsTypeGenerator.ts:78-86 | the `forEach` of replacements keeps the first character of the text |
| Substitution.ReplaceCut | src/commands/generateTypes/generator/TsTypeGenerator.ts:82-85 | text is substituted independently on both sides of a delimiter character, which is kept |
| Substitution.SubstituteAllCut | src/commands/generateTypes/generator/TsTypeGenerator.ts:78-86 | the whole pass splits at a delimiter character the same way one `replace` does |
| Substitution.SubstituteAllInContext | src/commands/generateTypes/generator/TsTypeGenerator.ts:78-86 | a line that holds the k-th collection id between plain text, as a rendered entry line does, comes out of the whole pass with the id replaced by the k-th name and all else kept |
| Substitution.SubstituteAllTwoInContext | src/commands/generateTypes/generator/TsTypeGenerator.ts:78-86 | a line that holds two collection ids separated by plain text, as a dynamic zone `(shared.a \| shared.b)[]` or a registry value does, comes out of the whole pass with each id replaced by its own name and all else kept |
| Substitution.NoMatchInsideToken | src/commands/generateTypes/generator/TsTypeGenerator.ts:83 | no match starts inside a rendered token, because the lookbehind needs a space or `(` |
| Substitution.ReplaceOwnToken | src/commands/generateTypes/generator/TsTypeGenerator.ts:82-85 | a token holding the id, with or without `[]`, is rewritten to the name, and its delimiters are kept |
| Substitution.ReplaceOtherToken | src/commands/generateTypes/generator/TsTypeGenerator.ts:83 | a token holding a different id is left alone, even when one id is a prefix or suffix of the other (`api::post` inside `api::post-tag` or `send::api::post`) |
| Substitution.SubstituteAllOtherToken | src/commands/generateTypes/generator/TsTypeGenerator.ts:78-86 | the whole `forEach` pass leaves alone a token whose id none of the pairs has |
| Substitution.SubstituteAllToken | src/commands/generateTypes/generator/TsTypeGenerator.ts:78-86 | with distinct ids and no name equal to an id, the whole pass rewrites a token of the k-th id to exactly the k-th name |
| Substitution.ReplaceConcat | src/commands/generateTypes/generator/TsTypeGenerator.ts:82-85 | text ending a clause with `;` or `)` is substituted independently of what follows it |
| Substitution.SubstituteAllConcat | src/commands/generateTypes/ts.ts:26-33 | substituting a whole file equals substituting its clause-ending pieces separately |
| Substitution.PrefixSharingIds | src/commands/generateTypes/generator/TsTypeGenerator.ts:83 | for ids `api::post` and `api::post-tag`, the tokens ` api::post;` and ` api::post-tag[];` become `Post` and `PostTag[]` |
| TypeNames.TypeName | src/commands/generateTypes/generator/TypeGenerator.ts:168-176 | a type name never contains a space |
| TypeNames.GetTypeName | src/commands/generateTypes/generator/TypeGenerator.ts:168-176 | the method that reassigns `typename` computes the plugin prefix plus the space-free display name, wrapped in the write form |
| TypeNames.SendNameWrapsReadName | src/commands/generateTypes/generator/TypeGenerator.ts:171-173 | the write-form name is `"Send" + read name + "Form"` |
| TypeNames.TypeNameIgnoresSpaces | src/commands/generateTypes/generator/TypeGenerator.ts:169-170 | display names differing only in spaces give the same type name |
| TypeNames.EnumName | src/commands/generateTypes/generator/TypeGenerator.ts:164-166 | an enum name is the read-form type name followed by the Pascal-cased attribute name: it starts with the one, ends with the other, and its length is the sum of theirs |
| TypeNames.EnumNameDistinguishesAttributes | src/commands/generateTypes/generator/TypeGenerator.ts:164-166 | within one collection, two attributes get the same enum name exactly when their Pascal-cased names agree |
| TypeNames.PluralName | src/commands/generateTypes/generator/TypeGenerator.ts:99-106 | only content types have a plural name |
| TypeNames.PluralNameQuoting | src/commands/generateTypes/generator/TypeGenerator.ts:101-106 | the key is quoted exactly when the prefixed name has a hyphen, and unquoting it recovers that name |
| TypeNames.PrefixedPluralNameIsQuoted | src/commands/generateTypes/generator/TypeGenerator.ts:100-106 | an `upload` content type is keyed `"strapi-<pluralName>"`, quoted |
| TsTypeGenerator.EntryType | src/commands/generateTypes/generator/TsTypeGenerator.ts:19-72 | the entry type is one non-array union: the kind's alternative, then `null` as the last alternative exactly in the read form of a non-required attribute |
| TsTypeGenerator.MapTypeEntryType | src/commands/generateTypes/generator/TsTypeGenerator.ts:19-72 | the switch that assigns `type` and then pushes `null` computes `EntryType` |
| TsTypeGenerator.ScalarMapping | src/commands/generateTypes/generator/TsTypeGenerator.ts:26-64 | `datetime`/`text`/`email`/`json`/`password` give `string`, `decimal`/`integer` give `number`, `media` gives `plugin::upload.file`, and any other kind passes through |
| TsTypeGenerator.RelationMapping | src/commands/generateTypes/generator/TsTypeGenerator.ts:38-48 | a relation is one nested group of its target (`unknown` when missing), with `number` added exactly in the write form; it is an array exactly for `…Many` relations |
| TsTypeGenerator.ComponentMapping | src/commands/generateTypes/generator/TsTypeGenerator.ts:52-59 | a component is a one-member group that is an array exactly when repeatable; a dynamic zone is an array of all its components in order |
| TsTypeGenerator.AltToString | src/commands/generateTypes/generator/TsTypeGenerator.ts:104-113 | an array always renders with the `[]` suffix, and a non-array union of one member renders as that member |
| TsTypeGenerator.ArrayRendersWithSuffix | src/commands/generateTypes/generator/TsTypeGenerator.ts:108-109 | every array renders with the `[]` suffix |
| TsTypeGenerator.UnionArrayIsParenthesised | src/commands/generateTypes/generator/TsTypeGenerator.ts:104-113 | an array of two or more alternatives renders as `(a \| b …)[]` |
| TsTypeGenerator.SingleArrayIsBare | src/commands/generateTypes/generator/TsTypeGenerator.ts:109 | an array of one name without ` \| ` renders as `name[]` |
| TsTypeGenerator.NullMarker | src/commands/generateTypes/generator/TsTypeGenerator.ts:67-69 | a non-required entry in the read form renders with a trailing ` \| null`; every other entry renders as its kind's alternative alone |
| TsTypeGenerator.RelationAlternative | src/commands/generateTypes/generator/TsTypeGenerator.ts:38-48 | a relation's alternative is its target (`unknown` when missing), joined by `number` in the write form, an array exactly for a `…Many` relation |
| TsTypeGenerator.ManyRelationRendering | src/commands/generateTypes/generator/TsTypeGenerator.ts:38-48 | a required to-many relation renders as `target[]` when read and `(target \| number)[]` when written |
| TsTypeGenerator.RelationRendering | src/commands/generateTypes/generator/TsTypeGenerator.ts:38-48 | a relation entry renders, in both forms and for to-one and to-many, as an optional `(`, the target, then `[]`, ` \| number`, ` \| number)[]` or ` \| null` exactly as the form, the cardinality and `required` call for |
| TsTypeGenerator.RelationLineResolved | src/commands/generateTypes/generator/TsTypeGenerator.ts:78-86 | the substitution pass turns the line of a relation entry to the k-th collection id, in either form (`    author: api::writer.writer \| null;`, `    tags?: (api::tag.tag \| number)[];`), into the same line with the k-th type name |
| TsTypeGenerator.MakeTypeEntryString | src/commands/generateTypes/generator/TsTypeGenerator.ts:101-102 | a line is four spaces and the name, then `?` exactly for an optional entry (`:` otherwise), and it ends with `: `, the rendered type and `;`, with nothing else in between |
| TsTypeGenerator.EntryLineReadBack | src/commands/generateTypes/generator/TsTypeGenerator.ts:101-102 | two entries of one name give the same line exactly when they agree on optionality and on the rendered type |
| TsTypeGenerator.VisibleEntries | src/commands/generateTypes/generator/TsTypeGenerator.ts:97 | an entry is rendered exactly when the form is the write form or the entry is not private; the write form keeps all entries |
| TsTypeGenerator.VisibleEntriesConcat | src/commands/generateTypes/generator/TsTypeGenerator.ts:97 | the privacy filter keeps the relative order of entries |
| TsTypeGenerator.ShapeRendersVisibleLines | src/commands/generateTypes/generator/TsTypeGenerator.ts:95-99 | a shape's declaration contains the line of every entry it keeps |
| TsTypeGenerator.MakeTypeString | src/commands/generateTypes/generator/TsTypeGenerator.ts:95-99 | a shape renders as a declaration that opens with `export type <name> = {` and a newline and closes with a newline and `};` |
| TsTypeGenerator.MakeEnumString | src/commands/generateTypes/generator/TsTypeGenerator.ts:115-118 | an enum renders as `export enum <name> {` … `}` holding the `Pascal = "value"` member of every value |
| TsTypeGenerator.EnumMembersInOrder | src/commands/generateTypes/generator/TsTypeGenerator.ts:115-118 | one more value adds one more `Pascal = "value"` member at the end, after `,\n` |
| TsTypeGenerator.StringifyType | src/commands/generateTypes/generator/TsTypeGenerator.ts:75-91 | one type's string: a shape's declaration substituted by every shape pair, or an enum's declaration unchanged |
| TsTypeGenerator.SubstituteShapes | src/commands/generateTypes/generator/TsTypeGenerator.ts:78-87 | the `forEach` over the shapes leaves the text substituted by every shape's (id, name) pair, in list order, enums skipped |
| TsTypeGenerator.StringifyTypes | src/commands/generateTypes/generator/TsTypeGenerator.ts:74-92 | one string per type, in order; an enum is rendered without substitution; a shape's text is substituted by every shape's (id, name) pair, in list order |
| TypeGenerator.SchemaEntries | src/commands/generateTypes/generator/TypeGenerator.ts:89-97 | one entry per attribute, in schema order |
| TypeGenerator.MapEntries | src/commands/generateTypes/generator/TypeGenerator.ts:89-97 | the attribute map calls the mapper once per attribute and yields the schema entries |
| TypeGenerator.SyntheticEntries | src/commands/generateTypes/generator/TypeGenerator.ts:108-133 | a component gets no extra entries; a content type gets `id` first, and three entries when read, one when written |
| TypeGenerator.EnumsOf | src/commands/generateTypes/generator/TypeGenerator.ts:136-143 | the extracted list holds enums only, at most one per attribute |
| TypeGenerator.AttributeEnums | src/commands/generateTypes/generator/TypeGenerator.ts:139-143 | an attribute yields its own enum, named by `getEnumName` with its values, exactly when it is an `enumeration`, and nothing otherwise |
| TypeGenerator.EnumsOfMembership | src/commands/generateTypes/generator/TypeGenerator.ts:136-143 | an enum is extracted exactly when some attribute yields it |
| TypeGenerator.EnumsOfConcat | src/commands/generateTypes/generator/TypeGenerator.ts:138-143 | enums come out in attribute order |
| TypeGenerator.TypesOf | src/commands/generateTypes/generator/TypeGenerator.ts:145-154 | the shape comes first and only enums follow it; the write form has no enums |
| TypeGenerator.MakeTypes | src/commands/generateTypes/generator/TypeGenerator.ts:82-155 | the method that pushes entries and reassigns `pluralName` returns `TypesOf` |
| TypeGenerator.ShapeIdentity | src/commands/generateTypes/generator/TypeGenerator.ts:145-154 | the shape's id is the uid, with `send::` in front in the write form; its name is `getTypeName`'s; it has a plural name exactly for content types |
| TypeGenerator.OptionalityLaw | src/commands/generateTypes/generator/TypeGenerator.ts:89-97 | each schema entry keeps its attribute's name, `required` and `private` flags and mapped type; it is optional exactly in the write form when not required or defaulted |
| TypeGenerator.SyntheticEntriesLaw | src/commands/generateTypes/generator/TypeGenerator.ts:108-133 | after the schema entries, a read content type has a required `id`, then `createdAt` and `updatedAt`; a written one has only an optional `id`; components have none |
| TypeGenerator.PrivacyLaw | src/commands/generateTypes/generator/TypeGenerator.ts:95 | a private attribute is left out of the rendered read shape and kept in the write shape; synthetic entries are always rendered |
| TypeGenerator.EnumsLaw | src/commands/generateTypes/generator/TypeGenerator.ts:136-143 | every `enumeration` attribute yields an enum named after the read type and the attribute, carrying its values; the write form yields no enum |
| TypeGenerator.SendIdNeverRegistered | src/commands/generateTypes/generator/TypeGenerator.ts:51-53 | no `send::…` id passes the registry pattern |
| TypeGenerator.RegistryId | src/commands/generateTypes/generator/TypeGenerator.ts:51 | an id that passes the anchored pattern starts with `api::` or `plugin::` and has more than the five characters of `api::` |
| TypeGenerator.GetSendString | src/commands/generateTypes/generator/TypeGenerator.ts:58-59 | the registry value starts with `get: <id>;`, ends with `send: send::<id>;` and has exactly the length of those two lines and their braces, so nothing else sits between them |
| TypeGenerator.Registered | src/commands/generateTypes/generator/TypeGenerator.ts:52-54 | a type is registered exactly when it is a shape whose id passes the pattern |
| TypeGenerator.MakeStrapiTypesType | src/commands/generateTypes/generator/TypeGenerator.ts:50-73 | the registry is the read shape `StrapiTypes`, with id `result::strapiTypes` and one required, non-optional, public entry per registered shape |
| TypeGenerator.RegistryMembership | src/commands/generateTypes/generator/TypeGenerator.ts:52-71 | an entry is in the registry exactly when it is the entry of a registered shape |
| TypeGenerator.GatherMember | src/commands/generateTypes/generator/TypeGenerator.ts:20-39 | whatever the `reduce` callback gives for any element is in the concatenated result |
| TypeGenerator.ReadAndWrite | src/commands/generateTypes/generator/TypeGenerator.ts:32-36 | one content type's contribution holds its read shape and its write shape |
| TypeGenerator.ContentTypeShapes | src/commands/generateTypes/generator/TypeGenerator.ts:28-39 | every content type contributes its read and its write shape |
| TypeGenerator.ContentTypeRegistered | src/commands/generateTypes/generator/TypeGenerator.ts:50-71 | a content type whose uid passes the pattern is registered under its plural name, with `{get: uid; send: send::uid}` |
| TypeGenerator.SendShapesNeverRegistered | src/commands/generateTypes/generator/TypeGenerator.ts:51-54 | no registered shape has a `send::` id |
| TypeGenerator.CollectComponentTypes | src/commands/generateTypes/generator/TypeGenerator.ts:20-27 | the `reduce` over the components concatenates their read types, in order |
| TypeGenerator.CollectContentTypeTypes | src/commands/generateTypes/generator/TypeGenerator.ts:28-39 | the `reduce` over the content types concatenates, per content type, its read types and its write shape |
| TypeGenerator.GetTypes | src/commands/generateTypes/generator/TypeGenerator.ts:19-48 | the result is a permutation of component types, content-type types and the registry, in ascending name order |
| TypeGenerator.JoinTypeStrings | src/commands/generateTypes/generator/TypeGenerator.ts:180 | no declarations give the empty content, one gives itself, and each further declaration follows the join of the earlier ones after a blank line, so the declarations keep their order; every declaration occurs in the content |
| TypeGenerator.GenerateTypes | src/commands/generateTypes/generator/TypeGenerator.ts:75-80 | the content is the sorted types' substituted declarations, joined by blank lines, plus the final newline |
| TsCommand.MappingTable | src/commands/generateTypes/ts.ts:91-123 | the flat mapping row by row: scalars as in the table, a relation is its target (`unknown` when missing) followed by `[]` exactly when to-many, `media` is `plugin::upload.file`, a component is its uid followed by `[]` exactly when repeatable, a dynamic zone is `(` + its components joined by ` \| ` + `)[]`, an enum reference exactly for `enumeration`, pass-through otherwise |
| TsCommand.MapTypeEntryType | src/commands/generateTypes/ts.ts:91-123 | the result is an enum reference exactly for an `enumeration`, named by the type name and the Pascal-cased attribute name and carrying its values |
| TsCommand.FlatMatchesTree | src/commands/generateTypes/ts.ts:106-116 | the flat string equals the current revision's read-form rendering of the same attribute, before `null` (names without ` \| `, dynamic zones of two or more components) |
| TsCommand.MakeType | src/commands/generateTypes/ts.ts:71-89 | the id is the uid, the name is prefix plus the space-free display name, and there is one entry per attribute with its `required`, default and `private` flags |
| TsCommand.MakeTypes | src/commands/generateTypes/ts.ts:20-21 | one type per collection, in order |
| TsCommand.MakeTypeEntryString | src/commands/generateTypes/ts.ts:134-135 | the read line is the name, `: ` and the type (an enum by its name), then ` \| null` exactly when the entry is not required, then `;`: prefix, suffix and exact length pin the line |
| TsCommand.PublicEntries | src/commands/generateTypes/ts.ts:130 | the read block keeps exactly the non-private entries |
| TsCommand.MakeTypeString | src/commands/generateTypes/ts.ts:128-132 | the read block opens with `export type <name> = {` and a newline and closes with a newline and `};`; the lines it holds are given by ReadBlockHolds and PrivateEntryDropped |
| TsCommand.MakeSendTypeString | src/commands/generateTypes/ts.ts:137-138 | the send block opens with `export type Send<name>Form = {` and a newline and closes with a newline and `};` |
| TsCommand.MakeSendTypeEntryString | src/commands/generateTypes/ts.ts:140-147 | the send line is the name, `?` unless the entry is required without a default, `: `, the write-form type and `;`, with the exact length |
| TsCommand.SendReference | src/commands/generateTypes/ts.ts:144-146 | in the write form a reference `T` (a type holding `::`, no `[]`) becomes `T \| number` |
| TsCommand.SendReferenceArray | src/commands/generateTypes/ts.ts:144-146 | in the write form an array of references `T[]` becomes `T[] \| number[]` |
| TsCommand.BlocksAndPrivacy | src/commands/generateTypes/ts.ts:128-138 | the send block holds every entry's line, the read block holds the line of every non-private entry, and the read filter keeps exactly the non-private entries |
| TsCommand.ReadBlockHolds | src/commands/generateTypes/ts.ts:128-132 | the read block holds the line of every entry the filter keeps |
| TsCommand.PublicEntriesConcat | src/commands/generateTypes/ts.ts:130 | the read filter distributes over concatenation, so kept entries stay in order |
| TsCommand.PrivateEntryFiltered | src/commands/generateTypes/ts.ts:130 | removing a private entry does not change what the read filter keeps |
| TsCommand.PrivateEntryDropped | src/commands/generateTypes/ts.ts:128-132 | a private entry leaves no trace in the read block: the type without it renders the same block |
| TsCommand.BuildTypesFile | src/commands/generateTypes/ts.ts:125-126 | no types give the empty file, one type gives its read block, a blank line and its send block, and each further type adds a blank line and its two blocks at the end |
| TsCommand.BuildTypesFileBlocks | src/commands/generateTypes/ts.ts:125-126 | the file is every type's read block then send block, all separated by blank lines |
| TsCommand.EntryEnumsComplete | src/commands/generateTypes/ts.ts:57-65 | every enum entry, private or not, is declared |
| TsCommand.EnumDeclsConcat | src/commands/generateTypes/ts.ts:57-65 | enum declarations follow the type order |
| TsCommand.IdPairs | src/commands/generateTypes/ts.ts:27-33 | the substitution pairs are the sorted types' ids and names, in order |
| TsCommand.SubstituteTypes | src/commands/generateTypes/ts.ts:26-33 | the `forEach` reassignment applies every pair's replacement in order |
| TsCommand.ReadReferenceResolved | src/commands/generateTypes/ts.ts:26-33 | a read line naming the k-th collection id, bare or as an array (`    tags: api::tag.tag[] \| null;`), comes out of the whole substitution pass as the same line naming the k-th type name; every other pair leaves it alone |
| TsCommand.SendReferenceResolved | src/commands/generateTypes/ts.ts:26-33 | a send line naming the k-th collection id (`    tags?: api::tag.tag[] \| number[];`) comes out as `    tags?: <name>[] \| number[];`: the id is replaced and the raw-id alternative is kept |
| TsCommand.CollectEnums | src/commands/generateTypes/ts.ts:57-65 | the `reduce` collects the enum declarations of all types |
| TsCommand.GenerateTypes | src/commands/generateTypes/ts.ts:16-69 | the types are a sorted permutation of the made types; the content is the substituted file, the login form, the enums and a newline |
| LegacyGenerator.EnumUnionSnoc | src/generateTypes.ts:48-50 | one more enum value adds ` \| "value"` at the end, so the values keep their order |
| LegacyGenerator.EnumUnionSingle | src/generateTypes.ts:48-50 | a single value is one quoted literal |
| LegacyGenerator.MapType | src/generateTypes.ts:48-50 | an enumeration's type holds every one of its values in double quotes |
| LegacyGenerator.MapTypeMatchesCommand | src/generateTypes.ts:26-54 | every kind but `enumeration` maps as in the later flat revision; an enumeration is inlined as the union of its values |
| LegacyGenerator.MapPlugin | src/generateTypes.ts:56-68 | `users-permissions` gives `UsersPermissions`, `upload` and `admin` give `Strapi`, `i18n` gives `I18N`, anything else gives `""` |
| LegacyGenerator.MapPluginVersusMapPluginName | src/generateTypes.ts:56-68 | the two prefix tables differ only on `users-permissions` and `admin` |
| LegacyGenerator.MakeType | src/generateTypes.ts:70-86 | the id is the uid, the name is prefix plus the space-free display name, and there is one entry per attribute with its flags |
| LegacyGenerator.MakeTypes | src/generateTypes.ts:88-89 | one type per collection, in order |
| LegacyGenerator.ReadLine | src/generateTypes.ts:116 | a read line is the name, `: ` and the type text, then ` \| null` exactly when the entry is not required, then `;`: prefix, suffix and exact length pin the line |
| LegacyGenerator.PublicEntries | src/generateTypes.ts:115 | the read block keeps exactly the non-private entries |
| LegacyGenerator.MakeTypeString | src/generateTypes.ts:113-117 | the read block opens with `export type <name> = {` and a newline and closes with a newline and `};`; the lines it holds are given by ReadBlockHolds and PrivateEntryDropped |
| LegacyGenerator.MakeCreateTypeString | src/generateTypes.ts:119-125 | the create block opens with `export type Create<name>Form = {` and a newline and closes with a newline and `};` |
| LegacyGenerator.CreateLine | src/generateTypes.ts:122-123 | a create line is the name, `?` unless the entry is required without a default, `: `, the type text and `;`, with the exact length |
| LegacyGenerator.CreateBlockKeepsAll | src/generateTypes.ts:113-125 | the create block holds every entry's line, the read block holds the line of every non-private entry, and the read filter keeps exactly the non-private entries |
| LegacyGenerator.ReadBlockHolds | src/generateTypes.ts:113-117 | the read block holds the line of every entry the filter keeps |
| LegacyGenerator.PublicEntriesConcat | src/generateTypes.ts:115 | the read filter distributes over concatenation, so kept entries stay in order |
| LegacyGenerator.PrivateEntryFiltered | src/generateTypes.ts:115 | removing a private entry does not change what the read filter keeps |
| LegacyGenerator.PrivateEntryDropped | src/generateTypes.ts:113-117 | a private entry leaves no trace in the read block: the type without it renders the same block |
| LegacyGenerator.BuildTypesFile | src/generateTypes.ts:110-111 | no types give the empty file, one type gives its read block, a blank line and its create block, and each further type adds a blank line and its two blocks at the end |
| LegacyGenerator.BuildTypesFileBlocks | src/generateTypes.ts:110-111 | the file is every type's read block then create block, all separated by blank lines |
| LegacyGenerator.IdPairs | src/generateTypes.ts:95-101 | the substitution pairs are the sorted types' ids and names, in order |
| LegacyGenerator.SubstituteIds | src/generateTypes.ts:95-101 | the `forEach` leaves the file substituted by every type's (id, name) pair, in the sorted order |
| LegacyGenerator.GenerateTypes | src/generateTypes.ts:88-101 | the types are a sorted permutation of the made types; the content is the file plus a newline, substituted pair by pair |
| LegacyGenerator.ParentPath | src/generateTypes.ts:103-105 | a path without `/` has the empty parent; otherwise the parent is the text before the last `/` |

## Left out

- Network and authentication: `src/StrapiClient.ts`, the `auth` calls and the
  `getComponents`/`getContentTypes` fetches. Every generator is modelled on
  already fetched lists of components and content types.
- File output: `saveFile`, `existsSync`, `mkdirSync` and `writeFileSync`. The
  models return the content handed to them, final newline included, and
  `LegacyGenerator.ParentPath` returns the directory that would be created.
- The command-line scaffolding in `src/index.ts`, the async glue in
  `src/commands/generateTypes/generateTypes.ts`, and the `TypeGenerator`
  constructor are left out.
- `toPascalCase` is not part of this model: its definition is not among the
  modelled files. It is a function parameter `pascal` throughout, and nothing
  is assumed about it.
- `isContentType`, `isType` and `isStrapiEnum` become datatype tests:
  `Collection.kind`, `GeneratedType.Shape?` and `TsCommand.EntryType.EnumRef?`.
- Ordering.Below: `localeCompare` depends on the locale. It is replaced by
  the lexicographic order on character codes, as a stated assumption.
- Ordering.SortByName: the contract does not state which order equal names
  end up in. JavaScript's sort is stable; the model's insertion sort happens
  to be stable, but no lemma says so.
- Substitution.Replace: the `$` patterns of `String.replace` replacement
  strings (`$&`, `$1`, `$$`) are not interpreted; a name is inserted literally.
- Substitution.Replace: the regular expression is matched by comparing the id
  literally. `Utils.UnescapeEscape` is what justifies this: the escaped
  pattern denotes exactly the id. No general regular-expression engine is
  modelled, and the `m` flag has no effect on this pattern.
- Strings.ToLower: this lowers ASCII letters only. It is applied only to the
  fixed plugin prefixes, which are ASCII.
- Strings are sequences of characters, not of UTF-16 code units.
- Attributes arrive as a sequence in the order `Object.entries` reports; its
  rule that integer-like keys come first, ascending, is not modelled, and the
  sequence is taken as given.
- JavaScript truthiness (`!!attribute.required`, `attribute.private || false`,
  `attribute.default !== undefined`) is folded into the boolean fields of
  `StrapiTypes.Attribute`.
- `src/commands/generateTypes/extraTypes.ts` is not part of this model: no
  modelled code reads its constant data.
- `src/strapi-types.ts` and `src/commands/generateTypes/types.ts` are
  declarations only. They are the datatypes of `StrapiTypes`,
  `GeneratedTypes`, `TsCommand` and `LegacyGenerator`.
