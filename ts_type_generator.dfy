/** The TypeScript back end of the current generator (TsTypeGenerator.ts):
    the attribute type mapper, the renderer of shapes, entries, alternatives
    and enums, and the substitution of collection ids by type names. */
module TsTypeGenerator {
  import opened Strings
  import opened StrapiTypes
  import opened GeneratedTypes
  import opened TypeNames
  import opened Substitution

  /** The type name of every string of a list, as alternatives. */
  function Lits(names: seq<string>): (alts: seq<Alt>)
    ensures |alts| == |names|
    ensures forall k :: 0 <= k < |names| ==> alts[k] == Lit(names[k])
  {
    seq(|names|, k requires 0 <= k < |names| => Lit(names[k]))
  }

  /** The alternative `mapTypeEntryType` chooses for the attribute's kind, before
      `null` is added. */
  function KindAlternative(name: string, attribute: Attribute, c: Collection, isToSend: bool,
                           pascal: string -> string): Alt
  {
    var kind := attribute.kind;
    if IsStringKind(kind) then Lit("string")
    else if IsNumberKind(kind) then Lit("number")
    else if kind == "relation" then
      var target := attribute.target.GetOr("unknown");
      Group(if isToSend then [Lit(target), Lit("number")] else [Lit(target)],
            EndsWith(attribute.relation, "Many"))
    else if kind == "media" then Lit("plugin::upload.file")
    else if kind == "component" then Group([Lit(attribute.component)], attribute.repeatable)
    else if kind == "dynamiczone" then Group(Lits(attribute.components), true)
    else if kind == "enumeration" then Lit(EnumName(name, c, pascal))
    else Lit(kind)
  }

  /** The type of an entry: a union holding the kind's alternative, then
      `null` when the form is the read form and the attribute is not
      required. */
  function EntryType(name: string, attribute: Attribute, c: Collection, isToSend: bool,
                     pascal: string -> string): (t: Alt)
    ensures t.Group? && !t.isArray
    ensures |t.alts| == (if !isToSend && !attribute.required then 2 else 1)
    ensures t.alts[0] == KindAlternative(name, attribute, c, isToSend, pascal)
    ensures !isToSend && !attribute.required ==> t.alts[1] == Lit("null")
  {
    var alt := KindAlternative(name, attribute, c, isToSend, pascal);
    Group(if !isToSend && !attribute.required then [alt, Lit("null")] else [alt], false)
  }

  /** `mapTypeEntryType` as written: `type` is chosen by a switch on the kind
      and `"null"` is then pushed onto its alternatives. */
  method MapTypeEntryType(name: string, attribute: Attribute, c: Collection, isToSend: bool,
                          pascal: string -> string) returns (t: Alt)
    ensures t == EntryType(name, attribute, c, isToSend, pascal)
  {
    var types: seq<Alt>;
    var kind := attribute.kind;
    if IsStringKind(kind) {
      types := [Lit("string")];
    } else if IsNumberKind(kind) {
      types := [Lit("number")];
    } else if kind == "relation" {
      var target := if attribute.target.Some? then attribute.target.value else "unknown";
      var targets := if isToSend then [Lit(target), Lit("number")] else [Lit(target)];
      types := [Group(targets, EndsWith(attribute.relation, "Many"))];
    } else if kind == "media" {
      types := [Lit("plugin::upload.file")];
    } else if kind == "component" {
      types := [Group([Lit(attribute.component)], attribute.repeatable)];
    } else if kind == "dynamiczone" {
      types := [Group(Lits(attribute.components), true)];
    } else if kind == "enumeration" {
      types := [Lit(EnumName(name, c, pascal))];
    } else {
      types := [Lit(kind)];
    }
    assert types == [KindAlternative(name, attribute, c, isToSend, pascal)];
    if !isToSend && !attribute.required {
      types := types + [Lit("null")];
    }
    t := Group(types, false);
  }

  /** The scalar table: five kinds map to `string`, two to `number`, `media`
      to the upload plugin's file type and every unknown kind to itself. */
  lemma ScalarMapping(name: string, attribute: Attribute, c: Collection, isToSend: bool,
                      pascal: string -> string)
    ensures IsStringKind(attribute.kind) ==> KindAlternative(name, attribute, c, isToSend, pascal) == Lit("string")
    ensures IsNumberKind(attribute.kind) ==> KindAlternative(name, attribute, c, isToSend, pascal) == Lit("number")
    ensures attribute.kind == "media" ==> KindAlternative(name, attribute, c, isToSend, pascal) == Lit("plugin::upload.file")
    ensures !IsStringKind(attribute.kind) && !IsNumberKind(attribute.kind)
            && attribute.kind !in {"relation", "media", "component", "dynamiczone", "enumeration"}
            ==> KindAlternative(name, attribute, c, isToSend, pascal) == Lit(attribute.kind)
  {
  }

  /** A relation is one nested union of its target (or `unknown`), joined in
      the write form by a raw numeric id; it is an array exactly for the
      `…Many` relations. */
  lemma RelationMapping(name: string, attribute: Attribute, c: Collection, isToSend: bool,
                        pascal: string -> string)
    requires attribute.kind == "relation"
    ensures var g := KindAlternative(name, attribute, c, isToSend, pascal);
            && g.Group?
            && (g.isArray <==> EndsWith(attribute.relation, "Many"))
            && g.alts[0] == Lit(if attribute.target.None? then "unknown" else attribute.target.value)
            && (isToSend <==> |g.alts| == 2)
            && (isToSend ==> g.alts[1] == Lit("number"))
  {
  }

  /** A component is a one-member union that is an array exactly when
      repeatable; a dynamic zone is always an array of all its components, in
      order. */
  lemma ComponentMapping(name: string, attribute: Attribute, c: Collection, isToSend: bool,
                         pascal: string -> string)
    ensures attribute.kind == "component" ==>
              KindAlternative(name, attribute, c, isToSend, pascal)
              == Group([Lit(attribute.component)], attribute.repeatable)
    ensures attribute.kind == "dynamiczone" ==>
              var g := KindAlternative(name, attribute, c, isToSend, pascal);
              && g.Group? && g.isArray && |g.alts| == |attribute.components|
              && forall k :: 0 <= k < |g.alts| ==> g.alts[k] == Lit(attribute.components[k])
  {
  }

  /** `typeEntryTypeToString`: alternatives joined by ` | `; an array is
      `X[]`, or `(X)[]` when `X` is itself a union. A union of one member
      renders as that member. */
  function AltToString(t: Alt): (text: string)
    ensures t.Group? && t.isArray ==> EndsWith(text, "[]")
    ensures t.Group? && !t.isArray && |t.alts| == 1 ==> text == AltToString(t.alts[0])
    decreases t
  {
    match t
    case Lit(text) => text
    case Group(alts, isArray) =>
      var parts := seq(|alts|, k requires 0 <= k < |alts| => AltToString(alts[k]));
      var joined := Join(parts, " | ");
      if !isArray then joined
      else if Contains(joined, " | ") then "(" + joined + ")[]"
      else joined + "[]"
  }

  /** Every array renders with the `[]` suffix. */
  lemma ArrayRendersWithSuffix(alts: seq<Alt>)
    ensures EndsWith(AltToString(Group(alts, true)), "[]")
  {
  }

  /** An array of two or more alternatives is parenthesised, so that the
      suffix applies to the whole union. */
  lemma UnionArrayIsParenthesised(alts: seq<Alt>)
    requires |alts| >= 2
    ensures var joined := Join(seq(|alts|, k requires 0 <= k < |alts| => AltToString(alts[k])), " | ");
            AltToString(Group(alts, true)) == "(" + joined + ")[]"
  {
    var parts := seq(|alts|, k requires 0 <= k < |alts| => AltToString(alts[k]));
    JoinContainsSep(parts, " | ");
  }

  /** An array of a single name without ` | ` is not parenthesised. */
  lemma SingleArrayIsBare(name: string)
    requires !Contains(name, " | ")
    ensures AltToString(Group([Lit(name)], true)) == name + "[]"
  {
    var parts := seq(1, k requires 0 <= k < 1 => AltToString([Lit(name)][k]));
    assert parts == [name];
  }

  /** In the read form a non-required entry renders with a trailing
      ` | null`; otherwise the entry renders as its kind's alternative alone. */
  lemma NullMarker(name: string, attribute: Attribute, c: Collection, isToSend: bool,
                   pascal: string -> string)
    ensures var t := EntryType(name, attribute, c, isToSend, pascal);
            var kindText := AltToString(KindAlternative(name, attribute, c, isToSend, pascal));
            AltToString(t) == if !isToSend && !attribute.required then kindText + " | null" else kindText
  {
    var t := EntryType(name, attribute, c, isToSend, pascal);
    var parts := seq(|t.alts|, k requires 0 <= k < |t.alts| => AltToString(t.alts[k]));
    assert AltToString(t) == Join(parts, " | ");
    assert parts[0] == AltToString(KindAlternative(name, attribute, c, isToSend, pascal));
    if !isToSend && !attribute.required {
      assert parts == [parts[0], "null"];
      assert parts[1..] == ["null"];
      assert " | " + "null" == " | null";
    } else {
      assert parts == [parts[0]];
    }
  }

  /** A required relation to many entries of one target type renders as
      `target[]` when read, and as `(target | number)[]` in the write form
      (for `api::tag`: `api::tag[]` and `(api::tag | number)[]`). */
  lemma ManyRelationRendering(name: string, attribute: Attribute, c: Collection, target: string,
                              pascal: string -> string)
    requires attribute.kind == "relation" && attribute.target == Some(target) && '|' !in target
    requires EndsWith(attribute.relation, "Many") && attribute.required
    ensures AltToString(EntryType(name, attribute, c, false, pascal)) == target + "[]"
    ensures AltToString(EntryType(name, attribute, c, true, pascal)) == "(" + target + " | number)[]"
  {
    ManyRelationRead(name, attribute, c, target, pascal);
    ManyRelationWrite(name, attribute, c, target, pascal);
  }

  /** The read half of `ManyRelationRendering`. */
  lemma ManyRelationRead(name: string, attribute: Attribute, c: Collection, target: string,
                         pascal: string -> string)
    requires attribute.kind == "relation" && attribute.target == Some(target) && '|' !in target
    requires EndsWith(attribute.relation, "Many") && attribute.required
    ensures AltToString(EntryType(name, attribute, c, false, pascal)) == target + "[]"
  {
    NullMarker(name, attribute, c, false, pascal);
    RelationAlternative(name, attribute, c, false, pascal);
    NoSeparatorIn(target);
    SingleArrayIsBare(target);
  }

  /** The write half of `ManyRelationRendering`. */
  lemma ManyRelationWrite(name: string, attribute: Attribute, c: Collection, target: string,
                          pascal: string -> string)
    requires attribute.kind == "relation" && attribute.target == Some(target)
    requires EndsWith(attribute.relation, "Many")
    ensures AltToString(EntryType(name, attribute, c, true, pascal)) == "(" + target + " | number)[]"
  {
    NullMarker(name, attribute, c, true, pascal);
    RelationAlternative(name, attribute, c, true, pascal);
    PairArrayRendering(target, "number");
  }

  /** A relation's alternative: its target (`unknown` when missing), joined
      by `number` in the write form, as an array for a to-many relation. */
  lemma RelationAlternative(name: string, attribute: Attribute, c: Collection, isToSend: bool,
                            pascal: string -> string)
    requires attribute.kind == "relation"
    ensures var target := Lit(attribute.target.GetOr("unknown"));
            KindAlternative(name, attribute, c, isToSend, pascal)
            == Group(if isToSend then [target, Lit("number")] else [target], EndsWith(attribute.relation, "Many"))
  {
    assert !IsStringKind(attribute.kind) && !IsNumberKind(attribute.kind);
  }

  /** A name without `|`, or without a space, does not hold the union separator. */
  lemma NoSeparatorIn(target: string)
    requires '|' !in target || ' ' !in target
    ensures !Contains(target, " | ")
  {
    if Contains(target, " | ") {
      ContainsCharOf(target, " | ", 0);
      ContainsCharOf(target, " | ", 1);
    }
  }

  /** An array of two names renders as their parenthesised union. */
  lemma PairArrayRendering(first: string, second: string)
    ensures AltToString(Group([Lit(first), Lit(second)], true)) == "(" + first + " | " + second + ")[]"
  {
    var alts := [Lit(first), Lit(second)];
    UnionArrayIsParenthesised(alts);
    var parts := seq(2, k requires 0 <= k < 2 => AltToString(alts[k]));
    assert parts == [first, second];
    assert parts[1..] == [second];
  }

  /** `makeTypeEntryString`: four spaces, the name, `?` for an optional entry,
      `: `, the rendered type and `;`. */
  function MakeTypeEntryString(e: TypeEntry): (line: string)
    ensures StartsWith(line, "    " + e.name)
    ensures |line| > 4 + |e.name| && line[4 + |e.name|] == (if e.isOptional then '?' else ':')
    ensures EndsWith(line, ": " + AltToString(e.typeExpr) + ";")
    ensures |line| == 4 + |e.name| + (if e.isOptional then 1 else 0) + 2 + |AltToString(e.typeExpr)| + 1
  {
    var tail := ": " + AltToString(e.typeExpr) + ";";
    var line := "    " + e.name + (if e.isOptional then "?" else "") + tail;
    assert line[|line| - |tail|..] == tail;
    line
  }

  /** The line of an entry is read back without loss: for a known name, the
      marker tells whether the entry is optional and the text between `: `
      and the final `;` is its rendered type, so two entries of one name
      give the same line exactly when they agree on both. */
  lemma EntryLineReadBack(e: TypeEntry, f: TypeEntry)
    requires e.name == f.name
    ensures MakeTypeEntryString(e) == MakeTypeEntryString(f)
            <==> e.isOptional == f.isOptional && AltToString(e.typeExpr) == AltToString(f.typeExpr)
  {
    var n := |e.name|;
    var le, lf := MakeTypeEntryString(e), MakeTypeEntryString(f);
    if le == lf {
      assert le[4 + n] == lf[4 + n];
      var m := if e.isOptional then 1 else 0;
      assert le[4 + n + m + 2..|le| - 1] == AltToString(e.typeExpr);
      assert lf[4 + n + m + 2..|lf| - 1] == AltToString(f.typeExpr);
    }
  }

  /** A relation's rendering, cut around its target: what opens it, the
      array suffix right after the target, and what follows. */
  function RelationOpen(isToSend: bool, many: bool): string
  {
    if isToSend && many then "(" else ""
  }

  function RelationSuffix(isToSend: bool, many: bool): string
  {
    if !isToSend && many then "[]" else ""
  }

  function RelationTail(isToSend: bool, many: bool, required: bool): string
  {
    if isToSend then (if many then " | number)[]" else " | number")
    else if required then "" else " | null"
  }

  /** The whole rendered type of a relation to `target`. */
  function RelationText(target: string, isToSend: bool, many: bool, required: bool): string
  {
    RelationOpen(isToSend, many) + target + RelationSuffix(isToSend, many) + RelationTail(isToSend, many, required)
  }

  /** The rendered type of a relation entry in each of the four cases:
      `T`, `T[]`, `T | number` and `(T | number)[]`, with ` | null` after
      a non-required one in the read form. */
  lemma RelationRendering(name: string, attribute: Attribute, c: Collection, isToSend: bool,
                          pascal: string -> string, target: string)
    requires attribute.kind == "relation" && attribute.target == Some(target) && ' ' !in target
    ensures var many := EndsWith(attribute.relation, "Many");
            AltToString(EntryType(name, attribute, c, isToSend, pascal))
            == RelationText(target, isToSend, many, attribute.required)
  {
    var many := EndsWith(attribute.relation, "Many");
    NullMarker(name, attribute, c, isToSend, pascal);
    RelationAlternative(name, attribute, c, isToSend, pascal);
    RelationGroupRendering(target, isToSend, many);
    var front := RelationOpen(isToSend, many) + target + RelationSuffix(isToSend, many);
    if !isToSend && !attribute.required {
      assert front + RelationTail(isToSend, many, false) == front + "" + " | null";
    } else if !isToSend {
      assert front + RelationTail(isToSend, many, true) == front + "";
    }
  }

  /** The relation's own alternative, before ` | null`: the target alone or
      with `number`, as an array for a to-many relation. */
  lemma RelationGroupRendering(target: string, isToSend: bool, many: bool)
    requires ' ' !in target
    ensures AltToString(Group(if isToSend then [Lit(target), Lit("number")] else [Lit(target)], many))
            == RelationOpen(isToSend, many) + target + RelationSuffix(isToSend, many)
               + (if isToSend then RelationTail(isToSend, many, true) else "")
  {
    var g := Group(if isToSend then [Lit(target), Lit("number")] else [Lit(target)], many);
    if isToSend && many {
      assert g == Group([Lit(target), Lit("number")], true);
      PairArrayRendering(target, "number");
      assert "(" + target + " | number)[]" == "(" + target + "" + " | number)[]";
    } else if isToSend {
      assert g == Group([Lit(target), Lit("number")], false);
      PairRendering(target, "number");
      assert target + " | number" == "" + target + "" + " | number";
    } else if many {
      assert g == Group([Lit(target)], true);
      NoSeparatorIn(target);
      SingleArrayIsBare(target);
      assert target + "[]" == "" + target + "[]" + "";
    } else {
      assert g == Group([Lit(target)], false);
      SingleRendering(target);
      assert target == "" + target + "" + "";
    }
  }

  /** A union of two names, not an array, renders as `first | second`. */
  lemma PairRendering(first: string, second: string)
    ensures AltToString(Group([Lit(first), Lit(second)], false)) == first + " | " + second
  {
    var alts := [Lit(first), Lit(second)];
    var parts := seq(2, k requires 0 <= k < 2 => AltToString(alts[k]));
    assert AltToString(Group(alts, false)) == Join(parts, " | ");
    assert parts == [first, second];
    assert parts[1..] == [second];
    assert Join(parts, " | ") == first + " | " + Join([second], " | ");
  }

  /** A union of one name, not an array, renders as the name. */
  lemma SingleRendering(name: string)
    ensures AltToString(Group([Lit(name)], false)) == name
  {
    var parts := seq(1, k requires 0 <= k < 1 => AltToString([Lit(name)][k]));
    assert parts == [name];
  }

  /** The text in front of a rendered entry's type, when the name holds
      neither `.` nor `:`, is plain: its only colon is followed by a space. */
  lemma EntryHeadPlain(name: string, marker: string, open: string)
    requires '.' !in name && ':' !in name && (marker == "" || marker == "?") && (open == "" || open == "(")
    ensures var head := "    " + name + marker + ": " + open;
            |head| > 0 && OpensToken(head[|head| - 1]) && PlainText(head)
  {
    var p := "    " + name + marker;
    var s := p + ": " + open;
    assert s[|s| - 1] == if open == "" then ' ' else '(';
    assert ':' !in p;
    forall i | 0 <= i < |s|
      ensures !DoubleColonAt(s, i)
    {
      if i < |p| {
        assert s[i] == p[i] && p[i] in p;
      } else if i >= |p| + 2 {
        assert s[i] == open[i - |p| - 2];
      }
    }
  }

  /** A rendered relation entry resolves through the whole substitution pass
      (`    author: api::writer.writer | null;`,
      `    tags?: (api::tag.tag | number)[];`): when the entry's type renders as
      a relation to the k-th collection id (`RelationRendering`), the line
      becomes the line of the same entry whose type renders as the relation
      to the k-th type name, in both forms and all four shapes. */
  lemma RelationLineResolved(e: TypeEntry, resolved: Alt, isToSend: bool, many: bool, required: bool,
                             pairs: seq<(string, string)>, k: nat)
    requires WellFormedPairs(pairs) && k < |pairs|
    requires forall m :: 0 <= m < |pairs| ==> CollectionId(pairs[m].0)
    requires '.' !in e.name && ':' !in e.name
    requires AltToString(e.typeExpr) == RelationText(pairs[k].0, isToSend, many, required)
    requires AltToString(resolved) == RelationText(pairs[k].1, isToSend, many, required)
    ensures SubstituteAll(MakeTypeEntryString(e), pairs) == MakeTypeEntryString(e.(typeExpr := resolved))
  {
    var head := "    " + e.name + (if e.isOptional then "?" else "") + ": " + RelationOpen(isToSend, many);
    var suffix := RelationSuffix(isToSend, many);
    var after := RelationTail(isToSend, many, required) + ";";
    RelationLineShape(e, isToSend, many, required, pairs[k].0);
    RelationLineShape(e.(typeExpr := resolved), isToSend, many, required, pairs[k].1);
    EntryHeadPlain(e.name, if e.isOptional then "?" else "", RelationOpen(isToSend, many));
    RelationLineAfter(isToSend, many, required);
    SubstituteAllInContext(head, suffix, after, pairs, k);
  }

  /** What follows the target on a relation line: an optional `[]`, then text
      that opens with a token delimiter and holds no `::`. */
  lemma RelationLineAfter(isToSend: bool, many: bool, required: bool)
    ensures var suffix := RelationSuffix(isToSend, many);
            suffix == "" || suffix == "[]"
    ensures var after := RelationTail(isToSend, many, required) + ";";
            |after| > 0 && ClosesToken(after[0]) && PlainText(after)
  {
    NoColonPlain(RelationTail(isToSend, many, required) + ";");
  }

  /** The line of an entry whose type renders as a relation, cut around the
      target. */
  lemma RelationLineShape(e: TypeEntry, isToSend: bool, many: bool, required: bool, target: string)
    requires AltToString(e.typeExpr) == RelationText(target, isToSend, many, required)
    ensures MakeTypeEntryString(e)
            == ("    " + e.name + (if e.isOptional then "?" else "") + ": " + RelationOpen(isToSend, many))
               + target + RelationSuffix(isToSend, many) + (RelationTail(isToSend, many, required) + ";")
  {
    var front := "    " + e.name + (if e.isOptional then "?" else "");
    assert MakeTypeEntryString(e) == front + (": " + AltToString(e.typeExpr) + ";");
    LineAround(front, RelationOpen(isToSend, many), target, RelationSuffix(isToSend, many),
               RelationTail(isToSend, many, required));
  }

  lemma LineAround(front: string, open: string, target: string, suffix: string, tail: string)
    ensures front + (": " + (open + target + suffix + tail) + ";")
            == (front + ": " + open) + target + suffix + (tail + ";")
  {
  }

  /** The entries a shape renders: all of them in the write form, the
      non-private ones in the read form, in their original order. */
  function VisibleEntries(entries: seq<TypeEntry>, isToSend: bool): (visible: seq<TypeEntry>)
    ensures forall e :: e in visible <==> e in entries && (isToSend || !e.isPrivate)
    ensures isToSend ==> visible == entries
    ensures |visible| <= |entries|
  {
    if |entries| == 0 then []
    else
      var rest := VisibleEntries(entries[1..], isToSend);
      if isToSend || !entries[0].isPrivate then [entries[0]] + rest else rest
  }

  /** Filtering keeps the relative order: it works piecewise on a concatenation. */
  lemma {:induction false} VisibleEntriesConcat(a: seq<TypeEntry>, b: seq<TypeEntry>, isToSend: bool)
    ensures VisibleEntries(a + b, isToSend) == VisibleEntries(a, isToSend) + VisibleEntries(b, isToSend)
  {
    if |a| == 0 {
      assert a + b == b;
    } else {
      assert (a + b)[0] == a[0];
      assert (a + b)[1..] == a[1..] + b;
      VisibleEntriesConcat(a[1..], b, isToSend);
    }
  }

  /** `makeTypeString`: the declaration of a shape, one line per visible
      entry; `ShapeRendersVisibleLines` gives the lines it holds. */
  function MakeTypeString(name: string, entries: seq<TypeEntry>, isToSend: bool): (decl: string)
    ensures StartsWith(decl, "export type " + name + " = {\n") && EndsWith(decl, "\n};")
  {
    var visible := VisibleEntries(entries, isToSend);
    var head := "export type " + name + " = {\n";
    var body := Join(seq(|visible|, k requires 0 <= k < |visible| => MakeTypeEntryString(visible[k])), "\n");
    Framed(head, body, "\n};");
    head + body + "\n};"
  }

  /** A shape's declaration holds the line of every entry it renders, and it
      renders a private entry exactly in the write form. */
  lemma ShapeRendersVisibleLines(name: string, entries: seq<TypeEntry>, isToSend: bool, e: TypeEntry)
    requires e in entries && (isToSend || !e.isPrivate)
    ensures Contains(MakeTypeString(name, entries, isToSend), MakeTypeEntryString(e))
  {
    var visible := VisibleEntries(entries, isToSend);
    var lines := seq(|visible|, k requires 0 <= k < |visible| => MakeTypeEntryString(visible[k]));
    var k :| 0 <= k < |visible| && visible[k] == e;
    FramedJoinContains("export type " + name + " = {\n", lines, "\n", "\n};", k);
  }

  /** One enum member: `PascalCase(value) = "value"`. */
  function EnumMember(value: string, pascal: string -> string): string
  {
    "    " + pascal(value) + " = \"" + value + "\""
  }

  /** `makeEnumString`: one member per value, in order, separated by `,\n`,
      in an enum declaration of the given name. */
  function MakeEnumString(name: string, values: seq<string>, pascal: string -> string): (decl: string)
    ensures StartsWith(decl, "export enum " + name + " {\n") && EndsWith(decl, "\n}")
    ensures forall k :: 0 <= k < |values| ==> Contains(decl, EnumMember(values[k], pascal))
  {
    var head := "export enum " + name + " {\n";
    var members := seq(|values|, k requires 0 <= k < |values| => EnumMember(values[k], pascal));
    Framed(head, Join(members, ",\n"), "\n}");
    assert forall k :: 0 <= k < |values| ==> Contains(head + Join(members, ",\n") + "\n}", EnumMember(values[k], pascal)) by {
      forall k | 0 <= k < |values| ensures Contains(head + Join(members, ",\n") + "\n}", EnumMember(values[k], pascal)) {
        FramedJoinContains(head, members, ",\n", "\n}", k);
      }
    }
    head + Join(members, ",\n") + "\n}"
  }

  /** Adding one more value adds one more member line at the end. */
  lemma EnumMembersInOrder(name: string, values: seq<string>, v: string, pascal: string -> string)
    requires |values| > 0
    ensures MakeEnumString(name, values + [v], pascal)
            == "export enum " + name + " {\n"
               + Join(seq(|values|, k requires 0 <= k < |values| => EnumMember(values[k], pascal)), ",\n")
               + ",\n" + EnumMember(v, pascal) + "\n}"
  {
    var members := seq(|values|, k requires 0 <= k < |values| => EnumMember(values[k], pascal));
    var all := values + [v];
    assert seq(|all|, k requires 0 <= k < |all| => EnumMember(all[k], pascal)) == members + [EnumMember(v, pascal)];
    JoinSnoc(members, EnumMember(v, pascal), ",\n");
  }

  /** The (id, name) pairs of the shapes among `types`, in order:
      `types.filter(isType)` read for its ids and names. */
  function ShapePairs(types: seq<GeneratedType>): (pairs: seq<(string, string)>)
    ensures |pairs| <= |types|
  {
    if |types| == 0 then []
    else
      var last := types[|types| - 1];
      ShapePairs(types[..|types| - 1]) + (if last.Shape? then [(last.id, last.name)] else [])
  }

  /** What `stringifyTypes` makes of one type: a shape's declaration with
      every shape id replaced by that shape's name, or an enum's declaration
      as it is. */
  function Stringified(t: GeneratedType, types: seq<GeneratedType>, pascal: string -> string): string
  {
    match t
    case Shape(_, name, _, isToSend, entries) => SubstituteAll(MakeTypeString(name, entries, isToSend), ShapePairs(types))
    case Enum(name, values) => MakeEnumString(name, values, pascal)
  }

  /** `stringifyTypes`: for each type in order, render it; a shape's text is
      then rewritten by the substitution `forEach`. */
  method StringifyTypes(types: seq<GeneratedType>, pascal: string -> string) returns (strings: seq<string>)
    ensures |strings| == |types|
    ensures forall k :: 0 <= k < |types| ==> strings[k] == Stringified(types[k], types, pascal)
  {
    strings := [];
    ghost var rendered := seq(|types|, m requires 0 <= m < |types| => Stringified(types[m], types, pascal));
    for k := 0 to |types|
      invariant strings == rendered[..k]
    {
      var typeString := StringifyType(types[k], types, pascal);
      assert rendered[..k + 1] == rendered[..k] + [typeString];
      strings := strings + [typeString];
    }
    assert rendered[..|types|] == rendered;
  }

  /** The body of the `map` in `stringifyTypes`, for one type. */
  method StringifyType(t: GeneratedType, types: seq<GeneratedType>, pascal: string -> string)
    returns (typeString: string)
    ensures typeString == Stringified(t, types, pascal)
  {
    if t.Shape? {
      typeString := SubstituteShapes(MakeTypeString(t.name, t.entries, t.isToSend), types);
    } else {
      typeString := MakeEnumString(t.name, t.values, pascal);
    }
  }

  /** The `forEach` over `types.filter(isType)`, reassigning the text with one
      replacement per shape. */
  method SubstituteShapes(text: string, types: seq<GeneratedType>) returns (typeString: string)
    ensures typeString == SubstituteAll(text, ShapePairs(types))
  {
    typeString := text;
    for m := 0 to |types|
      invariant typeString == SubstituteAll(text, ShapePairs(types[..m]))
    {
      var other := types[m];
      var pairs := ShapePairs(types[..m]);
      assert types[..m + 1][..m] == types[..m];
      assert types[..m + 1][m] == other;
      if other.Shape? {
        var next := pairs + [(other.id, other.name)];
        assert ShapePairs(types[..m + 1]) == next;
        assert next[..|pairs|] == pairs && next[|pairs|] == (other.id, other.name);
        typeString := Replace(typeString, other.id, other.name);
      } else {
        assert ShapePairs(types[..m + 1]) == pairs;
      }
    }
    assert types[..|types|] == types;
  }
}
