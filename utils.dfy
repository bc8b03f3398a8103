/** `escapeRegExp` (src/utils.ts): put a backslash in front of every
    character of the class `[.*+?^${}()|[\]\\]`, so that a collection id can
    stand literally inside a regular expression. */
module Utils {

  /** The regular-expression metacharacters the escape class lists. */
  predicate IsRegExpMeta(c: char)
  {
    || c == '.' || c == '*' || c == '+' || c == '?' || c == '^' || c == '$'
    || c == '{' || c == '}' || c == '(' || c == ')' || c == '|' || c == '[' || c == ']'
    || c == '\\'
  }

  function MetaCount(s: string): nat
  {
    if |s| == 0 then 0 else (if IsRegExpMeta(s[0]) then 1 else 0) + MetaCount(s[1..])
  }

  /** One backslash per metacharacter, everything else copied: the output is
      longer than the input by exactly the number of metacharacters. */
  function EscapeRegExp(s: string): (r: string)
    ensures |r| == |s| + MetaCount(s)
    ensures MetaCount(s) == 0 ==> r == s
  {
    if |s| == 0 then ""
    else (if IsRegExpMeta(s[0]) then ['\\', s[0]] else [s[0]]) + EscapeRegExp(s[1..])
  }

  /** Reading an escaped pattern back: a backslash followed by a
      metacharacter stands for that metacharacter. */
  function Unescape(r: string): string
    decreases |r|
  {
    if |r| == 0 then ""
    else if |r| >= 2 && r[0] == '\\' && IsRegExpMeta(r[1]) then [r[1]] + Unescape(r[2..])
    else [r[0]] + Unescape(r[1..])
  }

  /** Removing the backslash in front of each escaped metacharacter recovers
      the original id: the escaped pattern denotes the id literally. */
  lemma {:induction false} UnescapeEscape(s: string)
    ensures Unescape(EscapeRegExp(s)) == s
  {
    if |s| > 0 {
      var rest := EscapeRegExp(s[1..]);
      UnescapeEscape(s[1..]);
      if IsRegExpMeta(s[0]) {
        assert (['\\', s[0]] + rest)[2..] == rest;
      } else {
        assert ([s[0]] + rest)[1..] == rest;
      }
    }
  }

  /** Escaping works character by character, so it distributes over concatenation. */
  lemma {:induction false} EscapeConcat(a: string, b: string)
    ensures EscapeRegExp(a + b) == EscapeRegExp(a) + EscapeRegExp(b)
  {
    if |a| == 0 {
      assert a + b == b;
    } else {
      assert (a + b)[0] == a[0];
      assert (a + b)[1..] == a[1..] + b;
      EscapeConcat(a[1..], b);
    }
  }

  /** No character of `s` is a metacharacter. */
  predicate Plain(s: string)
  {
    forall i :: 0 <= i < |s| ==> !IsRegExpMeta(s[i])
  }

  /** A string without metacharacters has none to count. */
  lemma {:induction false} NoMetaCount(s: string)
    requires Plain(s)
    ensures MetaCount(s) == 0
  {
    if |s| > 0 {
      assert Plain(s[1..]);
      NoMetaCount(s[1..]);
    }
  }

  /** A string without metacharacters, such as the id `api::post-tag`, is
      used as it is. */
  lemma EscapePlain(s: string)
    requires Plain(s)
    ensures EscapeRegExp(s) == s
  {
    NoMetaCount(s);
  }

  /** A metacharacter between two plain stretches, such as the dot of
      `plugin::upload.file`, gains exactly one backslash. */
  lemma EscapeOneMeta(pre: string, c: char, post: string)
    requires Plain(pre) && Plain(post) && IsRegExpMeta(c)
    ensures EscapeRegExp(pre + [c] + post) == pre + ['\\', c] + post
  {
    NoMetaCount(pre);
    NoMetaCount(post);
    var ec := EscapeRegExp([c]);
    assert ec == ['\\', c] by {
      assert [c][1..] == [];
    }
    EscapeConcat([c], post);
    EscapeConcat(pre, [c] + post);
    assert pre + [c] + post == pre + ([c] + post);
  }
}
