/** Identifier substitution, shared by the three revisions of the generator:
    `text.replace(new RegExp(`(?<=[ (])${escapeRegExp(id)}(?=(?:\\[])?[; )])`, "gm"), name)`.
    The escaped id matches the id literally (`Utils.UnescapeEscape`), so the
    pattern is modelled as a scanner: an occurrence of `id` is replaced when the
    character before it is a space or `(` and, after an optional `[]`, the
    character after it is `;`, a space or `)`. Both conditions are looked up in
    the original text; matches do not overlap and are found left to right. */
module Substitution {

  /** The lookbehind class `[ (]`. */
  predicate OpensToken(c: char)
  {
    c == ' ' || c == '('
  }

  /** The lookahead class `[; )]`. */
  predicate ClosesToken(c: char)
  {
    c == ';' || c == ' ' || c == ')'
  }

  /** The lookahead `(?=(?:\[])?[; )])` holds at position `j`. */
  predicate LookaheadAt(s: string, j: nat)
  {
    (j < |s| && ClosesToken(s[j]))
    || (j + 2 < |s| && s[j] == '[' && s[j + 1] == ']' && ClosesToken(s[j + 2]))
  }

  /** The pattern for `id` matches at position `i` of `s`. */
  predicate MatchAt(s: string, i: nat, id: string)
  {
    0 < i && i + |id| <= |s| && OpensToken(s[i - 1]) && s[i..i + |id|] == id
    && LookaheadAt(s, i + |id|)
  }

  /** The text from position `i` on, with the matches found from `i` replaced.
      After an empty match the scan copies one character and moves on, as a
      global replace does. */
  function ReplaceFrom(s: string, id: string, name: string, i: nat): string
    requires i <= |s|
    decreases |s| - i
  {
    if i == |s| then ""
    else if MatchAt(s, i, id) then
      if |id| == 0 then name + [s[i]] + ReplaceFrom(s, id, name, i + 1)
      else name + ReplaceFrom(s, id, name, i + |id|)
    else [s[i]] + ReplaceFrom(s, id, name, i + 1)
  }

  /** One `replace` call: every whole-token occurrence of `id` becomes `name`.
      The first character is never replaced: a match needs a character before it. */
  function Replace(s: string, id: string, name: string): (r: string)
    ensures |s| > 0 ==> |r| > 0 && r[0] == s[0]
  {
    ReplaceFrom(s, id, name, 0)
  }

  /** The `forEach` over the types, applied to the text in order: each pair is
      (id, name). The first character is kept by every pass. */
  function SubstituteAll(s: string, pairs: seq<(string, string)>): (r: string)
    ensures |s| > 0 ==> |r| > 0 && r[0] == s[0]
  {
    if |pairs| == 0 then s
    else
      var p := pairs[|pairs| - 1];
      Replace(SubstituteAll(s, pairs[..|pairs| - 1]), p.0, p.1)
  }

  /** A character that can stand inside an id without ending a token. */
  predicate IdChar(c: char)
  {
    !OpensToken(c) && !ClosesToken(c) && c != '['
  }

  /** A non-empty id made only of such characters, e.g. `api::post-tag`. */
  predicate TokenId(id: string)
  {
    |id| > 0 && forall k :: 0 <= k < |id| ==> IdChar(id[k])
  }

  /** A character that ends a rendered entry or group and cannot open a token. */
  predicate EndsClause(c: char)
  {
    c == ';' || c == ')'
  }

  /** A token as it appears in rendered text: an opening character, the id,
      an optional array suffix and a closing character. */
  function Token(open: char, id: string, suffix: string, close: char): string
  {
    [open] + id + suffix + [close]
  }

  predicate TokenContext(open: char, suffix: string, close: char)
  {
    OpensToken(open) && (suffix == "" || suffix == "[]") && ClosesToken(close)
  }

  /** Where nothing matches, the scan copies the text. */
  lemma {:induction false} ReplaceFromNoMatch(s: string, id: string, name: string, i: nat)
    requires i <= |s|
    requires forall k :: i <= k < |s| ==> !MatchAt(s, k, id)
    ensures ReplaceFrom(s, id, name, i) == s[i..]
    decreases |s| - i
  {
    if i < |s| {
      ReplaceFromNoMatch(s, id, name, i + 1);
      assert s[i..] == [s[i]] + s[i + 1..];
    }
  }

  /** Text without any whole-token occurrence of `id` is left unchanged. */
  lemma ReplaceNoMatch(s: string, id: string, name: string)
    requires forall k :: 0 <= k < |s| ==> !MatchAt(s, k, id)
    ensures Replace(s, id, name) == s
  {
    ReplaceFromNoMatch(s, id, name, 0);
  }

  /** Inside a token, no match can start after the opening character:
      every character before such a position belongs to the id or to the
      array suffix, and none of them opens a token. */
  lemma NoMatchInsideToken(open: char, id2: string, suffix: string, close: char, id: string, k: nat)
    requires TokenContext(open, suffix, close) && TokenId(id2)
    requires 2 <= k < |Token(open, id2, suffix, close)|
    ensures !MatchAt(Token(open, id2, suffix, close), k, id)
  {
    var s := Token(open, id2, suffix, close);
    if k - 1 <= |id2| {
      assert s[k - 1] == id2[k - 2];
    } else {
      assert s[k - 1] == suffix[k - 2 - |id2|];
    }
  }

  /** A token holding its own id is rewritten to the name. */
  lemma ReplaceOwnToken(open: char, id: string, suffix: string, close: char, name: string)
    requires TokenContext(open, suffix, close) && TokenId(id)
    ensures Replace(Token(open, id, suffix, close), id, name) == Token(open, name, suffix, close)
  {
    var s := Token(open, id, suffix, close);
    var j := 1 + |id|;
    assert s[1..j] == id;
    assert s[j..] == suffix + [close];
    assert MatchAt(s, 1, id);
    forall k | j <= k < |s|
      ensures !MatchAt(s, k, id)
    {
      NoMatchInsideToken(open, id, suffix, close, id, k);
    }
    ReplaceFromNoMatch(s, id, name, j);
    assert ReplaceFrom(s, id, name, 1) == name + suffix + [close];
    assert !MatchAt(s, 0, id);
    assert Replace(s, id, name) == [open] + (name + suffix + [close]);
  }

  /** A token holding a different id is left alone, even when one id is a
      prefix of the other (`api::post` inside `api::post-tag`) or a suffix of
      it (`api::post` inside `send::api::post`). */
  lemma ReplaceOtherToken(open: char, id2: string, suffix: string, close: char, id: string, name: string)
    requires TokenContext(open, suffix, close) && TokenId(id2) && TokenId(id) && id != id2
    ensures Replace(Token(open, id2, suffix, close), id, name) == Token(open, id2, suffix, close)
  {
    var s := Token(open, id2, suffix, close);
    forall k | 0 <= k < |s|
      ensures !MatchAt(s, k, id)
    {
      if k == 1 {
        if |id| < |id2| {
          assert s[1 + |id|] == id2[|id|];
        } else if |id| == |id2| {
          assert s[1..1 + |id|] == id2;
        } else if 1 + |id| <= |s| {
          assert s[1 + |id2|] == (suffix + [close])[0];
          assert s[1..1 + |id|][|id2|] == s[1 + |id2|];
          assert IdChar(id[|id2|]);
        }
      } else if k >= 2 {
        NoMatchInsideToken(open, id2, suffix, close, id, k);
      }
    }
    ReplaceNoMatch(s, id, name);
  }

  /** Substitution by pairs none of whose ids is `id2` leaves a token of `id2` alone. */
  lemma {:induction false} SubstituteAllOtherToken(open: char, id2: string, suffix: string, close: char,
                                                    pairs: seq<(string, string)>)
    requires TokenContext(open, suffix, close) && TokenId(id2)
    requires forall k :: 0 <= k < |pairs| ==> TokenId(pairs[k].0) && pairs[k].0 != id2
    ensures SubstituteAll(Token(open, id2, suffix, close), pairs) == Token(open, id2, suffix, close)
  {
    if |pairs| > 0 {
      var p := pairs[|pairs| - 1];
      SubstituteAllOtherToken(open, id2, suffix, close, pairs[..|pairs| - 1]);
      ReplaceOtherToken(open, id2, suffix, close, p.0, p.1);
    }
  }

  /** The pairs a generator substitutes with: distinct token ids, and names
      that are token ids but not ids of any pair. */
  predicate WellFormedPairs(pairs: seq<(string, string)>)
  {
    && (forall k :: 0 <= k < |pairs| ==> TokenId(pairs[k].0) && TokenId(pairs[k].1))
    && (forall k, m :: 0 <= k < m < |pairs| ==> pairs[k].0 != pairs[m].0)
    && (forall k, m :: 0 <= k < |pairs| && 0 <= m < |pairs| ==> pairs[k].1 != pairs[m].0)
  }

  /** The whole substitution pass resolves a token of the k-th id to the k-th
      name and nothing else: the other ids never match inside it, before or
      after it has been rewritten. */
  lemma {:induction false} SubstituteAllToken(open: char, suffix: string, close: char,
                                              pairs: seq<(string, string)>, k: nat)
    requires TokenContext(open, suffix, close) && WellFormedPairs(pairs) && k < |pairs|
    ensures SubstituteAll(Token(open, pairs[k].0, suffix, close), pairs)
            == Token(open, pairs[k].1, suffix, close)
  {
    var n := |pairs|;
    var init := pairs[..n - 1];
    var (id, name) := pairs[n - 1];
    WellFormedInit(pairs);
    if k == n - 1 {
      assert forall m :: 0 <= m < |init| ==> TokenId(init[m].0) && init[m].0 != id by {
        forall m | 0 <= m < |init| ensures TokenId(init[m].0) && init[m].0 != id {
          assert init[m] == pairs[m];
        }
      }
      SubstituteAllOtherToken(open, id, suffix, close, init);
      ReplaceOwnToken(open, id, suffix, close, name);
    } else {
      SubstituteAllToken(open, suffix, close, init, k);
      assert init[k] == pairs[k];
      assert TokenId(pairs[k].1) && TokenId(id) && id != pairs[k].1;
      ReplaceOtherToken(open, pairs[k].1, suffix, close, id, name);
    }
  }

  /** Leaving out the last pair keeps the pairs well formed. */
  lemma WellFormedInit(pairs: seq<(string, string)>)
    requires WellFormedPairs(pairs) && |pairs| > 0
    ensures WellFormedPairs(pairs[..|pairs| - 1])
  {
    var init := pairs[..|pairs| - 1];
    assert forall k :: 0 <= k < |init| ==> init[k] == pairs[k];
  }

  /** A scan that starts before the last character ends with that character:
      a match of a non-empty id always leaves the character after it. */
  lemma {:induction false} ReplaceFromKeepsLast(x: string, id: string, name: string, i: nat)
    requires |id| > 0 && i < |x|
    ensures |ReplaceFrom(x, id, name, i)| > 0
    ensures ReplaceFrom(x, id, name, i)[|ReplaceFrom(x, id, name, i)| - 1] == x[|x| - 1]
    decreases |x| - i
  {
    ReplaceFromStep(x, id, name, i);
    var next := if MatchAt(x, i, id) then i + |id| else i + 1;
    var head := if MatchAt(x, i, id) then name else [x[i]];
    if next < |x| {
      ReplaceFromKeepsLast(x, id, name, next);
      LastOfConcat(head, ReplaceFrom(x, id, name, next));
    } else {
      ReplaceFromAtLast(x, id, name, i);
    }
  }

  /** The last character of `a + b` is that of a non-empty `b`. */
  lemma LastOfConcat(a: string, b: string)
    requires |b| > 0
    ensures |a + b| > 0 && (a + b)[|a + b| - 1] == b[|b| - 1]
  {
  }

  /** At the last character nothing matches: the lookahead needs one more. */
  lemma ReplaceFromAtLast(x: string, id: string, name: string, i: nat)
    requires |id| > 0 && i == |x| - 1
    ensures ReplaceFrom(x, id, name, i) == [x[i]]
  {
    assert !MatchAt(x, i, id);
    assert ReplaceFrom(x, id, name, i + 1) == "";
  }

  /** One step of the scan for a non-empty id. */
  lemma ReplaceFromStep(s: string, id: string, name: string, i: nat)
    requires |id| > 0 && i < |s|
    ensures ReplaceFrom(s, id, name, i)
            == if MatchAt(s, i, id) then name + ReplaceFrom(s, id, name, i + |id|)
               else [s[i]] + ReplaceFrom(s, id, name, i + 1)
  {
  }

  /** Past the end of `x`, a match in `x + y` is a match in `y`: the
      character before `y` ends a clause, so nothing matches at the start of `y`. */
  lemma MatchShift(x: string, y: string, id: string, m: nat)
    requires TokenId(id) && |x| > 0 && EndsClause(x[|x| - 1]) && m < |y|
    ensures MatchAt(x + y, |x| + m, id) == MatchAt(y, m, id)
  {
    var s := x + y;
    var i := |x| + m;
    if m == 0 {
      assert s[i - 1] == x[|x| - 1];
    } else {
      assert s[i - 1] == y[m - 1];
      if i + |id| <= |s| {
        assert s[i..i + |id|] == y[m..m + |id|];
      }
      var j := i + |id|;
      if j < |s| {
        assert s[j] == y[m + |id|];
      }
      if j + 2 < |s| {
        assert s[j + 1] == y[m + |id| + 1] && s[j + 2] == y[m + |id| + 2];
      }
    }
  }

  /** Past the end of `x`, scanning `x + y` is scanning `y`. */
  lemma {:induction false} ReplaceFromShift(x: string, y: string, id: string, name: string, m: nat)
    requires TokenId(id) && |x| > 0 && EndsClause(x[|x| - 1]) && m <= |y|
    ensures ReplaceFrom(x + y, id, name, |x| + m) == ReplaceFrom(y, id, name, m)
    decreases |y| - m
  {
    if m < |y| {
      ShiftStep(x, y, id, name, m);
      ReplaceFromShift(x, y, id, name, if MatchAt(y, m, id) then m + |id| else m + 1);
    }
  }

  /** One step of scanning `x + y` past the end of `x` is the same step as
      scanning `y` alone. */
  lemma ShiftStep(x: string, y: string, id: string, name: string, m: nat)
    requires TokenId(id) && |x| > 0 && EndsClause(x[|x| - 1]) && m < |y|
    ensures var next := if MatchAt(y, m, id) then m + |id| else m + 1;
            var head := if MatchAt(y, m, id) then name else [y[m]];
            && next <= |y|
            && ReplaceFrom(x + y, id, name, |x| + m) == head + ReplaceFrom(x + y, id, name, |x| + next)
            && ReplaceFrom(y, id, name, m) == head + ReplaceFrom(y, id, name, next)
  {
    MatchShift(x, y, id, m);
    CharShift(x, y, m);
    StepPair(x + y, y, |x|, m, id, name);
  }

  lemma CharInPrefix(x: string, y: string, i: nat)
    requires i < |x|
    ensures (x + y)[i] == x[i]
  {
  }

  lemma CharShift(x: string, y: string, m: nat)
    requires m < |y|
    ensures |x| + m < |x + y| && (x + y)[|x| + m] == y[m]
  {
  }

  /** A character the substitution can cut the text at: it can belong
      neither to a token id nor to the `[]` suffix. */
  predicate CutChar(c: char)
  {
    OpensToken(c) || ClosesToken(c)
  }

  /** Before the end of `x`, a match in `x + y` is a match in `x`: no token id
      can cover the cut character that ends `x`. */
  lemma MatchInPrefix(x: string, y: string, id: string, i: nat)
    requires TokenId(id) && |x| > 0 && CutChar(x[|x| - 1]) && i < |x|
    ensures MatchAt(x + y, i, id) == MatchAt(x, i, id)
    ensures MatchAt(x, i, id) ==> i + |id| < |x|
  {
    var s := x + y;
    var j := i + |id|;
    if |x| <= j <= |s| {
      assert s[i..j][|x| - 1 - i] == x[|x| - 1];
      assert !IdChar(x[|x| - 1]);
    }
    if j < |x| {
      assert s[i..j] == x[i..j];
      assert s[j] == x[j];
      if j + 2 < |x| {
        assert s[j + 1] == x[j + 1] && s[j + 2] == x[j + 2];
      } else if j + 1 < |x| {
        assert s[j + 1] == x[|x| - 1];
      }
    }
  }

  /** One step of scanning `x + y` before the end of `x` is the same step
      as scanning `x` alone. */
  lemma ConcatStep(x: string, y: string, id: string, name: string, i: nat)
    requires TokenId(id) && |x| > 0 && CutChar(x[|x| - 1]) && i < |x|
    ensures var next := if MatchAt(x, i, id) then i + |id| else i + 1;
            var head := if MatchAt(x, i, id) then name else [x[i]];
            && next <= |x|
            && ReplaceFrom(x + y, id, name, i) == head + ReplaceFrom(x + y, id, name, next)
            && ReplaceFrom(x, id, name, i) == head + ReplaceFrom(x, id, name, next)
  {
    MatchInPrefix(x, y, id, i);
    CharInPrefix(x, y, i);
    StepPair(x + y, x, 0, i, id, name);
  }

  /** Away from its first character, a text scans the same way whatever
      stands in front of it: the lookbehind then looks inside the text. */
  lemma MatchInSuffix(p: string, z: string, id: string, m: nat)
    requires 1 <= m < |z|
    ensures MatchAt(p + z, |p| + m, id) == MatchAt(z, m, id)
  {
    var s := p + z;
    var i := |p| + m;
    var j := i + |id|;
    assert s[i - 1] == z[m - 1];
    if j <= |s| {
      assert s[i..j] == z[m..m + |id|];
    }
    if j < |s| {
      assert s[j] == z[m + |id|];
    }
    if j + 2 < |s| {
      assert s[j + 1] == z[m + |id| + 1] && s[j + 2] == z[m + |id| + 2];
    }
  }

  /** Scanning `p + z` from inside `z`, past its first character, is
      scanning `z` alone. */
  lemma {:induction false} ReplaceFromSuffix(p: string, z: string, id: string, name: string, m: nat)
    requires |id| > 0 && 1 <= m <= |z|
    ensures ReplaceFrom(p + z, id, name, |p| + m) == ReplaceFrom(z, id, name, m)
    decreases |z| - m
  {
    if m < |z| {
      SuffixStep(p, z, id, name, m);
      ReplaceFromSuffix(p, z, id, name, if MatchAt(z, m, id) then m + |id| else m + 1);
    }
  }

  /** One step of scanning `p + z` inside `z` is the same step as scanning `z`. */
  lemma SuffixStep(p: string, z: string, id: string, name: string, m: nat)
    requires |id| > 0 && 1 <= m < |z|
    ensures var next := if MatchAt(z, m, id) then m + |id| else m + 1;
            var head := if MatchAt(z, m, id) then name else [z[m]];
            && next <= |z|
            && ReplaceFrom(p + z, id, name, |p| + m) == head + ReplaceFrom(p + z, id, name, |p| + next)
            && ReplaceFrom(z, id, name, m) == head + ReplaceFrom(z, id, name, next)
  {
    var s := p + z;
    MatchInSuffix(p, z, id, m);
    CharShift(p, z, m);
    StepPair(s, z, |p|, m, id, name);
  }

  /** A step of the scan of `t` at `m` is the same step in `s` at `off + m`
      when the two positions hold the same character and agree on a match. */
  lemma StepPair(s: string, t: string, off: nat, m: nat, id: string, name: string)
    requires |id| > 0 && m < |t| && off + m < |s|
    requires MatchAt(s, off + m, id) == MatchAt(t, m, id) && s[off + m] == t[m]
    ensures var next := if MatchAt(t, m, id) then m + |id| else m + 1;
            var head := if MatchAt(t, m, id) then name else [t[m]];
            && next <= |t|
            && ReplaceFrom(s, id, name, off + m) == head + ReplaceFrom(s, id, name, off + next)
            && ReplaceFrom(t, id, name, m) == head + ReplaceFrom(t, id, name, next)
  {
    var i := off + m;
    if MatchAt(t, m, id) {
      StepWith(s, id, name, i, i + |id|, name);
      StepWith(t, id, name, m, m + |id|, name);
    } else {
      StepWith(s, id, name, i, i + 1, [t[m]]);
      StepWith(t, id, name, m, m + 1, [t[m]]);
    }
  }

  /** One step of the scan, with the step's length and output given. */
  lemma StepWith(s: string, id: string, name: string, i: nat, next: nat, head: string)
    requires |id| > 0 && i < |s|
    requires next == (if MatchAt(s, i, id) then i + |id| else i + 1)
    requires head == (if MatchAt(s, i, id) then name else [s[i]])
    ensures next <= |s| && ReplaceFrom(s, id, name, i) == head + ReplaceFrom(s, id, name, next)
  {
    ReplaceFromStep(s, id, name, i);
  }

  /** The scan of `x + y` splits at the cut character `c` that ends `x`:
      `x` is scanned alone, and `y` is scanned with `c` in front of it. */
  lemma {:induction false} ReplaceFromCut(x: string, y: string, id: string, name: string, i: nat)
    requires TokenId(id) && |x| > 0 && CutChar(x[|x| - 1]) && i <= |x|
    ensures ReplaceFrom(x + y, id, name, i)
            == ReplaceFrom(x, id, name, i) + ReplaceFrom([x[|x| - 1]] + y, id, name, 1)
    decreases |x| - i
  {
    if i == |x| {
      CutAtEnd(x, y, id, name);
    } else {
      ConcatStep(x, y, id, name, i);
      var next := if MatchAt(x, i, id) then i + |id| else i + 1;
      var head := if MatchAt(x, i, id) then name else [x[i]];
      ReplaceFromCut(x, y, id, name, next);
      ChainStep(ReplaceFrom(x + y, id, name, i), ReplaceFrom(x + y, id, name, next),
                ReplaceFrom(x, id, name, i), ReplaceFrom(x, id, name, next),
                ReplaceFrom([x[|x| - 1]] + y, id, name, 1), head);
    }
  }

  /** A step taken alike in the whole text and in its front piece carries the
      split over from the rest of the scan. */
  lemma ChainStep(whole: string, wholeRest: string, front: string, frontRest: string, back: string, head: string)
    requires whole == head + wholeRest && front == head + frontRest && wholeRest == frontRest + back
    ensures whole == front + back
  {
  }

  /** At the cut itself, scanning `x + y` goes on as scanning `y` behind `c`. */
  lemma CutAtEnd(x: string, y: string, id: string, name: string)
    requires |id| > 0 && |x| > 0
    ensures ReplaceFrom(x + y, id, name, |x|) == ReplaceFrom(x, id, name, |x|) + ReplaceFrom([x[|x| - 1]] + y, id, name, 1)
  {
    var p := x[..|x| - 1];
    assert x + y == p + ([x[|x| - 1]] + y);
    ReplaceFromSuffix(p, [x[|x| - 1]] + y, id, name, 1);
  }

  /** Text that ends at a cut character `c` is substituted independently of
      what follows it, and what follows is substituted with `c` in front. */
  lemma ReplaceCut(x: string, c: char, y: string, id: string, name: string)
    requires TokenId(id) && CutChar(c)
    ensures Replace(x + [c] + y, id, name) == Replace(x + [c], id, name) + Replace([c] + y, id, name)[1..]
  {
    var x' := x + [c];
    ReplaceFromCut(x', y, id, name, 0);
    assert x' + y == x + [c] + y;
    assert Replace([c] + y, id, name) == [c] + ReplaceFrom([c] + y, id, name, 1);
  }

  /** Text that ends a clause with `;` or `)` is substituted independently of
      what follows it. */
  lemma ReplaceConcat(x: string, y: string, id: string, name: string)
    requires TokenId(id) && |x| > 0 && EndsClause(x[|x| - 1])
    ensures Replace(x + y, id, name) == Replace(x, id, name) + Replace(y, id, name)
  {
    var c := x[|x| - 1];
    ReplaceFromCut(x, y, id, name, 0);
    ReplaceFromShift([c], y, id, name, 0);
    assert [c] + y == [c] + y;
  }

  lemma {:induction false} SubstituteAllKeepsLast(x: string, pairs: seq<(string, string)>)
    requires |x| > 0
    requires forall k :: 0 <= k < |pairs| ==> TokenId(pairs[k].0)
    ensures |SubstituteAll(x, pairs)| > 0
    ensures SubstituteAll(x, pairs)[|SubstituteAll(x, pairs)| - 1] == x[|x| - 1]
  {
    if |pairs| > 0 {
      var p := pairs[|pairs| - 1];
      SubstituteAllKeepsLast(x, pairs[..|pairs| - 1]);
      ReplaceFromKeepsLast(SubstituteAll(x, pairs[..|pairs| - 1]), p.0, p.1, 0);
    }
  }

  /** The whole pass works clause by clause. */
  lemma {:induction false} SubstituteAllConcat(x: string, y: string, pairs: seq<(string, string)>)
    requires |x| > 0 && EndsClause(x[|x| - 1])
    requires forall k :: 0 <= k < |pairs| ==> TokenId(pairs[k].0)
    ensures SubstituteAll(x + y, pairs) == SubstituteAll(x, pairs) + SubstituteAll(y, pairs)
  {
    if |pairs| > 0 {
      var init := pairs[..|pairs| - 1];
      var p := pairs[|pairs| - 1];
      SubstituteAllConcat(x, y, init);
      SubstituteAllKeepsLast(x, init);
      ReplaceConcat(SubstituteAll(x, init), SubstituteAll(y, init), p.0, p.1);
    }
  }

  /** The whole pass splits at a cut character `c` the same way a single
      `replace` does. */
  lemma {:induction false} SubstituteAllCut(x: string, c: char, y: string, pairs: seq<(string, string)>)
    requires CutChar(c)
    requires forall k :: 0 <= k < |pairs| ==> TokenId(pairs[k].0)
    ensures SubstituteAll(x + [c] + y, pairs)
            == SubstituteAll(x + [c], pairs) + SubstituteAll([c] + y, pairs)[1..]
  {
    if |pairs| == 0 {
      assert ([c] + y)[1..] == y;
    } else {
      var init := pairs[..|pairs| - 1];
      var p := pairs[|pairs| - 1];
      SubstituteAllCut(x, c, y, init);
      var front := SubstituteAll(x + [c], init);
      var back := SubstituteAll([c] + y, init);
      SubstituteAllKeepsLast(x + [c], init);
      assert (x + [c])[|x + [c]| - 1] == c;
      var front0 := front[..|front| - 1];
      assert front == front0 + [c];
      assert back == [c] + back[1..];
      ReplaceCut(front0, c, back[1..], p.0, p.1);
    }
  }

  /** `s` holds two colons in a row, starting at position `i`. */
  predicate DoubleColonAt(s: string, i: int)
  {
    0 <= i < |s| - 1 && s[i] == ':' && s[i + 1] == ':'
  }

  predicate HasDoubleColon(s: string)
  {
    exists i :: 0 <= i < |s| && DoubleColonAt(s, i)
  }

  /** Text without `.` and without `::`: fixed words such as `null`,
      `number`, ` | ` and an entry's name with its `: `. */
  predicate PlainText(s: string)
  {
    '.' !in s && !HasDoubleColon(s)
  }

  /** The uid of a collection: a token id holding a `.` or a `::`, as in
      `api::post.post`, `shared.seo` or `result::strapiTypes`. */
  predicate CollectionId(id: string)
  {
    TokenId(id) && !PlainText(id)
  }

  /** Text without `.` and without `:` is plain. */
  lemma NoColonPlain(s: string)
    requires '.' !in s && ':' !in s
    ensures PlainText(s)
  {
    forall i | 0 <= i < |s|
      ensures !DoubleColonAt(s, i)
    {
      assert s[i] in s;
    }
  }

  /** A collection id never matches in plain text: it would bring its `.`
      or its `::` along. */
  lemma PlainHasNoMatch(s: string, id: string, k: nat)
    requires PlainText(s) && CollectionId(id)
    ensures !MatchAt(s, k, id)
  {
    if k + |id| <= |s| && s[k..k + |id|] == id && !('.' in id) {
      var j :| 0 <= j < |id| && DoubleColonAt(id, j);
      assert DoubleColonAt(s, k + j);
    }
  }

  /** Plain text comes through the whole pass unchanged. */
  lemma {:induction false} SubstituteAllPlain(s: string, pairs: seq<(string, string)>)
    requires PlainText(s)
    requires forall k :: 0 <= k < |pairs| ==> CollectionId(pairs[k].0)
    ensures SubstituteAll(s, pairs) == s
  {
    if |pairs| > 0 {
      var p := pairs[|pairs| - 1];
      SubstituteAllPlain(s, pairs[..|pairs| - 1]);
      forall k | 0 <= k < |s|
        ensures !MatchAt(s, k, p.0)
      {
        PlainHasNoMatch(s, p.0, k);
      }
      ReplaceNoMatch(s, p.0, p.1);
    }
  }

  /** Plain text in front of a cut character comes through the pass
      unchanged, and what follows it is substituted behind that character. */
  lemma PlainHeadCut(head: string, z: string, pairs: seq<(string, string)>)
    requires |head| > 0 && CutChar(head[|head| - 1]) && PlainText(head)
    requires forall m :: 0 <= m < |pairs| ==> CollectionId(pairs[m].0)
    ensures SubstituteAll(head + z, pairs) == head + SubstituteAll([head[|head| - 1]] + z, pairs)[1..]
  {
    var h0, c := head[..|head| - 1], head[|head| - 1];
    assert head == h0 + [c];
    SubstituteAllCut(h0, c, z, pairs);
    SubstituteAllPlain(head, pairs);
  }

  /** A token of the k-th id followed by plain text: the id becomes the
      k-th name and the text is kept. */
  lemma TokenThenPlain(open: char, suffix: string, after: string, pairs: seq<(string, string)>, k: nat)
    requires WellFormedPairs(pairs) && k < |pairs|
    requires forall m :: 0 <= m < |pairs| ==> CollectionId(pairs[m].0)
    requires OpensToken(open) && (suffix == "" || suffix == "[]")
    requires |after| > 0 && ClosesToken(after[0]) && PlainText(after)
    ensures SubstituteAll([open] + pairs[k].0 + suffix + after, pairs) == [open] + pairs[k].1 + suffix + after
  {
    var close, rest := after[0], after[1..];
    var t0 := [open] + pairs[k].0 + suffix;
    assert after == [close] + rest;
    assert t0 + after == t0 + [close] + rest;
    SubstituteAllCut(t0, close, rest, pairs);
    SubstituteAllToken(open, suffix, close, pairs, k);
    SubstituteAllPlain(after, pairs);
    Reassemble(SubstituteAll(t0 + after, pairs), SubstituteAll(t0 + [close], pairs), SubstituteAll(after, pairs),
               [open] + pairs[k].1 + suffix, after);
  }

  /** Putting back together the two pieces of a cut: the front piece ends
      with the cut character and the back piece starts with it. */
  lemma Reassemble(whole: string, front: string, back: string, t: string, after: string)
    requires |after| > 0 && |back| > 0
    requires whole == front + back[1..] && front == t + [after[0]] && back == after
    ensures whole == t + after
  {
    assert after == [after[0]] + after[1..];
  }

  /** A line that names a collection between plain text, as a rendered entry
      does (`    author: api::writer.writer | null;`): the whole pass gives
      the same line with the id replaced by its type name. */
  lemma SubstituteAllInContext(head: string, suffix: string, after: string,
                               pairs: seq<(string, string)>, k: nat)
    requires WellFormedPairs(pairs) && k < |pairs|
    requires forall m :: 0 <= m < |pairs| ==> CollectionId(pairs[m].0)
    requires |head| > 0 && OpensToken(head[|head| - 1]) && PlainText(head)
    requires suffix == "" || suffix == "[]"
    requires |after| > 0 && ClosesToken(after[0]) && PlainText(after)
    ensures SubstituteAll(head + pairs[k].0 + suffix + after, pairs)
            == head + pairs[k].1 + suffix + after
  {
    var open := head[|head| - 1];
    var z := pairs[k].0 + suffix + after;
    Assoc4(head, pairs[k].0, suffix, after);
    Assoc4([open], pairs[k].0, suffix, after);
    PlainHeadCut(head, z, pairs);
    TokenThenPlain(open, suffix, after, pairs, k);
    ReassembleBehind(SubstituteAll(head + z, pairs), head, SubstituteAll([open] + z, pairs),
                     open, pairs[k].1, suffix, after);
  }

  /** A line naming two collections between plain text, as a dynamic zone
      (`    body: (shared.a | shared.b)[] | null;`) or a registry value does:
      the whole pass replaces each id by its own type name. */
  lemma SubstituteAllTwoInContext(head: string, s1: string, mid: string, s2: string, after: string,
                                  pairs: seq<(string, string)>, k: nat, j: nat)
    requires WellFormedPairs(pairs) && k < |pairs| && j < |pairs|
    requires forall m :: 0 <= m < |pairs| ==> CollectionId(pairs[m].0)
    requires |head| > 0 && OpensToken(head[|head| - 1]) && PlainText(head)
    requires (s1 == "" || s1 == "[]") && (s2 == "" || s2 == "[]")
    requires |mid| > 0 && ClosesToken(mid[0]) && OpensToken(mid[|mid| - 1]) && PlainText(mid)
    requires |after| > 0 && ClosesToken(after[0]) && PlainText(after)
    ensures SubstituteAll(head + pairs[k].0 + s1 + mid + pairs[j].0 + s2 + after, pairs)
            == head + pairs[k].1 + s1 + mid + pairs[j].1 + s2 + after
  {
    var c := mid[0];
    var x := head + pairs[k].0 + s1;
    var y := mid[1..] + pairs[j].0 + s2 + after;
    CutAtMid(head, pairs[k].0, s1, mid, pairs[j].0, s2, after);
    SubstituteAllCut(x, c, y, pairs);
    PlainChar(mid, 0);
    SubstituteAllInContext(head, s1, [c], pairs, k);
    SubstituteAllInContext(mid, s2, after, pairs, j);
    JoinAtMid(SubstituteAll(x + [c], pairs), SubstituteAll([c] + y, pairs), head, pairs[k].1, s1, mid, pairs[j].1, s2, after);
  }

  /** Cutting a two-id line at the first character between the ids. */
  lemma CutAtMid(head: string, a: string, s1: string, mid: string, b: string, s2: string, after: string)
    requires |mid| > 0
    ensures head + a + s1 + mid + b + s2 + after == (head + a + s1) + [mid[0]] + (mid[1..] + b + s2 + after)
    ensures [mid[0]] + (mid[1..] + b + s2 + after) == mid + b + s2 + after
  {
    assert mid == [mid[0]] + mid[1..];
  }

  /** Putting back together the two substituted pieces of a two-id line. */
  lemma JoinAtMid(front: string, back: string, head: string, a: string, s1: string,
                  mid: string, b: string, s2: string, after: string)
    requires |mid| > 0 && front == head + a + s1 + [mid[0]] && back == mid + b + s2 + after
    ensures front + back[1..] == head + a + s1 + mid + b + s2 + after
  {
    assert back[1..] == mid[1..] + b + s2 + after;
    assert mid == [mid[0]] + mid[1..];
  }

  /** One character of plain text is plain text. */
  lemma PlainChar(s: string, i: int)
    requires 0 <= i < |s| && PlainText(s) && s[i] != ':'
    ensures PlainText([s[i]])
  {
    NoColonPlain([s[i]]);
  }

  lemma Assoc4(a: string, b: string, c: string, d: string)
    ensures a + b + c + d == a + (b + c + d)
  {
  }

  /** Putting back together plain text and what was substituted behind its
      last character. */
  lemma ReassembleBehind(whole: string, head: string, back: string,
                         c: char, name: string, suffix: string, after: string)
    requires |back| > 0 && whole == head + back[1..] && back == [c] + name + suffix + after
    ensures whole == head + name + suffix + after
  {
    assert back[1..] == name + suffix + after;
  }

  /** Two collections whose ids share a prefix, `api::post` and
      `api::post-tag`: each reference resolves to its own name. */
  lemma PrefixSharingIds(post: string, postTag: string)
    requires post == "api::post" && postTag == "api::post-tag"
    ensures SubstituteAll(Token(' ', post, "", ';') + Token(' ', postTag, "[]", ';'),
                          [(post, "Post"), (postTag, "PostTag")])
            == Token(' ', "Post", "", ';') + Token(' ', "PostTag", "[]", ';')
  {
    var pairs := [(post, "Post"), (postTag, "PostTag")];
    assert WellFormedPairs(pairs);
    SubstituteAllConcat(Token(' ', post, "", ';'), Token(' ', postTag, "[]", ';'), pairs);
    SubstituteAllToken(' ', "", ';', pairs, 0);
    SubstituteAllToken(' ', "[]", ';', pairs, 1);
  }
}
