/** The order in which every revision of the generator emits its types:
    `types.sort((t1, t2) => t1.name.localeCompare(t2.name))`.
    `localeCompare` depends on the locale; this model uses the plain
    lexicographic order on character codes in its place. */
module Ordering {

  /** `a` sorts no later than `b`: lexicographic order, a prefix first. */
  predicate Below(a: string, b: string)
    decreases |a|
  {
    |a| == 0 || (|b| > 0 && (a[0] < b[0] || (a[0] == b[0] && Below(a[1..], b[1..]))))
  }

  lemma {:induction false} BelowReflexive(a: string)
    ensures Below(a, a)
    decreases |a|
  {
    if |a| > 0 {
      BelowReflexive(a[1..]);
    }
  }

  lemma {:induction false} BelowTotal(a: string, b: string)
    ensures Below(a, b) || Below(b, a)
    decreases |a|
  {
    if |a| > 0 && |b| > 0 && a[0] == b[0] {
      BelowTotal(a[1..], b[1..]);
    }
  }

  lemma {:induction false} BelowTransitive(a: string, b: string, c: string)
    requires Below(a, b) && Below(b, c)
    ensures Below(a, c)
    decreases |a|
  {
    if |a| > 0 && a[0] == b[0] && b[0] == c[0] {
      BelowTransitive(a[1..], b[1..], c[1..]);
    }
  }

  lemma {:induction false} BelowAntisymmetric(a: string, b: string)
    requires Below(a, b) && Below(b, a)
    ensures a == b
    decreases |a|
  {
    if |a| > 0 {
      BelowAntisymmetric(a[1..], b[1..]);
      assert a == [a[0]] + a[1..] && b == [b[0]] + b[1..];
    }
  }

  /** The names in `s` appear in ascending order. */
  ghost predicate SortedBy<T>(s: seq<T>, key: T -> string)
  {
    forall p, q :: 0 <= p < q < |s| ==> Below(key(s[p]), key(s[q]))
  }

  /** The first `n` elements of `s` appear in ascending order of `key`. */
  ghost predicate SortedPrefix<T>(s: seq<T>, key: T -> string, n: int)
  {
    forall p, q :: 0 <= p < q < n && q < |s| ==> Below(key(s[p]), key(s[q]))
  }

  /** `Array.prototype.sort` with a by-name comparator, in place: an insertion
      sort that leaves `a` in ascending order of `key` and holds the same
      elements as before. */
  method SortByName<T>(a: array<T>, key: T -> string)
    modifies a
    ensures SortedBy(a[..], key)
    ensures multiset(a[..]) == multiset(old(a[..]))
  {
    var i := 0;
    while i < a.Length
      invariant 0 <= i <= a.Length
      invariant SortedPrefix(a[..], key, i)
      invariant multiset(a[..]) == multiset(old(a[..]))
    {
      InsertLast(a, key, i);
      i := i + 1;
    }
  }

  /** One insertion step: `a[i]` sinks into the sorted prefix `a[..i]`,
      one adjacent swap at a time, until the prefix `a[..i + 1]` is sorted. */
  method InsertLast<T>(a: array<T>, key: T -> string, i: int)
    requires 0 <= i < a.Length && SortedPrefix(a[..], key, i)
    modifies a
    ensures SortedPrefix(a[..], key, i + 1)
    ensures multiset(a[..]) == multiset(old(a[..]))
  {
    var j := i;
    assert Sinking(a[..], key, i, j);
    while j > 0 && !Below(key(a[j - 1]), key(a[j]))
      invariant 0 <= j <= i
      invariant Sinking(a[..], key, i, j)
      invariant multiset(a[..]) == multiset(old(a[..]))
    {
      ghost var before := a[..];
      SinkStep(before, key, i, j);
      SwappedKeepsMultiset(before, j - 1);
      a[j - 1], a[j] := a[j], a[j - 1];
      assert a[..] == Swapped(before, j - 1);
      j := j - 1;
    }
    SinkDone(a[..], key, i, j);
  }

  /** While `s[j]` sinks through `s[..i + 1]`: the other elements of the
      prefix are in order, and `s[j]` sorts before everything after it. */
  ghost predicate Sinking<T>(s: seq<T>, key: T -> string, i: int, j: int)
    requires 0 <= j <= i < |s|
  {
    && (forall p, q :: 0 <= p < q <= i && p != j && q != j ==> Below(key(s[p]), key(s[q])))
    && (forall q :: j < q <= i ==> Below(key(s[j]), key(s[q])))
  }

  /** Swapping `s[j]` with a larger left neighbour keeps it sinking. */
  lemma SinkStep<T>(s: seq<T>, key: T -> string, i: int, j: int)
    requires 0 < j <= i < |s| && Sinking(s, key, i, j) && !Below(key(s[j - 1]), key(s[j]))
    ensures Sinking(Swapped(s, j - 1), key, i, j - 1)
  {
    var r := Swapped(s, j - 1);
    BelowTotal(key(s[j - 1]), key(s[j]));
    forall q | j - 1 < q <= i
      ensures Below(key(r[j - 1]), key(r[q]))
    {
      if q > j {
        assert r[q] == s[q];
      }
    }
    forall p, q | 0 <= p < q <= i && p != j - 1 && q != j - 1
      ensures Below(key(r[p]), key(r[q]))
    {
      if p == j {
        assert r[q] == s[q];
        assert Below(key(s[j - 1]), key(s[q]));
      } else if q == j {
        assert r[p] == s[p];
        assert Below(key(s[p]), key(s[j - 1]));
      } else {
        assert r[p] == s[p] && r[q] == s[q];
      }
    }
  }

  /** Once `s[j]` is at the front or above its left neighbour, the prefix
      `s[..i + 1]` is sorted. */
  lemma SinkDone<T>(s: seq<T>, key: T -> string, i: int, j: int)
    requires 0 <= j <= i < |s| && Sinking(s, key, i, j)
    requires j == 0 || Below(key(s[j - 1]), key(s[j]))
    ensures SortedPrefix(s, key, i + 1)
  {
    forall p, q | 0 <= p < q < i + 1
      ensures Below(key(s[p]), key(s[q]))
    {
      if q == j && p < j - 1 {
        BelowTransitive(key(s[p]), key(s[j - 1]), key(s[j]));
      } else if p < j < q {
        if p < j - 1 {
          BelowTransitive(key(s[p]), key(s[j - 1]), key(s[j]));
        }
        BelowTransitive(key(s[p]), key(s[j]), key(s[q]));
      }
    }
  }

  /** `s` with its elements at `p` and `p + 1` exchanged. */
  function Swapped<T>(s: seq<T>, p: int): (r: seq<T>)
    requires 0 <= p < |s| - 1
    ensures |r| == |s| && r[p] == s[p + 1] && r[p + 1] == s[p]
    ensures forall q :: 0 <= q < |s| && q != p && q != p + 1 ==> r[q] == s[q]
  {
    s[p := s[p + 1]][p + 1 := s[p]]
  }

  /** An adjacent swap keeps the elements. */
  lemma SwappedKeepsMultiset<T>(s: seq<T>, p: int)
    requires 0 <= p < |s| - 1
    ensures multiset(Swapped(s, p)) == multiset(s)
  {
    assert s == s[..p] + [s[p], s[p + 1]] + s[p + 2..];
    assert Swapped(s, p) == s[..p] + [s[p + 1], s[p]] + s[p + 2..];
  }

  /** Sorting a list the way the generators do: copied into a fresh array,
      sorted there in place, and read back. */
  method SortCopy<T>(s: seq<T>, key: T -> string) returns (sorted: seq<T>)
    ensures multiset(sorted) == multiset(s)
    ensures SortedBy(sorted, key)
  {
    var a := new T[|s|](i requires 0 <= i < |s| => s[i]);
    assert a[..] == s;
    SortByName(a, key);
    sorted := a[..];
  }
}
