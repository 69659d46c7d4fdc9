/** The catalog sorts: Collections.sort with a case-insensitive comparator on
    one field. The specification SortedBy is a stable insertion sort on
    sequences; InsertionSort runs the same algorithm in place on an array. */
module Sorting {
  import opened Text
  import opened Books

  /** a may come before b: a's key is at most b's key, ignoring case. */
  predicate InOrder(a: Book, b: Book, key: SortKey)
  {
    CompareIgnoreCase(Key(a, key), Key(b, key)) <= 0
  }

  /** Non-decreasing under the case-insensitive order of the chosen key. */
  predicate Sorted(s: seq<Book>, key: SortKey)
  {
    forall i, j :: 0 <= i < j < |s| ==> InOrder(s[i], s[j], key)
  }

  /** Puts x into t, moving it left only past books whose key is strictly greater. */
  function Insert(t: seq<Book>, x: Book, key: SortKey): (r: seq<Book>)
    ensures |r| == |t| + 1
  {
    if t == [] || InOrder(t[|t| - 1], x, key) then t + [x]
    else Insert(t[..|t| - 1], x, key) + [t[|t| - 1]]
  }

  /** The catalog sorted by key: each book in turn is inserted into the
      sorted prefix before it. */
  function SortedBy(s: seq<Book>, key: SortKey): (r: seq<Book>)
    ensures |r| == |s|
  {
    if s == [] then []
    else Insert(SortedBy(s[..|s| - 1], key), s[|s| - 1], key)
  }

  /** A sequence is its prefix followed by its last element. */
  lemma SplitLast(s: seq<Book>)
    requires s != []
    ensures s == s[..|s| - 1] + [s[|s| - 1]]
    ensures multiset(s) == multiset(s[..|s| - 1]) + multiset{s[|s| - 1]}
  {
    assert s == s[..|s| - 1] + [s[|s| - 1]];
  }

  lemma {:induction false} InsertPermutes(t: seq<Book>, x: Book, key: SortKey)
    ensures multiset(Insert(t, x, key)) == multiset(t) + multiset{x}
  {
    if t != [] && !InOrder(t[|t| - 1], x, key) {
      InsertPermutes(t[..|t| - 1], x, key);
      SplitLast(t);
    }
  }

  /** sortByTitle / sortByAuthor only reorder the catalog: the result is a
      permutation of it. */
  lemma {:induction false} SortedByPermutes(s: seq<Book>, key: SortKey)
    ensures multiset(SortedBy(s, key)) == multiset(s)
  {
    if s != [] {
      SortedByPermutes(s[..|s| - 1], key);
      InsertPermutes(SortedBy(s[..|s| - 1], key), s[|s| - 1], key);
      SplitLast(s);
    }
  }

  /** Appending a book that every book of u is in order with keeps u sorted. */
  lemma SortedSnoc(u: seq<Book>, l: Book, key: SortKey)
    requires Sorted(u, key)
    requires forall k :: 0 <= k < |u| ==> InOrder(u[k], l, key)
    ensures Sorted(u + [l], key)
  {
    var r := u + [l];
    forall i, j | 0 <= i < j < |r| ensures InOrder(r[i], r[j], key) {
      assert r[i] == u[i];
    }
  }

  /** When x goes before a book l that every book of t' precedes, everything
      inserting x into t' produces still precedes l. */
  lemma InsertBelow(t': seq<Book>, l: Book, x: Book, key: SortKey)
    requires forall k :: 0 <= k < |t'| ==> InOrder(t'[k], l, key)
    requires !InOrder(l, x, key)
    ensures forall k :: 0 <= k < |Insert(t', x, key)| ==> InOrder(Insert(t', x, key)[k], l, key)
  {
    var u := Insert(t', x, key);
    InsertPermutes(t', x, key);
    CompareAntisymmetric(Key(l, key), Key(x, key));
    forall k | 0 <= k < |u| ensures InOrder(u[k], l, key) {
      var e := u[k];
      assert e in multiset(u);
      if e != x {
        assert e in multiset(t');
        var m :| 0 <= m < |t'| && t'[m] == e;
      }
    }
  }

  lemma {:induction false} InsertSorted(t: seq<Book>, x: Book, key: SortKey)
    requires Sorted(t, key)
    ensures Sorted(Insert(t, x, key), key)
  {
    if t == [] {
    } else if InOrder(t[|t| - 1], x, key) {
      forall k | 0 <= k < |t| ensures InOrder(t[k], x, key) {
        if k < |t| - 1 {
          CompareTransitive(Key(t[k], key), Key(t[|t| - 1], key), Key(x, key));
        }
      }
      SortedSnoc(t, x, key);
    } else {
      var t', l := t[..|t| - 1], t[|t| - 1];
      InsertSorted(t', x, key);
      InsertBelow(t', l, x, key);
      SortedSnoc(Insert(t', x, key), l, key);
    }
  }

  /** sortByTitle / sortByAuthor leave the catalog in non-decreasing key order. */
  lemma {:induction false} SortedBySorted(s: seq<Book>, key: SortKey)
    ensures Sorted(SortedBy(s, key), key)
  {
    if s != [] {
      SortedBySorted(s[..|s| - 1], key);
      InsertSorted(SortedBy(s[..|s| - 1], key), s[|s| - 1], key);
    }
  }

  /** Inserting x keeps it behind every book of t with an equal key. */
  lemma {:induction false} InsertStable(t: seq<Book>, x: Book, key: SortKey, k: string)
    ensures Filter(Insert(t, x, key), SameKey(key, k)) == Filter(t, SameKey(key, k)) + Filter([x], SameKey(key, k))
  {
    var c := SameKey(key, k);
    if t == [] || InOrder(t[|t| - 1], x, key) {
      FilterAppend(t, [x], c);
    } else {
      var t', l := t[..|t| - 1], t[|t| - 1];
      var fx, fl := Filter([x], c), Filter([l], c);
      assert fx == [] || fl == [] by {
        assert [x][1..] == [] && [l][1..] == [];
        if Holds(c, x) && Holds(c, l) {
          EqualsIgnoreCaseEquivalence(Key(l, key), k, Key(x, key));
          EqualsIgnoreCaseEquivalence(Key(x, key), k, Key(l, key));
          CompareZeroIffEquals(Key(l, key), Key(x, key));
        }
      }
      calc {
        Filter(Insert(t, x, key), c);
        Filter(Insert(t', x, key) + [l], c);
        { FilterAppend(Insert(t', x, key), [l], c); }
        Filter(Insert(t', x, key), c) + fl;
        { InsertStable(t', x, key, k); }
        Filter(t', c) + fx + fl;
        Filter(t', c) + fl + fx;
        { FilterAppend(t', [l], c); }
        Filter(t' + [l], c) + fx;
        { assert t == t' + [l]; }
        Filter(t, c) + fx;
      }
    }
  }

  /** The sort is stable: the books sharing any one key value appear in the
      same relative order before and after. */
  lemma {:induction false} SortedByStable(s: seq<Book>, key: SortKey, k: string)
    ensures Filter(SortedBy(s, key), SameKey(key, k)) == Filter(s, SameKey(key, k))
  {
    if s != [] {
      var s', l := s[..|s| - 1], s[|s| - 1];
      SortedByStable(s', key, k);
      InsertStable(SortedBy(s', key), l, key, k);
      FilterAppend(s', [l], SameKey(key, k));
      assert s == s' + [l];
    }
  }

  /** Every prefix of a sorted sequence is sorted. */
  lemma SortedPrefix(s: seq<Book>, n: int, key: SortKey)
    requires Sorted(s, key) && 0 <= n <= |s|
    ensures Sorted(s[..n], key)
  {
    forall i, j | 0 <= i < j < n ensures InOrder(s[..n][i], s[..n][j], key) {
      assert s[..n][i] == s[i] && s[..n][j] == s[j];
    }
  }

  /** Sorting a catalog that is already in order leaves it as it is; in
      particular sorting twice by the same key is sorting once. */
  lemma {:induction false} SortedByIdentity(s: seq<Book>, key: SortKey)
    requires Sorted(s, key)
    ensures SortedBy(s, key) == s
  {
    if s != [] {
      var s', l := s[..|s| - 1], s[|s| - 1];
      SortedPrefix(s, |s| - 1, key);
      SortedByIdentity(s', key);
      assert |s'| > 0 ==> InOrder(s'[|s'| - 1], l, key);
      calc {
        SortedBy(s, key);
        Insert(SortedBy(s', key), l, key);
        Insert(s', l, key);
        s' + [l];
        { SplitLast(s); }
        s;
      }
    }
  }

  /** Insert puts x right after the last book that is in order with it,
      once every book behind that position has a strictly greater key. */
  lemma {:induction false} InsertAt(t: seq<Book>, x: Book, key: SortKey, j: int)
    requires 0 <= j <= |t| && (j == 0 || InOrder(t[j - 1], x, key))
    requires forall k :: j <= k < |t| ==> !InOrder(t[k], x, key)
    ensures Insert(t, x, key) == t[..j] + [x] + t[j..]
  {
    if j < |t| {
      var t', l := t[..|t| - 1], t[|t| - 1];
      calc {
        Insert(t, x, key);
        Insert(t', x, key) + [l];
        { InsertAt(t', x, key, j); }
        t'[..j] + [x] + t'[j..] + [l];
        { assert t'[..j] == t[..j] && t'[j..] + [l] == t[j..]; }
        t[..j] + [x] + t[j..];
      }
    } else {
      assert t[..j] == t;
    }
  }

  /** u is t with x placed at position j. */
  lemma Placed(u: seq<Book>, t: seq<Book>, x: Book, j: int)
    requires 0 <= j <= |t| && |u| == |t| + 1 && u[j] == x
    requires forall k :: 0 <= k < j ==> u[k] == t[k]
    requires forall k :: j < k < |u| ==> u[k] == t[k - 1]
    ensures u == t[..j] + [x] + t[j..]
  {
    var r := t[..j] + [x] + t[j..];
    forall k | 0 <= k < |u| ensures u[k] == r[k] {
      if k < j {
        assert r[k] == t[k];
      } else if k > j {
        assert r[k] == t[k - 1];
      }
    }
  }

  /** Shifts right by one place the books just before position i whose key
      is strictly greater than x's, overwriting a[i]; j is the gap left. */
  method ShiftGreater(a: array<Book>, i: int, x: Book, key: SortKey) returns (j: int)
    requires 0 <= i < a.Length
    modifies a
    ensures 0 <= j <= i
    ensures forall k :: 0 <= k < j ==> a[k] == old(a[k])
    ensures forall k :: j < k <= i ==> a[k] == old(a[k - 1])
    ensures forall k :: i < k < a.Length ==> a[k] == old(a[k])
    ensures j == 0 || InOrder(old(a[j - 1]), x, key)
    ensures forall k :: j <= k < i ==> !InOrder(old(a[k]), x, key)
  {
    j := i;
    while j > 0 && !InOrder(a[j - 1], x, key)
      invariant 0 <= j <= i
      invariant forall k :: 0 <= k < j ==> a[k] == old(a[k])
      invariant forall k :: j < k <= i ==> a[k] == old(a[k - 1])
      invariant forall k :: i < k < a.Length ==> a[k] == old(a[k])
      invariant forall k :: j <= k < i ==> !InOrder(old(a[k]), x, key)
    {
      a[j] := a[j - 1];
      j := j - 1;
    }
  }

  /** Inserts a[i] into the sorted run a[..i]. */
  method InsertLast(a: array<Book>, i: int, key: SortKey)
    requires 0 <= i < a.Length
    modifies a
    ensures a[..i + 1] == Insert(old(a[..i]), old(a[i]), key)
    ensures a[i + 1..] == old(a[i + 1..])
  {
    ghost var t := a[..i];
    var x := a[i];
    var j := ShiftGreater(a, i, x, key);
    a[j] := x;
    InsertAt(t, x, key, j);
    Placed(a[..i + 1], t, x, j);
  }

  /** Sorting one more book inserts it into the sorted prefix. */
  lemma SortedByPrefix(s: seq<Book>, i: int, key: SortKey)
    requires 0 <= i < |s|
    ensures SortedBy(s[..i + 1], key) == Insert(SortedBy(s[..i], key), s[i], key)
  {
    assert s[..i + 1][..i] == s[..i];
  }

  /** Collections.sort on the array: a stable in-place insertion sort. */
  method InsertionSort(a: array<Book>, key: SortKey)
    modifies a
    ensures a[..] == SortedBy(old(a[..]), key)
  {
    ghost var s0 := a[..];
    var i := 0;
    while i < a.Length
      invariant 0 <= i <= a.Length
      invariant a[..i] == SortedBy(s0[..i], key)
      invariant a[i..] == s0[i..]
    {
      assert a[i] == s0[i] && a[i + 1..] == s0[i + 1..];
      InsertLast(a, i, key);
      SortedByPrefix(s0, i, key);
      i := i + 1;
    }
    assert s0[..a.Length] == s0;
  }
}
