/** Stable sorting, largest key first, as the library sort with a key and reverse order does it. */
module Sorting {
  import opened Sequences

  /** Inserts x behind every element whose key is at least its own. */
  function InsertDescending<T>(s: seq<T>, x: T, key: T -> real): (r: seq<T>)
    ensures multiset(r) == multiset(s) + multiset{x}
    ensures |r| == |s| + 1
  {
    if s == [] || key(s[|s| - 1]) >= key(x) then s + [x]
    else
      assert s == s[..|s| - 1] + [s[|s| - 1]];
      InsertDescending(s[..|s| - 1], x, key) + [s[|s| - 1]]
  }

  function SortDescending<T>(s: seq<T>, key: T -> real): (r: seq<T>)
    ensures multiset(r) == multiset(s)
    ensures |r| == |s|
  {
    if s == [] then []
    else
      assert s == s[..|s| - 1] + [s[|s| - 1]];
      InsertDescending(SortDescending(s[..|s| - 1], key), s[|s| - 1], key)
  }

  ghost predicate Descending<T>(s: seq<T>, key: T -> real) {
    forall i, j :: 0 <= i < j < |s| ==> key(s[i]) >= key(s[j])
  }

  lemma {:induction false} InsertKeepsDescending<T>(s: seq<T>, x: T, key: T -> real)
    requires Descending(s, key)
    ensures Descending(InsertDescending(s, x, key), key)
  {
    if s != [] && key(s[|s| - 1]) < key(x) {
      var rest, last := s[..|s| - 1], s[|s| - 1];
      InsertKeepsDescending(rest, x, key);
      var r := InsertDescending(rest, x, key);
      forall i | 0 <= i < |r| ensures key(r[i]) >= key(last) {
        assert r[i] in multiset(r);
        assert r[i] in rest || r[i] == x;
      }
    }
  }

  lemma {:induction false} SortIsDescending<T>(s: seq<T>, key: T -> real)
    ensures Descending(SortDescending(s, key), key)
  {
    if s != [] {
      SortIsDescending(s[..|s| - 1], key);
      InsertKeepsDescending(SortDescending(s[..|s| - 1], key), s[|s| - 1], key);
    }
  }

  lemma SortKeepsElements<T>(s: seq<T>, key: T -> real)
    ensures forall x :: x in SortDescending(s, key) <==> x in s
  {
    assert forall x :: x in SortDescending(s, key) <==> x in multiset(SortDescending(s, key));
    assert forall x :: x in s <==> x in multiset(s);
  }

  lemma {:induction false} InsertIsStable<T(!new)>(s: seq<T>, x: T, key: T -> real, k: real, same: T -> bool)
    requires forall t :: same(t) <==> key(t) == k
    ensures Filter(InsertDescending(s, x, key), same) == Filter(s + [x], same)
  {
    if s != [] && key(s[|s| - 1]) < key(x) {
      var rest, last := s[..|s| - 1], s[|s| - 1];
      assert s == rest + [last];
      InsertIsStable(rest, x, key, k, same);
      FilterAppend(InsertDescending(rest, x, key), [last], same);
      FilterAppend(rest, [x], same);
      FilterAppend(rest, [last], same);
      FilterAppend(s, [x], same);
      FilterOne(x, same);
      FilterOne(last, same);
    }
  }

  lemma FilterOne<T(!new)>(x: T, keep: T -> bool)
    ensures Filter([x], keep) == if keep(x) then [x] else []
  {
    assert [x][..0] == [];
  }

  /** Elements with the same key keep their order. */
  lemma {:induction false} SortIsStable<T(!new)>(s: seq<T>, key: T -> real, k: real, same: T -> bool)
    requires forall t :: same(t) <==> key(t) == k
    ensures Filter(SortDescending(s, key), same) == Filter(s, same)
  {
    if s != [] {
      var rest, last := s[..|s| - 1], s[|s| - 1];
      assert s == rest + [last];
      SortIsStable(rest, key, k, same);
      InsertIsStable(SortDescending(rest, key), last, key, k, same);
      FilterAppend(SortDescending(rest, key), [last], same);
      FilterAppend(rest, [last], same);
    }
  }
}
