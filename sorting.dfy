/** `list.sort(key=..., reverse=True)` as the pipelines use it: a stable sort
    by descending integer key. Python's sort is a library routine, so it is
    given here by a specification (insertion of each element after every
    element whose key is at least its own) and the properties that make it
    the sort Python documents: the result is ordered, is a permutation, and
    keeps the original order of elements with equal keys. */
module Sorting {

  predicate SortedDesc<T>(s: seq<T>, key: T -> int) {
    forall i, j :: 0 <= i < j < |s| ==> key(s[i]) >= key(s[j])
  }

  /** `x` placed after the leading elements whose key is at least its own. */
  function Insert<T>(x: T, l: seq<T>, key: T -> int): (r: seq<T>)
    ensures |r| == |l| + 1
    decreases |l|
  {
    if l == [] || key(l[0]) < key(x) then [x] + l
    else [l[0]] + Insert(x, l[1..], key)
  }

  /** The stable descending sort. */
  function SortDesc<T>(s: seq<T>, key: T -> int): (r: seq<T>)
    ensures |r| == |s|
    decreases |s|
  {
    if s == [] then [] else Insert(s[|s| - 1], SortDesc(s[..|s| - 1], key), key)
  }

  /** The elements with key `v`, in order. */
  function Select<T>(s: seq<T>, key: T -> int, v: int): (r: seq<T>)
    ensures |r| <= |s|
    decreases |s|
  {
    if s == [] then []
    else (if key(s[0]) == v then [s[0]] else []) + Select(s[1..], key, v)
  }

  /** `R` holds between every two elements at different positions. */
  predicate Pairwise<T>(s: seq<T>, R: (T, T) -> bool) {
    forall i, j :: 0 <= i < |s| && 0 <= j < |s| && i != j ==> R(s[i], s[j])
  }

  lemma {:induction false} InsertSorted<T>(x: T, l: seq<T>, key: T -> int)
    requires SortedDesc(l, key)
    ensures SortedDesc(Insert(x, l, key), key)
    decreases |l|
  {
    if l != [] && key(l[0]) >= key(x) {
      InsertSorted(x, l[1..], key);
      var r := Insert(x, l, key);
      var t := Insert(x, l[1..], key);
      assert r == [l[0]] + t;
      InsertMultiset(x, l[1..], key);
      forall j | 0 < j < |r|
        ensures key(r[0]) >= key(r[j])
      {
        assert r[j] in multiset(t);
        if r[j] != x {
          assert r[j] in multiset(l[1..]);
          var k :| 0 <= k < |l[1..]| && l[1..][k] == r[j];
          assert l[k + 1] == r[j];
        }
      }
    }
  }

  lemma {:induction false} InsertMultiset<T>(x: T, l: seq<T>, key: T -> int)
    ensures multiset(Insert(x, l, key)) == multiset(l) + multiset{x}
    decreases |l|
  {
    if l != [] && key(l[0]) >= key(x) {
      InsertMultiset(x, l[1..], key);
      assert l == [l[0]] + l[1..];
    }
  }

  /** The result is ordered by descending key. */
  lemma {:induction false} SortDescSorted<T>(s: seq<T>, key: T -> int)
    ensures SortedDesc(SortDesc(s, key), key)
    decreases |s|
  {
    if s != [] {
      SortDescSorted(s[..|s| - 1], key);
      InsertSorted(s[|s| - 1], SortDesc(s[..|s| - 1], key), key);
    }
  }

  /** The result is a permutation of the input. */
  lemma {:induction false} SortDescPermutation<T>(s: seq<T>, key: T -> int)
    ensures multiset(SortDesc(s, key)) == multiset(s)
    decreases |s|
  {
    if s != [] {
      SortDescPermutation(s[..|s| - 1], key);
      InsertMultiset(s[|s| - 1], SortDesc(s[..|s| - 1], key), key);
      assert s == s[..|s| - 1] + [s[|s| - 1]];
    }
  }

  lemma {:induction false} SelectAppend<T>(a: seq<T>, b: seq<T>, key: T -> int, v: int)
    ensures Select(a + b, key, v) == Select(a, key, v) + Select(b, key, v)
    decreases |a|
  {
    if a != [] {
      SelectAppend(a[1..], b, key, v);
      assert (a + b)[0] == a[0];
      assert (a + b)[1..] == a[1..] + b;
    } else {
      assert a + b == b;
    }
  }

  lemma {:induction false} SelectNone<T>(l: seq<T>, key: T -> int, v: int)
    requires forall i :: 0 <= i < |l| ==> key(l[i]) < v
    ensures Select(l, key, v) == []
    decreases |l|
  {
    if l != [] {
      SelectNone(l[1..], key, v);
    }
  }

  lemma {:induction false} InsertSelect<T>(x: T, l: seq<T>, key: T -> int, v: int)
    requires SortedDesc(l, key)
    ensures Select(Insert(x, l, key), key, v) ==
      Select(l, key, v) + (if key(x) == v then [x] else [])
    decreases |l|
  {
    if l == [] || key(l[0]) < key(x) {
      if key(x) == v {
        SelectNone(l, key, v);
      }
      assert Insert(x, l, key)[1..] == l;
    } else {
      InsertSelect(x, l[1..], key, v);
      assert Insert(x, l, key)[1..] == Insert(x, l[1..], key);
    }
  }

  /** Elements with equal keys keep their original order: this is what makes
      the sort stable. */
  lemma {:induction false} SortDescStable<T>(s: seq<T>, key: T -> int, v: int)
    ensures Select(SortDesc(s, key), key, v) == Select(s, key, v)
    decreases |s|
  {
    if s != [] {
      var init := s[..|s| - 1];
      SortDescStable(init, key, v);
      SortDescSorted(init, key);
      InsertSelect(s[|s| - 1], SortDesc(init, key), key, v);
      assert s == init + [s[|s| - 1]];
      SelectAppend(init, [s[|s| - 1]], key, v);
    }
  }

  lemma {:induction false} InsertPairwise<T>(x: T, l: seq<T>, key: T -> int, R: (T, T) -> bool)
    requires Pairwise(l, R)
    requires forall i :: 0 <= i < |l| ==> R(x, l[i]) && R(l[i], x)
    ensures Pairwise(Insert(x, l, key), R)
    decreases |l|
  {
    var r := Insert(x, l, key);
    if l == [] || key(l[0]) < key(x) {
      assert r == [x] + l;
      forall i, j | 0 <= i < |r| && 0 <= j < |r| && i != j
        ensures R(r[i], r[j])
      {
        if i > 0 && j > 0 {
          assert R(l[i - 1], l[j - 1]);
        }
      }
    } else {
      var t := Insert(x, l[1..], key);
      assert r == [l[0]] + t;
      InsertPairwise(x, l[1..], key, R);
      InsertMultiset(x, l[1..], key);
      forall k | 0 <= k < |t|
        ensures R(l[0], t[k]) && R(t[k], l[0])
      {
        assert t[k] in multiset(t);
        if t[k] != x {
          assert t[k] in multiset(l[1..]);
          var m :| 0 <= m < |l[1..]| && l[1..][m] == t[k];
          assert l[m + 1] == t[k];
        }
      }
      forall i, j | 0 <= i < |r| && 0 <= j < |r| && i != j
        ensures R(r[i], r[j])
      {
        if i > 0 && j > 0 {
          assert R(t[i - 1], t[j - 1]);
        }
      }
    }
  }

  /** A relation that holds between every two distinct positions still does
      after sorting. */
  lemma {:induction false} SortDescPairwise<T>(s: seq<T>, key: T -> int, R: (T, T) -> bool)
    requires Pairwise(s, R)
    ensures Pairwise(SortDesc(s, key), R)
    decreases |s|
  {
    if s != [] {
      var init := s[..|s| - 1];
      var x := s[|s| - 1];
      assert Pairwise(init, R);
      SortDescPairwise(init, key, R);
      var m := SortDesc(init, key);
      SortDescPermutation(init, key);
      forall i | 0 <= i < |m|
        ensures R(x, m[i]) && R(m[i], x)
      {
        assert m[i] in multiset(m);
        assert m[i] in multiset(init);
        var k :| 0 <= k < |init| && init[k] == m[i];
        assert s[k] == m[i];
      }
      InsertPairwise(x, m, key, R);
    }
  }

  /** Every element of the sorted sequence is an element of the input. */
  lemma SortDescMembers<T>(s: seq<T>, key: T -> int, i: nat)
    requires i < |s|
    ensures exists k :: 0 <= k < |s| && SortDesc(s, key)[i] == s[k]
  {
    SortDescPermutation(s, key);
    assert SortDesc(s, key)[i] in multiset(s);
  }

  /** Every element of the input is in the result. */
  lemma SortDescHas<T>(s: seq<T>, key: T -> int, x: T)
    requires x in s
    ensures x in SortDesc(s, key)
  {
    SortDescPermutation(s, key);
    assert x in multiset(s);
  }

  /** An element related both ways to every element keeps the relation
      pairwise when appended. */
  lemma AppendPairwise<T>(s: seq<T>, x: T, R: (T, T) -> bool)
    requires Pairwise(s, R)
    requires forall k :: 0 <= k < |s| ==> R(x, s[k]) && R(s[k], x)
    ensures Pairwise(s + [x], R)
  {
    var r := s + [x];
    forall i, j | 0 <= i < |r| && 0 <= j < |r| && i != j
      ensures R(r[i], r[j])
    {
      if i < |s| && j < |s| {
        assert r[i] == s[i] && r[j] == s[j];
      }
    }
  }

  /** A prefix keeps a pairwise relation. */
  lemma PrefixPairwise<T>(s: seq<T>, n: nat, R: (T, T) -> bool)
    requires Pairwise(s, R) && n <= |s|
    ensures Pairwise(s[..n], R)
  {
    forall i, j | 0 <= i < n && 0 <= j < n && i != j
      ensures R(s[..n][i], s[..n][j])
    {
      assert s[..n][i] == s[i] && s[..n][j] == s[j];
    }
  }
}
