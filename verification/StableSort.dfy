/**
 A stable ascending sort by a real key, as `sort_by` with `partial_cmp` performs on numbers,
 and sums over sequences that no reordering changes.

 Insertion from the left is the reference: an element goes after all that are not greater, so equal
 keys keep their order.
 */
module StableSort {
  import opened Common

  /** `x` goes after every element whose key is not greater. */
  function Insert<T>(s: seq<T>, x: T, key: T -> real): (r: seq<T>)
    ensures |r| == |s| + 1
  {
    if s != [] && key(s[|s| - 1]) > key(x) then Insert(s[..|s| - 1], x, key) + [s[|s| - 1]]
    else s + [x]
  }

  function Sort<T>(s: seq<T>, key: T -> real): (r: seq<T>)
    ensures |r| == |s|
  {
    if s == [] then [] else Insert(Sort(s[..|s| - 1], key), s[|s| - 1], key)
  }

  function Reverse<T>(s: seq<T>): (r: seq<T>)
    ensures |r| == |s|
    ensures forall k :: 0 <= k < |s| ==> r[k] == s[|s| - 1 - k]
  {
    if s == [] then [] else [s[|s| - 1]] + Reverse(s[..|s| - 1])
  }

  ghost predicate Ascending<T>(s: seq<T>, key: T -> real) {
    forall i, j :: 0 <= i < j < |s| ==> key(s[i]) <= key(s[j])
  }

  lemma {:induction false} InsertIsAscending<T>(s: seq<T>, x: T, key: T -> real)
    requires Ascending(s, key)
    ensures Ascending(Insert(s, x, key), key)
    ensures forall y | y in Insert(s, x, key) :: y in s || y == x
  {
    if s != [] && key(s[|s| - 1]) > key(x) {
      var r, last := Insert(s[..|s| - 1], x, key), s[|s| - 1];
      InsertIsAscending(s[..|s| - 1], x, key);
      forall i | 0 <= i < |r| ensures key(r[i]) <= key(last) {
        assert r[i] in r;
      }
    }
  }

  lemma {:induction false} InsertIsPermutation<T>(s: seq<T>, x: T, key: T -> real)
    ensures multiset(Insert(s, x, key)) == multiset(s) + multiset{x}
  {
    if s != [] && key(s[|s| - 1]) > key(x) {
      InsertIsPermutation(s[..|s| - 1], x, key);
      SplitLast(s);
    }
  }

  /** The result is ascending and a permutation of the input. */
  lemma {:induction false} SortSorts<T>(s: seq<T>, key: T -> real)
    ensures Ascending(Sort(s, key), key)
    ensures multiset(Sort(s, key)) == multiset(s)
  {
    if s != [] {
      SortSorts(s[..|s| - 1], key);
      InsertIsAscending(Sort(s[..|s| - 1], key), s[|s| - 1], key);
      InsertIsPermutation(Sort(s[..|s| - 1], key), s[|s| - 1], key);
      SplitLast(s);
    }
  }

  /** The elements with one key, in order. */
  function WithKey<T>(s: seq<T>, key: T -> real, v: real): seq<T> {
    if s == [] then []
    else WithKey(s[..|s| - 1], key, v) + if key(s[|s| - 1]) == v then [s[|s| - 1]] else []
  }

  lemma {:induction false} InsertIsStable<T>(s: seq<T>, x: T, key: T -> real, v: real)
    ensures WithKey(Insert(s, x, key), key, v) == WithKey(s + [x], key, v)
  {
    assert (s + [x])[..|s|] == s;
    if s != [] && key(s[|s| - 1]) > key(x) {
      var front, last := s[..|s| - 1], s[|s| - 1];
      InsertIsStable(front, x, key, v);
      assert (front + [x])[..|front|] == front;
      assert (Insert(front, x, key) + [last])[..|s|] == Insert(front, x, key);
    }
  }

  /** Elements with equal keys keep their order. */
  lemma {:induction false} SortIsStable<T>(s: seq<T>, key: T -> real, v: real)
    ensures WithKey(Sort(s, key), key, v) == WithKey(s, key, v)
  {
    if s != [] {
      var front, last := s[..|s| - 1], s[|s| - 1];
      SortIsStable(front, key, v);
      InsertIsStable(Sort(front, key), last, key, v);
      assert (Sort(front, key) + [last])[..|front|] == Sort(front, key);
    }
  }

  lemma {:induction false} WithKeyConcat<T>(a: seq<T>, b: seq<T>, key: T -> real, v: real)
    ensures WithKey(a + b, key, v) == WithKey(a, key, v) + WithKey(b, key, v)
  {
    if b == [] {
      assert a + b == a;
    } else {
      assert (a + b)[..|a + b| - 1] == a + b[..|b| - 1];
      WithKeyConcat(a, b[..|b| - 1], key, v);
    }
  }

  lemma {:induction false} ReverseSnoc<T>(s: seq<T>, x: T)
    ensures Reverse(s + [x]) == [x] + Reverse(s)
  {
    assert (s + [x])[..|s|] == s;
  }

  /** Reversed, they come in the reverse of their order. */
  lemma {:induction false} ReverseReversesTies<T>(s: seq<T>, key: T -> real, v: real)
    ensures WithKey(Reverse(s), key, v) == Reverse(WithKey(s, key, v))
  {
    if s != [] {
      var front, last := s[..|s| - 1], s[|s| - 1];
      ReverseReversesTies(front, key, v);
      WithKeyConcat([last], Reverse(front), key, v);
      assert WithKey([last], key, v) == if key(last) == v then [last] else [] by {
        assert [last][..0] == [];
      }
      if key(last) == v {
        ReverseSnoc(WithKey(front, key, v), last);
      }
    }
  }

  // ---------------------------------------------------------------- sums

  function SumBy<T>(s: seq<T>, f: T -> real): real {
    if s == [] then 0.0 else SumBy(s[..|s| - 1], f) + f(s[|s| - 1])
  }

  lemma {:induction false} SumConcat<T>(a: seq<T>, b: seq<T>, f: T -> real)
    ensures SumBy(a + b, f) == SumBy(a, f) + SumBy(b, f)
  {
    if b == [] {
      assert a + b == a;
    } else {
      assert (a + b)[..|a + b| - 1] == a + b[..|b| - 1];
      SumConcat(a, b[..|b| - 1], f);
    }
  }

  lemma {:induction false} InsertKeepsSum<T>(s: seq<T>, x: T, key: T -> real, f: T -> real)
    ensures SumBy(Insert(s, x, key), f) == SumBy(s, f) + f(x)
  {
    if s != [] && key(s[|s| - 1]) > key(x) {
      var front, last := s[..|s| - 1], s[|s| - 1];
      InsertKeepsSum(front, x, key, f);
      assert (Insert(front, x, key) + [last])[..|s|] == Insert(front, x, key);
    } else {
      assert (s + [x])[..|s|] == s;
    }
  }

  lemma {:induction false} SortKeepsSum<T>(s: seq<T>, key: T -> real, f: T -> real)
    ensures SumBy(Sort(s, key), f) == SumBy(s, f)
  {
    if s != [] {
      SortKeepsSum(s[..|s| - 1], key, f);
      InsertKeepsSum(Sort(s[..|s| - 1], key), s[|s| - 1], key, f);
    }
  }

  lemma {:induction false} ReverseKeepsSum<T>(s: seq<T>, f: T -> real)
    ensures SumBy(Reverse(s), f) == SumBy(s, f)
  {
    if s != [] {
      ReverseKeepsSum(s[..|s| - 1], f);
      SumConcat([s[|s| - 1]], Reverse(s[..|s| - 1]), f);
      assert SumBy([s[|s| - 1]], f) == SumBy([], f) + f(s[|s| - 1]) by {
        assert [s[|s| - 1]][..0] == [];
      }
    }
  }
}
