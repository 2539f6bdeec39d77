/**
  A stable sort on an integer key, the behaviour ECMAScript 2019 requires of
  `Array.prototype.sort` with a comparator `(a, b) => key(a) - key(b)`.
  Stability is stated as: for every key value, the elements carrying that key
  appear in the output in the same relative order as in the input.
*/
module StableSort {
  import opened Seqs

  /** `s` is in non-decreasing order of `key`. */
  predicate SortedBy<T>(s: seq<T>, key: T -> int) {
    forall i, j :: 0 <= i < j < |s| ==> key(s[i]) <= key(s[j])
  }

  /** The elements of `s` whose key is `k`, in their order in `s`. */
  function WithKey<T(==,!new)>(s: seq<T>, key: T -> int, k: int): seq<T> {
    Filter(x => key(x) == k, s)
  }

  /** For every key value, `a` and `b` list the elements carrying it in the same order. */
  ghost predicate SameOrderPerKey<T(!new)>(a: seq<T>, b: seq<T>, key: T -> int) {
    forall k :: WithKey(a, key, k) == WithKey(b, key, k)
  }

  /** Places `x` in front of the first element whose key is not smaller than its own. */
  function Insert<T(==)>(x: T, s: seq<T>, key: T -> int): (r: seq<T>)
    requires SortedBy(s, key)
    ensures SortedBy(r, key)
    ensures multiset(r) == multiset(s) + multiset{x}
    ensures |r| == |s| + 1
    ensures key(r[0]) == key(x) || (|s| > 0 && key(r[0]) == key(s[0]))
  {
    if |s| == 0 then [x]
    else if key(x) <= key(s[0]) then
      ConsSorted(x, s, key);
      [x] + s
    else
      var rest := Insert(x, s[1..], key);
      ConsSorted(s[0], rest, key);
      assert multiset(s) == multiset{s[0]} + multiset(s[1..]) by {
        assert s == [s[0]] + s[1..];
      }
      [s[0]] + rest
  }

  /** An element no larger than the head of a sorted sequence can go in front of it. */
  lemma ConsSorted<T>(y: T, t: seq<T>, key: T -> int)
    requires SortedBy(t, key) && (|t| == 0 || key(y) <= key(t[0]))
    ensures SortedBy([y] + t, key)
  {
    var r := [y] + t;
    forall i, j | 0 <= i < j < |r|
      ensures key(r[i]) <= key(r[j])
    {
      assert r[j] == t[j - 1];
      if i > 0 {
        assert r[i] == t[i - 1];
      }
    }
  }

  /** Stable insertion sort: each element goes in front of the sorted rest. */
  function SortBy<T(==)>(s: seq<T>, key: T -> int): (r: seq<T>)
    ensures SortedBy(r, key)
    ensures multiset(r) == multiset(s)
    ensures |r| == |s|
  {
    if |s| == 0 then []
    else
      assert s == [s[0]] + s[1..];
      Insert(s[0], SortBy(s[1..], key), key)
  }

  /** The key group of `[y] + t` is `y`'s contribution followed by `t`'s group. */
  lemma WithKeyCons<T(!new)>(y: T, t: seq<T>, key: T -> int, k: int)
    ensures WithKey([y] + t, key, k) == (if key(y) == k then [y] else []) + WithKey(t, key, k)
  {
    assert ([y] + t)[1..] == t;
  }

  /** A key group holds every occurrence of the elements carrying that key, and nothing else. */
  lemma WithKeyCounts<T(!new)>(s: seq<T>, key: T -> int, k: int)
    ensures forall x :: multiset(WithKey(s, key, k))[x] == if key(x) == k then multiset(s)[x] else 0
    ensures forall x :: x in WithKey(s, key, k) <==> x in s && key(x) == k
  {
    FilterCounts(x => key(x) == k, s);
    FilterMembers(x => key(x) == k, s);
  }

  /** Inserting `x` adds it in front of the elements that share its key. */
  lemma {:induction false} InsertWithKey<T(!new)>(x: T, s: seq<T>, key: T -> int, k: int)
    requires SortedBy(s, key)
    ensures WithKey(Insert(x, s, key), key, k) == (if key(x) == k then [x] else []) + WithKey(s, key, k)
  {
    if |s| == 0 {
      WithKeyCons(x, [], key, k);
      assert [x] + [] == [x];
    } else if key(x) <= key(s[0]) {
      WithKeyCons(x, s, key, k);
    } else {
      var rest := Insert(x, s[1..], key);
      assert Insert(x, s, key) == [s[0]] + rest;
      InsertWithKey(x, s[1..], key, k);
      WithKeyCons(s[0], rest, key, k);
      WithKeyHead(s, key, k);
      SwapFront(if key(s[0]) == k then [s[0]] else [], if key(x) == k then [x] else [], WithKey(s[1..], key, k));
    }
  }

  /** The key group of a non-empty sequence: the head's contribution, then the tail's group. */
  lemma WithKeyHead<T(!new)>(s: seq<T>, key: T -> int, k: int)
    requires |s| > 0
    ensures WithKey(s, key, k) == (if key(s[0]) == k then [s[0]] else []) + WithKey(s[1..], key, k)
  {
  }

  /** Two prefixes of which one is empty can be swapped. */
  lemma SwapFront<T>(a: seq<T>, b: seq<T>, w: seq<T>)
    requires a == [] || b == []
    ensures a + (b + w) == b + (a + w)
  {
    if a == [] {
      assert a + (b + w) == b + w;
    } else {
      assert a + (b + w) == a + w;
    }
  }

  /** The sort is stable: it keeps the input order among elements with equal keys. */
  lemma {:induction false} SortByIsStable<T(!new)>(s: seq<T>, key: T -> int)
    ensures SameOrderPerKey(SortBy(s, key), s, key)
  {
    if |s| > 0 {
      SortByIsStable(s[1..], key);
      forall k
        ensures WithKey(SortBy(s, key), key, k) == WithKey(s, key, k)
      {
        InsertWithKey(s[0], SortBy(s[1..], key), key, k);
        assert s == [s[0]] + s[1..];
      }
    }
  }

  /** The first element of a non-empty sorted sequence carries its least key. */
  lemma FirstOfKeyIsHead<T(!new)>(s: seq<T>, key: T -> int)
    requires SortedBy(s, key) && |s| > 0
    ensures WithKey(s, key, key(s[0])) == [s[0]] + WithKey(s[1..], key, key(s[0]))
  {
    assert s == [s[0]] + s[1..];
  }

  /** A key value present in `s` has a non-empty group. */
  lemma KeyGroupNonEmpty<T(!new)>(s: seq<T>, key: T -> int, i: int)
    requires 0 <= i < |s|
    ensures |WithKey(s, key, key(s[i]))| > 0
  {
    WithKeyCounts(s, key, key(s[i]));
    assert s[i] in s;
  }

  /** In a sorted sequence no key group has a key below the head's. */
  lemma NoKeyBelowHead<T(!new)>(s: seq<T>, key: T -> int, k: int)
    requires SortedBy(s, key) && |s| > 0
    requires |WithKey(s, key, k)| > 0
    ensures key(s[0]) <= k
  {
    WithKeyCounts(s, key, k);
    var y := WithKey(s, key, k)[0];
    assert y in WithKey(s, key, k);
    var j :| 0 <= j < |s| && s[j] == y;
    if j > 0 {
      assert key(s[0]) <= key(s[j]);
    }
  }

  /**
    Sortedness and stability determine the output: two sequences sorted by the
    same key that agree on the order within every key group are equal.
  */
  lemma {:induction false} SortedStableIsUnique<T(!new)>(a: seq<T>, b: seq<T>, key: T -> int)
    requires SortedBy(a, key) && SortedBy(b, key)
    requires SameOrderPerKey(a, b, key)
    ensures a == b
  {
    if |a| == 0 && |b| == 0 {
    } else if |a| == 0 {
      KeyGroupNonEmpty(b, key, 0);
    } else if |b| == 0 {
      KeyGroupNonEmpty(a, key, 0);
    } else {
      var ka, kb := key(a[0]), key(b[0]);
      KeyGroupNonEmpty(a, key, 0);
      assert WithKey(a, key, ka) == WithKey(b, key, ka);
      NoKeyBelowHead(b, key, ka);
      KeyGroupNonEmpty(b, key, 0);
      assert WithKey(a, key, kb) == WithKey(b, key, kb);
      NoKeyBelowHead(a, key, kb);
      assert ka == kb;
      FirstOfKeyIsHead(a, key);
      FirstOfKeyIsHead(b, key);
      assert WithKey(a, key, ka)[0] == a[0];
      assert WithKey(b, key, kb)[0] == b[0];
      assert a[0] == b[0];
      assert a == [a[0]] + a[1..];
      assert b == [b[0]] + b[1..];
      forall k
        ensures WithKey(a[1..], key, k) == WithKey(b[1..], key, k)
      {
        assert WithKey(a, key, k) == WithKey(b, key, k);
        WithKeyCons(a[0], a[1..], key, k);
        WithKeyCons(b[0], b[1..], key, k);
        var head := if key(a[0]) == k then [a[0]] else [];
        assert head + WithKey(a[1..], key, k) == head + WithKey(b[1..], key, k);
        assert (head + WithKey(a[1..], key, k))[|head|..] == WithKey(a[1..], key, k);
        assert (head + WithKey(b[1..], key, k))[|head|..] == WithKey(b[1..], key, k);
      }
      SortedStableIsUnique(a[1..], b[1..], key);
    }
  }

  /**
    `SortBy` is the one sequence that is sorted and stable with respect to its
    input, so it agrees with every stable sort (whatever algorithm the
    JavaScript engine uses).
  */
  lemma StableSortCharacterization<T(!new)>(s: seq<T>, r: seq<T>, key: T -> int)
    ensures (SortedBy(r, key) && SameOrderPerKey(r, s, key)) <==> r == SortBy(s, key)
  {
    SortByIsStable(s, key);
    if SortedBy(r, key) && SameOrderPerKey(r, s, key) {
      SortedStableIsUnique(r, SortBy(s, key), key);
    }
  }

  /** Agreeing on every key group makes two sequences permutations of each other. */
  lemma {:induction false} SameOrderPerKeyIsPermutation<T(!new)>(a: seq<T>, b: seq<T>, key: T -> int)
    requires SameOrderPerKey(a, b, key)
    ensures multiset(a) == multiset(b)
  {
    forall x
      ensures multiset(a)[x] == multiset(b)[x]
    {
      assert WithKey(a, key, key(x)) == WithKey(b, key, key(x));
      WithKeyCounts(a, key, key(x));
      WithKeyCounts(b, key, key(x));
    }
  }
}
