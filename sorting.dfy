/** Stable sorting by an integer key, the behaviour of Rust's `sort_by_key`
    and `sort_by_cached_key`. */
module Sorting {

  predicate SortedBy<T>(s: seq<T>, key: T -> int)
  {
    forall i, j :: 0 <= i < j < |s| ==> key(s[i]) <= key(s[j])
  }

  /** The elements of `s` whose key is `k`, in their order in `s`. */
  function WithKey<T>(s: seq<T>, key: T -> int, k: int): seq<T>
  {
    if s == [] then []
    else (if key(s[0]) == k then [s[0]] else []) + WithKey(s[1..], key, k)
  }

  /** The position of the first element of `s` whose key is not smaller
      than `x`'s. */
  function InsertPos<T>(x: T, s: seq<T>, key: T -> int): (p: nat)
    ensures p <= |s|
    ensures forall i :: 0 <= i < p ==> key(s[i]) < key(x)
    ensures p < |s| ==> key(x) <= key(s[p])
  {
    if s == [] || key(x) <= key(s[0]) then 0 else 1 + InsertPos(x, s[1..], key)
  }

  /** `x` placed in front of the first element of `s` whose key is not
      smaller. */
  function Insert<T>(x: T, s: seq<T>, key: T -> int): (r: seq<T>)
    requires SortedBy(s, key)
    ensures SortedBy(r, key)
    ensures multiset(r) == multiset(s) + multiset{x}
    ensures |r| == |s| + 1
  {
    var p := InsertPos(x, s, key);
    InsertAtSorted(x, s, key, p);
    InsertAtMultiset(x, s, p);
    s[..p] + [x] + s[p..]
  }

  lemma {:induction false} InsertAtSorted<T>(x: T, s: seq<T>, key: T -> int, p: nat)
    requires SortedBy(s, key) && p <= |s|
    requires forall i :: 0 <= i < p ==> key(s[i]) < key(x)
    requires p < |s| ==> key(x) <= key(s[p])
    ensures SortedBy(s[..p] + [x] + s[p..], key)
  {
    var r := s[..p] + [x] + s[p..];
    forall i, j | 0 <= i < j < |r|
      ensures key(r[i]) <= key(r[j])
    {
      if j < p {
        assert r[i] == s[i] && r[j] == s[j];
      } else if j == p {
        assert r[i] == s[i];
      } else if i < p {
        assert r[i] == s[i] && r[j] == s[j - 1];
      } else if i == p {
        assert r[j] == s[j - 1];
      } else {
        assert r[i] == s[i - 1] && r[j] == s[j - 1];
      }
    }
  }

  lemma {:induction false} InsertAtMultiset<T>(x: T, s: seq<T>, p: nat)
    requires p <= |s|
    ensures multiset(s[..p] + [x] + s[p..]) == multiset(s) + multiset{x}
    ensures |s[..p] + [x] + s[p..]| == |s| + 1
  {
    assert s == s[..p] + s[p..];
  }

  /** Insertion sort by `key`. */
  function SortByKey<T>(s: seq<T>, key: T -> int): (r: seq<T>)
    ensures SortedBy(r, key)
    ensures multiset(r) == multiset(s)
    ensures |r| == |s|
  {
    if s == [] then []
    else
      assert s == [s[0]] + s[1..];
      Insert(s[0], SortByKey(s[1..], key), key)
  }

  lemma {:induction false} WithKeyAppend<T>(a: seq<T>, b: seq<T>, key: T -> int, k: int)
    ensures WithKey(a + b, key, k) == WithKey(a, key, k) + WithKey(b, key, k)
  {
    if a != [] {
      WithKeyAppend(a[1..], b, key, k);
      assert (a + b)[1..] == a[1..] + b;
    } else {
      assert a + b == b;
    }
  }

  lemma {:induction false} WithKeyNone<T>(a: seq<T>, key: T -> int, k: int)
    requires forall i :: 0 <= i < |a| ==> key(a[i]) != k
    ensures WithKey(a, key, k) == []
  {
    if a != [] {
      WithKeyNone(a[1..], key, k);
    }
  }

  lemma {:induction false} InsertWithKey<T>(x: T, s: seq<T>, key: T -> int, k: int)
    requires SortedBy(s, key)
    ensures WithKey(Insert(x, s, key), key, k)
         == (if key(x) == k then [x] else []) + WithKey(s, key, k)
  {
    var p := InsertPos(x, s, key);
    var a, b := s[..p], s[p..];
    var mid := WithKey([x], key, k);
    WithKeySingle(x, key, k);
    calc {
      WithKey(Insert(x, s, key), key, k);
      WithKey(a + [x] + b, key, k);
      { WithKeyAppend(a + [x], b, key, k); }
      WithKey(a + [x], key, k) + WithKey(b, key, k);
      { WithKeyAppend(a, [x], key, k); }
      WithKey(a, key, k) + mid + WithKey(b, key, k);
      { WithKeyMoved(a, b, x, key, k); }
      mid + (WithKey(a, key, k) + WithKey(b, key, k));
      { WithKeyAppend(a, b, key, k); assert s == a + b; }
      mid + WithKey(s, key, k);
    }
  }

  lemma {:induction false} EmptyCommutes<T>(u: seq<T>, v: seq<T>, w: seq<T>)
    requires u == [] || v == []
    ensures u + v + w == v + (u + w)
  {
  }

  lemma {:induction false} WithKeySingle<T>(x: T, key: T -> int, k: int)
    ensures WithKey([x], key, k) == if key(x) == k then [x] else []
  {
    assert [x][0] == x && [x][1..] == [];
  }

  /** The elements in front of the insertion point have smaller keys than
      `x`, so none of them can share its key: `x` may move to the front. */
  lemma {:induction false} WithKeyMoved<T>(a: seq<T>, b: seq<T>, x: T, key: T -> int, k: int)
    requires forall i :: 0 <= i < |a| ==> key(a[i]) < key(x)
    ensures WithKey(a, key, k) + WithKey([x], key, k) + WithKey(b, key, k)
         == WithKey([x], key, k) + (WithKey(a, key, k) + WithKey(b, key, k))
  {
    WithKeySingle(x, key, k);
    if key(x) == k {
      WithKeyNone(a, key, k);
    }
    EmptyCommutes(WithKey(a, key, k), WithKey([x], key, k), WithKey(b, key, k));
  }

  /** Stability: the elements that share a key keep their relative order. */
  lemma {:induction false} SortByKeyStable<T>(s: seq<T>, key: T -> int, k: int)
    ensures WithKey(SortByKey(s, key), key, k) == WithKey(s, key, k)
  {
    if s != [] {
      SortByKeyStable(s[1..], key, k);
      InsertWithKey(s[0], SortByKey(s[1..], key), key, k);
    }
  }
}
