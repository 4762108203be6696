/** Shared vocabulary of the model: optional values, results of operations
    that can abort, and a few facts about sequences and sets of indices. */
module Common {

  datatype Option<T> = None | Some(value: T)

  /** The outcome of an operation of the program that either produces a value
      or stops the run (a failed `unwrap`, `expect`, `assert` or an index out
      of bounds). */
  datatype Result<T> = Ok(value: T) | Abort(reason: string)

  /** All elements are pairwise different. */
  ghost predicate Distinct<T>(s: seq<T>)
  {
    forall i, j :: 0 <= i < j < |s| ==> s[i] != s[j]
  }

  /** Every element is smaller than the next one. */
  ghost predicate StrictlyIncreasing(s: seq<int>)
  {
    forall i, j :: 0 <= i < j < |s| ==> s[i] < s[j]
  }

  function SeqSum(s: seq<int>): int
  {
    if s == [] then 0 else SeqSum(s[..|s| - 1]) + s[|s| - 1]
  }

  /** The elements of a sequence. */
  ghost function Elems<T>(s: seq<T>): set<T>
  {
    set x | x in s
  }

  /** A sequence without repetitions has as many elements as its set. */
  lemma {:induction false} DistinctCard<T>(s: seq<T>)
    requires Distinct(s)
    ensures |Elems(s)| == |s|
  {
    if s != [] {
      var t := s[..|s| - 1];
      assert Distinct(t);
      DistinctCard(t);
      assert Elems(s) == Elems(t) + {s[|s| - 1]};
      assert s[|s| - 1] !in Elems(t);
    } else {
      assert Elems(s) == {};
    }
  }

  /** `iter().position`: the first position holding `x`. */
  function Position<T(==)>(s: seq<T>, x: T): (r: Option<nat>)
    ensures r.None? <==> x !in s
    ensures r.Some? ==> r.value < |s| && s[r.value] == x && x !in s[..r.value]
  {
    if s == [] then None
    else if s[0] == x then Some(0)
    else match Position(s[1..], x)
      case None => None
      case Some(p) =>
        assert s[..p + 1] == [s[0]] + s[1..][..p];
        Some(p + 1)
  }

  /** A prefix of a prefix. */
  lemma {:induction false} PrefixShorter<T>(a: seq<T>, b: seq<T>, x: T)
    requires |a| > |b| && a[..|b| + 1] == b + [x]
    ensures a[..|b|] == b
  {
    assert a[..|b|] == a[..|b| + 1][..|b|];
  }

  lemma {:induction false} SubsetCard<T>(a: set<T>, b: set<T>)
    requires a <= b
    ensures |a| <= |b|
  {
    assert b == a + (b - a);
  }

  lemma {:induction false} SeqSumAppend(s: seq<int>, t: seq<int>)
    ensures SeqSum(s + t) == SeqSum(s) + SeqSum(t)
    decreases |t|
  {
    if t == [] {
      assert s + t == s;
    } else {
      var t' := t[..|t| - 1];
      assert (s + t)[..|s + t| - 1] == s + t';
      SeqSumAppend(s, t');
    }
  }

  /** A set of numbers below `n` has at most `n` elements. */
  lemma {:induction false} BoundedSetCard(s: set<nat>, n: nat)
    requires forall x :: x in s ==> x < n
    ensures |s| <= n
  {
    if n > 0 {
      BoundedSetCard(s - {n - 1}, n - 1);
      if n - 1 in s {
        assert s == (s - {n - 1}) + {n - 1};
      } else {
        assert s == s - {n - 1};
      }
    } else {
      assert s == {};
    }
  }

  /** The smallest element of a non-empty set. */
  lemma {:induction false} MinExists(s: set<nat>) returns (x: nat)
    requires s != {}
    ensures x in s && forall y :: y in s ==> x <= y
    decreases |s|
  {
    var y :| y in s;
    if s == {y} {
      x := y;
    } else {
      var z := MinExists(s - {y});
      x := if y < z then y else z;
      forall w | w in s
        ensures x <= w
      {
        if w != y {
          assert w in s - {y};
        }
      }
    }
  }

  /** All elements of all sets. */
  function Union<T>(sets: seq<set<T>>): set<T>
  {
    if sets == [] then {} else Union(sets[..|sets| - 1]) + sets[|sets| - 1]
  }

  lemma {:induction false} UnionAppend<T>(a: seq<set<T>>, b: seq<set<T>>)
    ensures Union(a + b) == Union(a) + Union(b)
    decreases |b|
  {
    if b == [] {
      assert a + b == a;
    } else {
      assert (a + b)[..|a + b| - 1] == a + b[..|b| - 1];
      UnionAppend(a, b[..|b| - 1]);
    }
  }

  lemma {:induction false} UnionMember<T>(s: seq<set<T>>, x: T) returns (k: nat)
    requires x in Union(s)
    ensures k < |s| && x in s[k]
  {
    if x in s[|s| - 1] {
      k := |s| - 1;
    } else {
      k := UnionMember(s[..|s| - 1], x);
    }
  }

  lemma {:induction false} UnionHas<T>(s: seq<set<T>>, k: nat, x: T)
    requires k < |s| && x in s[k]
    ensures x in Union(s)
  {
    if k < |s| - 1 {
      UnionHas(s[..|s| - 1], k, x);
    }
  }

  /** Some element of a non-empty set, as a loop over a set takes them. */
  method Pick<T>(s: set<T>) returns (v: T)
    requires s != {}
    ensures v in s
  {
    v :| v in s;
  }

  /** `ok` holds of every element, stated from the end so that it follows a
      loop over the prefixes. */
  ghost predicate AllHold<T>(s: seq<T>, ok: T -> bool)
  {
    s == [] || (AllHold(s[..|s| - 1], ok) && ok(s[|s| - 1]))
  }

  lemma {:induction false} AllHoldEach<T>(s: seq<T>, ok: T -> bool)
    ensures AllHold(s, ok) <==> forall k :: 0 <= k < |s| ==> ok(s[k])
  {
    if s != [] {
      var p := s[..|s| - 1];
      AllHoldEach(p, ok);
      assert forall k :: 0 <= k < |p| ==> p[k] == s[k];
    }
  }

  /** A distinct sequence holds each value at most once. */
  lemma {:induction false} DistinctOnce<T>(s: seq<T>, x: T)
    requires Distinct(s)
    ensures multiset(s)[x] <= 1
  {
    if s != [] {
      var t := s[..|s| - 1];
      assert s == t + [s[|s| - 1]];
      assert Distinct(t);
      DistinctOnce(t, x);
      if x == s[|s| - 1] {
        assert x !in t;
      }
    }
  }

  lemma {:induction false} TwiceInMultiset<T>(s: seq<T>, a: nat, b: nat)
    requires a < b < |s| && s[a] == s[b]
    ensures multiset(s)[s[a]] >= 2
  {
    assert s == s[..b] + [s[b]] + s[b + 1..];
    assert s[a] in s[..b];
  }
}
