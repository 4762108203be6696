/** IEEE 754 double values as far as the program distinguishes them: a finite
    value (taken as an exact real), an infinity or NaN. Rounding is not
    modelled. */
module Float {

  datatype F64 = Finite(value: real) | Infinite(negative: bool) | NaN

  /** `f64::is_finite`. */
  predicate IsFinite(x: F64)
  {
    x.Finite?
  }

  /** The ordering `a < b` of IEEE 754: false whenever NaN takes part. */
  predicate Less(a: F64, b: F64)
  {
    match (a, b)
    case (NaN, _) => false
    case (_, NaN) => false
    case (Finite(x), Finite(y)) => x < y
    case (Infinite(n), Finite(_)) => n
    case (Finite(_), Infinite(n)) => !n
    case (Infinite(n), Infinite(m)) => n && !m
  }

  /** IEEE 754 equality: NaN is equal to nothing, itself included. */
  predicate Equal(a: F64, b: F64)
  {
    a != NaN && a == b
  }

  /** IEEE 754 addition, exact on finite values: NaN when NaN takes part or
      two opposite infinities meet. */
  function Add(a: F64, b: F64): F64
  {
    match (a, b)
    case (NaN, _) => NaN
    case (_, NaN) => NaN
    case (Finite(x), Finite(y)) => Finite(x + y)
    case (Infinite(n), Finite(_)) => a
    case (Finite(_), Infinite(n)) => b
    case (Infinite(n), Infinite(m)) => if n == m then a else NaN
  }

  function Neg(a: F64): F64
  {
    match a
    case Finite(x) => Finite(-x)
    case Infinite(n) => Infinite(!n)
    case NaN => NaN
  }

  function Sub(a: F64, b: F64): F64
  {
    Add(a, Neg(b))
  }

  /** Multiplication by `0.5`. */
  function Half(a: F64): F64
  {
    match a
    case Finite(x) => Finite(x / 2.0)
    case _ => a
  }

  /** `f64::abs`. */
  function Abs(a: F64): F64
  {
    match a
    case Finite(x) => Finite(if x < 0.0 then -x else x)
    case Infinite(_) => Infinite(false)
    case NaN => NaN
  }

  /** The ranks of the order below: negative infinity, the finite values,
      positive infinity, NaN. */
  function Tier(a: F64): int
  {
    match a
    case Infinite(negative) => if negative then 0 else 2
    case Finite(_) => 1
    case NaN => 3
  }

  /** The total order of `ordered_float::OrderedFloat`: the IEEE 754 order,
      with NaN above every other value and equal to itself. */
  predicate OrdLe(a: F64, b: F64)
  {
    Tier(a) < Tier(b) || (Tier(a) == Tier(b) && (a.Finite? && b.Finite? ==> a.value <= b.value))
  }

  /** Sorted by the total order of `OrderedFloat`. */
  ghost predicate OrdSorted(s: seq<F64>)
  {
    forall i, j :: 0 <= i < j < |s| ==> OrdLe(s[i], s[j])
  }

  lemma {:induction false} OrdTotal(a: F64, b: F64)
    ensures OrdLe(a, b) || OrdLe(b, a)
    ensures OrdLe(a, b) && OrdLe(b, a) ==> a == b
  {
  }

  /** A value at most every element of a sorted list can go in front. */
  lemma {:induction false} ConsSorted(h: F64, t: seq<F64>)
    requires OrdSorted(t) && forall y :: y in t ==> OrdLe(h, y)
    ensures OrdSorted([h] + t)
  {
    forall i, j | 0 <= i < j < |[h] + t|
      ensures OrdLe(([h] + t)[i], ([h] + t)[j])
    {
      if i > 0 {
        assert ([h] + t)[i] == t[i - 1] && ([h] + t)[j] == t[j - 1];
      } else {
        assert ([h] + t)[j] in t;
      }
    }
  }

  function InsertOrd(x: F64, s: seq<F64>): seq<F64>
  {
    if s == [] then [x]
    else if OrdLe(x, s[0]) then [x] + s
    else [s[0]] + InsertOrd(x, s[1..])
  }

  lemma {:induction false} InsertOrdMultiset(x: F64, s: seq<F64>)
    ensures multiset(InsertOrd(x, s)) == multiset(s) + multiset{x}
  {
    if s != [] && !OrdLe(x, s[0]) {
      InsertOrdMultiset(x, s[1..]);
      assert s == [s[0]] + s[1..];
    }
  }

  lemma {:induction false} InsertOrdSorted(x: F64, s: seq<F64>)
    requires OrdSorted(s)
    ensures OrdSorted(InsertOrd(x, s))
  {
    if s != [] {
      TailSorted(s);
      if OrdLe(x, s[0]) {
        FrontSorted(x, s);
      } else {
        OrdTotal(x, s[0]);
        var rest := InsertOrd(x, s[1..]);
        InsertOrdSorted(x, s[1..]);
        InsertOrdMultiset(x, s[1..]);
        forall y | y in rest
          ensures OrdLe(s[0], y)
        {
          assert y in multiset(rest);
          if y != x {
            assert y in multiset(s[1..]);
            HeadLeast(s, y);
          }
        }
        ConsSorted(s[0], rest);
      }
    }
  }

  lemma {:induction false} TailSorted(s: seq<F64>)
    requires OrdSorted(s) && s != []
    ensures OrdSorted(s[1..])
  {
    forall i, j | 0 <= i < j < |s| - 1
      ensures OrdLe(s[1..][i], s[1..][j])
    {
      assert s[1..][i] == s[i + 1] && s[1..][j] == s[j + 1];
    }
  }

  /** The head of a sorted list is at most each of its values. */
  lemma {:induction false} HeadLeast(s: seq<F64>, y: F64)
    requires OrdSorted(s) && s != [] && y in multiset(s)
    ensures OrdLe(s[0], y)
  {
    var k :| 0 <= k < |s| && s[k] == y;
    if k == 0 {
      OrdTotal(y, y);
    }
  }

  /** A value at most the head of a sorted list can go in front of it. */
  lemma {:induction false} FrontSorted(x: F64, s: seq<F64>)
    requires OrdSorted(s) && s != [] && OrdLe(x, s[0])
    ensures OrdSorted([x] + s)
  {
    forall y | y in s
      ensures OrdLe(x, y)
    {
      var k :| 0 <= k < |s| && s[k] == y;
      if k > 0 {
        assert OrdLe(s[0], s[k]);
      }
      OrdTrans(x, s[0], y);
    }
    ConsSorted(x, s);
  }

  lemma {:induction false} OrdTrans(a: F64, b: F64, c: F64)
    requires OrdLe(a, b) && OrdLe(b, c)
    ensures OrdLe(a, c)
  {
  }

  /** `sort_unstable_by_key(|v| OrderedFloat(*v))`, as a sorted permutation;
      `SortedUnique` shows there is only one. */
  function SortOrd(s: seq<F64>): (r: seq<F64>)
    ensures OrdSorted(r) && multiset(r) == multiset(s)
  {
    if s == [] then []
    else
      var init := SortOrd(s[..|s| - 1]);
      InsertOrdSorted(s[|s| - 1], init);
      InsertOrdMultiset(s[|s| - 1], init);
      assert s == s[..|s| - 1] + [s[|s| - 1]];
      InsertOrd(s[|s| - 1], init)
  }

  /** The order is total and antisymmetric, so two sorted arrangements of the
      same values are the same: an unstable sort has only one result. */
  lemma {:induction false} SortedUnique(a: seq<F64>, b: seq<F64>)
    requires OrdSorted(a) && OrdSorted(b) && multiset(a) == multiset(b)
    ensures a == b
    decreases |a|
  {
    assert |a| == |multiset(a)| == |b|;
    if a != [] {
      assert a[0] in multiset(a) && b[0] in multiset(b);
      HeadLeast(a, b[0]);
      HeadLeast(b, a[0]);
      OrdTotal(a[0], b[0]);
      TailSorted(a);
      TailSorted(b);
      assert a == [a[0]] + a[1..] && b == [b[0]] + b[1..];
      assert a[0] == b[0];
      assert multiset(a[1..]) == multiset(b[1..]) by {
        assert multiset(a) == multiset{a[0]} + multiset(a[1..]);
        assert multiset(b) == multiset{a[0]} + multiset(b[1..]);
        assert multiset(a[1..]) == multiset(a) - multiset{a[0]};
        assert multiset(b[1..]) == multiset(b) - multiset{a[0]};
      }
      SortedUnique(a[1..], b[1..]);
    }
  }
}
