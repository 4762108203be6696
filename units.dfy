/** `src/units.rs`: which unit names denote the same unit. A tester holds
    classes of equivalent names and a map from each listed name to its
    class. */
module Units {
  import opened Common
  import opened Text

  /** `EquivalenceTester`. A class is kept as the ascending list of its
      names, the way a `BTreeSet` iterates. */
  datatype Tester = Tester(equivalent: seq<seq<string>>, conversionPossible: seq<seq<string>>,
                           equivMap: map<string, nat>, conversionMap: map<string, nat>)

  /** The map sends every listed name to a class that holds it, and only
      listed names are in it. */
  ghost predicate Consistent(t: Tester)
  {
    (forall x :: x in t.equivMap ==> t.equivMap[x] < |t.equivalent| && x in t.equivalent[t.equivMap[x]]) &&
    (forall i, x :: 0 <= i < |t.equivalent| && x in t.equivalent[i] ==> x in t.equivMap && t.equivMap[x] == i)
  }

  /** `is_equiv`: equal names always are; otherwise the first name must be
      listed and the second be in its class. */
  function IsEquiv(t: Tester, a: string, b: string): (r: bool)
    requires forall x :: x in t.equivMap ==> t.equivMap[x] < |t.equivalent|
    ensures a == b ==> r
    ensures a != b && a !in t.equivMap ==> !r
    ensures Consistent(t) ==> (r <==> a == b || exists i :: 0 <= i < |t.equivalent| && a in t.equivalent[i] && b in t.equivalent[i])
  {
    if a == b then true
    else if a in t.equivMap then b in t.equivalent[t.equivMap[a]]
    else false
  }

  /** Some name is in two classes. */
  ghost predicate Overlap(classes: seq<seq<string>>)
  {
    exists i, j, x :: 0 <= i < j < |classes| && x in classes[i] && x in classes[j]
  }

  /** One class of the loop in `default`: every name goes to class `i`; the
      `assert!` fails when a name already has a class. */
  method InsertClass(m: map<string, nat>, cls: seq<string>, i: nat) returns (r: Result<map<string, nat>>)
    requires StrSorted(cls)
    ensures r.Abort? <==> exists x :: x in cls && x in m
    ensures r.Ok? ==> forall x :: x in r.value <==> x in m || x in cls
    ensures r.Ok? ==> forall x :: x in r.value ==> r.value[x] == if x in cls then i else m[x]
  {
    var cur := m;
    for j := 0 to |cls|
      invariant forall x :: x in cls[..j] ==> x !in m
      invariant forall x :: x in cur <==> x in m || x in cls[..j]
      invariant forall x :: x in cur ==> cur[x] == if x in cls[..j] then i else m[x]
    {
      assert cls[..j + 1] == cls[..j] + [cls[j]];
      if cls[j] in cur {
        if cls[j] !in m {
          assert cls[j] in cls[..j];
          var k :| 0 <= k < j && cls[k] == cls[j];
          StrLessIrreflexive(cls[j]);
          assert false;
        }
        return Abort("assertion failed: r.is_none()");
      }
      cur := cur[cls[j] := i];
    }
    assert cls[..|cls|] == cls;
    r := Ok(cur);
  }

  /** The loop of `default`: the name-to-class map of the classes; it stops
      exactly when a name is listed in two classes. */
  method EquivMap(classes: seq<seq<string>>) returns (r: Result<map<string, nat>>)
    requires forall i :: 0 <= i < |classes| ==> StrSorted(classes[i])
    ensures r.Abort? <==> Overlap(classes)
    ensures r.Ok? ==> Consistent(Tester(classes, [], r.value, map[]))
  {
    var m: map<string, nat> := map[];
    for i := 0 to |classes|
      invariant MapState(classes, i, m)
    {
      var next := InsertClass(m, classes[i], i);
      if next.Abort? {
        var x :| x in classes[i] && x in m;
        assert 0 <= m[x] < i < |classes| && x in classes[m[x]] && x in classes[i];
        return Abort(next.reason);
      }
      MapStep(classes, i, m, next.value);
      m := next.value;
    }
    MapDone(classes, m);
    r := Ok(m);
  }

  /** After the first `i` classes: exactly their names are in the map, each
      at a class holding it, and no name is in two of them. */
  ghost predicate MapState(classes: seq<seq<string>>, i: nat, m: map<string, nat>)
    requires i <= |classes|
  {
    (forall x :: x in m <==> exists k :: 0 <= k < i && x in classes[k]) &&
    (forall x :: x in m ==> m[x] < i && x in classes[m[x]]) &&
    (forall k, l, x :: 0 <= k < l < i && x in classes[k] ==> x !in classes[l])
  }

  lemma {:induction false} MapStep(classes: seq<seq<string>>, i: nat, m: map<string, nat>, m': map<string, nat>)
    requires i < |classes| && MapState(classes, i, m)
    requires forall x :: x in classes[i] ==> x !in m
    requires forall x :: x in m' <==> x in m || x in classes[i]
    requires forall x :: x in m' ==> m'[x] == if x in classes[i] then i else m[x]
    ensures MapState(classes, i + 1, m')
  {
    forall x | x in m'
      ensures exists k :: 0 <= k < i + 1 && x in classes[k]
    {
      if x !in classes[i] {
        var k :| 0 <= k < i && x in classes[k];
      }
    }
  }

  lemma {:induction false} MapDone(classes: seq<seq<string>>, m: map<string, nat>)
    requires MapState(classes, |classes|, m)
    ensures !Overlap(classes)
    ensures Consistent(Tester(classes, [], m, map[]))
  {
    forall i, x | 0 <= i < |classes| && x in classes[i]
      ensures x in m && m[x] == i
    {
      assert x in m;
    }
  }

  /** `BTreeSet::from_iter` on a list of names: the ascending list of the
      distinct names. */
  function Collect(names: seq<string>): (r: seq<string>)
    ensures StrSorted(r) && Elems(r) == Elems(names)
  {
    if names == [] then [] else InsertSorted(Collect(names[..|names| - 1]), names[|names| - 1])
  }

  /** `default`: the one class of "tonnes" and "t", and no conversions. */
  method Default() returns (t: Tester)
    ensures Consistent(t)
    ensures |t.equivalent| == 1 && Elems(t.equivalent[0]) == {"tonnes", "t"}
    ensures t.conversionPossible == [] && t.conversionMap == map[]
  {
    var equivs := [["tonnes", "t"]];
    var equivalent := [Collect(equivs[0])];
    assert Elems(equivs[0]) == {"tonnes", "t"};
    var m := EquivMap(equivalent);
    if m.Abort? {
      assert false;
    }
    var equivMap := m.value;
    t := Tester(equivalent, [], equivMap, map[]);
  }

  /** Under a consistent tester `is_equiv` is an equivalence. */
  lemma {:induction false} EquivSymmetric(t: Tester, a: string, b: string)
    requires Consistent(t)
    ensures IsEquiv(t, a, b) == IsEquiv(t, b, a)
  {
  }

  lemma {:induction false} EquivTransitive(t: Tester, a: string, b: string, c: string)
    requires Consistent(t)
    requires IsEquiv(t, a, b) && IsEquiv(t, b, c)
    ensures IsEquiv(t, a, c)
  {
    if a != b && b != c {
      var i :| 0 <= i < |t.equivalent| && a in t.equivalent[i] && b in t.equivalent[i];
      var j :| 0 <= j < |t.equivalent| && b in t.equivalent[j] && c in t.equivalent[j];
      assert t.equivMap[b] == i && t.equivMap[b] == j;
    }
  }

  /** The default tester takes "tonnes" and "t" for the same unit, in both
      orders, and no other pair of different names. */
  lemma {:induction false} DefaultTonnes(t: Tester, a: string, b: string)
    requires Consistent(t)
    requires |t.equivalent| == 1 && Elems(t.equivalent[0]) == {"tonnes", "t"}
    ensures IsEquiv(t, "tonnes", "t") && IsEquiv(t, "t", "tonnes")
    ensures a != b ==> (IsEquiv(t, a, b) <==> {a, b} == {"tonnes", "t"})
  {
    assert "tonnes" in Elems(t.equivalent[0]) && "t" in Elems(t.equivalent[0]);
    if a != b && IsEquiv(t, a, b) {
      assert a in Elems(t.equivalent[0]) && b in Elems(t.equivalent[0]);
    }
    if a != b && {a, b} == {"tonnes", "t"} {
      assert a in {a, b} && b in {a, b};
      assert a in Elems(t.equivalent[0]) && b in Elems(t.equivalent[0]);
    }
  }
}
