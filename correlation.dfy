/** The bookkeeping around the correlation coefficients of
    `src/correlation_coef.rs`: which value pairs two inputs contribute, with
    or without weights, the names of the weight functions, the validation of the
    inputs' weights and the removal of countries whose values never change. */
module Correlation {
  import opened Common
  import opened Float
  import opened Text

  const UnwrapNone := "called `Option::unwrap()` on a `None` value"

  /** `order` is an iteration order of the map: each key exactly once. */
  ghost predicate Lists(order: seq<nat>, m: map<nat, F64>)
  {
    Distinct(order) && forall k :: k in m <==> k in order
  }

  /** A key both maps hold with a finite value. */
  ghost predicate Joinable(a: map<nat, F64>, b: map<nat, F64>, key: nat)
  {
    key in a && key in b && IsFinite(a[key]) && IsFinite(b[key])
  }

  /** The keys of `small`, in `order`, whose values are finite and which
      `large` holds with a finite value: the `filter_map` of both iterators. */
  function CorKeys(small: map<nat, F64>, order: seq<nat>, large: map<nat, F64>): (r: seq<nat>)
    requires forall k :: k in order ==> k in small
    ensures forall key :: key in r <==> key in order && Joinable(small, large, key)
    ensures Distinct(order) ==> Distinct(r)
  {
    if order == [] then []
    else
      var init := CorKeys(small, order[..|order| - 1], large);
      var key := order[|order| - 1];
      assert order == order[..|order| - 1] + [key];
      assert Distinct(order) ==> Distinct(order[..|order| - 1]) && key !in order[..|order| - 1];
      if !IsFinite(small[key]) then init
      else if key in large && IsFinite(large[key]) then init + [key]
      else init
  }

  /** Iteration goes over the map with fewer entries, `a` on a tie. */
  predicate SmallFirst(a: map<nat, F64>, b: map<nat, F64>)
  {
    |a| <= |b|
  }

  /** The keys behind the yielded pairs: exactly the keys both inputs hold
      with finite values, each once. */
  function PairKeys(a: map<nat, F64>, b: map<nat, F64>, aOrder: seq<nat>, bOrder: seq<nat>): (r: seq<nat>)
    requires Lists(aOrder, a) && Lists(bOrder, b)
    ensures Distinct(r)
    ensures forall key :: key in r <==> Joinable(a, b, key)
  {
    if SmallFirst(a, b) then CorKeys(a, aOrder, b) else CorKeys(b, bOrder, a)
  }

  /** A pair as it is yielded: the smaller map's value first. */
  function Oriented(a: map<nat, F64>, b: map<nat, F64>, key: nat): (F64, F64)
    requires key in a && key in b
  {
    if SmallFirst(a, b) then (a[key], b[key]) else (b[key], a[key])
  }

  /** `goods_cor_iter`: one pair per key the two inputs share with finite
      values, in the iteration order of the smaller map. */
  function GoodsCorIter(a: map<nat, F64>, b: map<nat, F64>, aOrder: seq<nat>, bOrder: seq<nat>): (r: seq<(F64, F64)>)
    requires Lists(aOrder, a) && Lists(bOrder, b)
    ensures |r| == |PairKeys(a, b, aOrder, bOrder)|
    ensures forall i :: 0 <= i < |r| ==>
      PairKeys(a, b, aOrder, bOrder)[i] in a && PairKeys(a, b, aOrder, bOrder)[i] in b &&
      r[i] == Oriented(a, b, PairKeys(a, b, aOrder, bOrder)[i])
    ensures forall i :: 0 <= i < |r| ==> IsFinite(r[i].0) && IsFinite(r[i].1)
  {
    var keys := PairKeys(a, b, aOrder, bOrder);
    assert forall i :: 0 <= i < |keys| ==> keys[i] in keys;
    seq(|keys|, i requires 0 <= i < |keys| => Oriented(a, b, keys[i]))
  }

  /** Every shared finite key gives exactly one pair. */
  lemma {:induction false} PairPerKey(a: map<nat, F64>, b: map<nat, F64>, aOrder: seq<nat>, bOrder: seq<nat>, key: nat)
    requires Lists(aOrder, a) && Lists(bOrder, b) && Joinable(a, b, key)
    ensures exists i :: 0 <= i < |PairKeys(a, b, aOrder, bOrder)| && PairKeys(a, b, aOrder, bOrder)[i] == key
    ensures forall i, j :: 0 <= i < j < |PairKeys(a, b, aOrder, bOrder)| ==>
      PairKeys(a, b, aOrder, bOrder)[i] != key || PairKeys(a, b, aOrder, bOrder)[j] != key
  {
    assert key in PairKeys(a, b, aOrder, bOrder);
  }

  /** The pairs do not depend on which input is named first, up to the
      orientation of each pair, when the inputs differ in size. */
  lemma {:induction false} GoodsCorIterSwap(a: map<nat, F64>, b: map<nat, F64>, aOrder: seq<nat>, bOrder: seq<nat>)
    requires Lists(aOrder, a) && Lists(bOrder, b) && |a| != |b|
    ensures PairKeys(a, b, aOrder, bOrder) == PairKeys(b, a, bOrder, aOrder)
    ensures forall i :: 0 <= i < |GoodsCorIter(a, b, aOrder, bOrder)| ==>
      GoodsCorIter(a, b, aOrder, bOrder)[i] == GoodsCorIter(b, a, bOrder, aOrder)[i]
  {
    assert forall key :: Joinable(a, b, key) <==> Joinable(b, a, key);
  }

  /** `ImportAndProduction`. */
  datatype Weight = Weight(imports: F64, production: F64)

  /** `ProductionImportMap`. */
  datatype WeightMap = WeightMap(weights: map<nat, Weight>, hasProductionData: bool)

  /** `CorrelationItem`: a value with the weight of its country. */
  datatype Item = Item(val: F64, weight: Weight)

  /** The weighted pairs over the chosen side: `unwrap` fails on the first
      yielded key that a weight map lacks. */
  function WeightedJoin(small: map<nat, F64>, order: seq<nat>, ws: WeightMap, large: map<nat, F64>, wl: WeightMap): (r: Result<seq<(Item, Item)>>)
    requires forall k :: k in order ==> k in small
    ensures r.Abort? <==> exists key :: key in CorKeys(small, order, large) && (key !in ws.weights || key !in wl.weights)
    ensures r.Ok? ==> |r.value| == |CorKeys(small, order, large)|
    ensures r.Ok? ==> forall i :: 0 <= i < |r.value| ==>
      var key := CorKeys(small, order, large)[i];
      key in small && key in large && key in ws.weights && key in wl.weights &&
      r.value[i] == (Item(small[key], ws.weights[key]), Item(large[key], wl.weights[key]))
  {
    var keys := CorKeys(small, order, large);
    if exists key :: key in keys && (key !in ws.weights || key !in wl.weights) then
      Abort(UnwrapNone)
    else
      assert forall i :: 0 <= i < |keys| ==> keys[i] in keys;
      Ok(seq(|keys|, i requires 0 <= i < |keys| =>
        (Item(small[keys[i]], ws.weights[keys[i]]), Item(large[keys[i]], wl.weights[keys[i]]))))
  }

  /** `weighted_goods_cor_iter`: each side keeps the weights of its input. */
  function WeightedGoodsCorIter(a: map<nat, F64>, b: map<nat, F64>, wa: WeightMap, wb: WeightMap, aOrder: seq<nat>, bOrder: seq<nat>): Result<seq<(Item, Item)>>
    requires Lists(aOrder, a) && Lists(bOrder, b)
  {
    if SmallFirst(a, b) then WeightedJoin(a, aOrder, wa, b, wb) else WeightedJoin(b, bOrder, wb, a, wa)
  }

  /** The weighted iterator fails exactly when a weight map lacks a shared
      finite key; otherwise it yields the unweighted pairs, each value with
      the weight its own input gives its key. */
  lemma {:induction false} WeightedSameKeys(a: map<nat, F64>, b: map<nat, F64>, wa: WeightMap, wb: WeightMap, aOrder: seq<nat>, bOrder: seq<nat>)
    requires Lists(aOrder, a) && Lists(bOrder, b)
    ensures WeightedGoodsCorIter(a, b, wa, wb, aOrder, bOrder).Abort? <==>
      exists key :: Joinable(a, b, key) && (key !in wa.weights || key !in wb.weights)
    ensures WeightedGoodsCorIter(a, b, wa, wb, aOrder, bOrder).Ok? ==>
      var r := WeightedGoodsCorIter(a, b, wa, wb, aOrder, bOrder).value;
      var u := GoodsCorIter(a, b, aOrder, bOrder);
      |r| == |u| && forall i :: 0 <= i < |r| ==> (r[i].0.val, r[i].1.val) == u[i]
    ensures WeightedGoodsCorIter(a, b, wa, wb, aOrder, bOrder).Ok? ==>
      var r := WeightedGoodsCorIter(a, b, wa, wb, aOrder, bOrder).value;
      var keys := PairKeys(a, b, aOrder, bOrder);
      |r| == |keys| && forall i :: 0 <= i < |r| ==> (
        keys[i] in wa.weights && keys[i] in wb.weights &&
        (SmallFirst(a, b) ==> r[i].0.weight == wa.weights[keys[i]] && r[i].1.weight == wb.weights[keys[i]]) &&
        (!SmallFirst(a, b) ==> r[i].0.weight == wb.weights[keys[i]] && r[i].1.weight == wa.weights[keys[i]]))
  {
    var keys := PairKeys(a, b, aOrder, bOrder);
    assert forall key :: Joinable(a, b, key) <==> Joinable(b, a, key);
  }

  /** `WeightFun`: how the weights of two countries combine. */
  datatype WeightFun = NoWeight | Product | Min | Max | OnlyImportProduct | OnlyImportMin | OnlyImportMax

  /** `WeightFun::stub`: the name used in output file names. */
  function Stub(w: WeightFun): (r: string)
    ensures |r| >= 3
  {
    match w
    case NoWeight => "NoWeight"
    case Product => "Product"
    case Max => "Max"
    case Min => "Min"
    case OnlyImportProduct => "OnlyImportProduct"
    case OnlyImportMax => "OnlyImportMax"
    case OnlyImportMin => "OnlyImportMin"
  }

  /** Different weight functions write to different files. */
  lemma {:induction false} StubInjective(v: WeightFun, w: WeightFun)
    requires Stub(v) == Stub(w)
    ensures v == w
  {
  }

  /** `CorrelationInput`, as far as the validation of the inputs reads it. */
  datatype Input = Input(path: string, plotName: string, weightPath: Option<string>)

  predicate HasWeights(i: Input)
  {
    i.weightPath.Some?
  }

  /** The checks at the start of `correlations`: there is an input, and
      either every input has weights or none has; the result says which. */
  function CheckInputs(inputs: seq<Input>): (r: Result<bool>)
    ensures r.Abort? <==> (inputs == [] ||
      ((exists k :: 0 <= k < |inputs| && HasWeights(inputs[k])) && (exists k :: 0 <= k < |inputs| && !HasWeights(inputs[k]))))
    ensures r.Ok? && r.value ==> forall k :: 0 <= k < |inputs| ==> HasWeights(inputs[k])
    ensures r.Ok? && !r.value ==> forall k :: 0 <= k < |inputs| ==> !HasWeights(inputs[k])
  {
    if inputs == [] then
      Abort("assertion failed: !inputs.inputs.is_empty()")
    else
      var hasWeights := exists k :: 0 <= k < |inputs| && HasWeights(inputs[k]);
      if hasWeights && !(forall k :: 0 <= k < |inputs| ==> HasWeights(inputs[k])) then
        Abort("Some, but not all inputs have associated weights. Abbort!")
      else
        Ok(hasWeights)
  }

  /** The finite values the inputs give `country`, in input order: what
      `filter_map(get).filter(is_finite)` yields. */
  function FiniteVals(infos: seq<map<nat, F64>>, country: nat): (r: seq<F64>)
    ensures forall v :: v in r ==> IsFinite(v)
    ensures |r| <= |infos|
  {
    if infos == [] then []
    else
      var init := FiniteVals(infos[..|infos| - 1], country);
      var m := infos[|infos| - 1];
      if country in m && IsFinite(m[country]) then init + [m[country]] else init
  }

  /** `tuple_windows().any(|(a, b)| a.ne(b))`: two neighbouring values differ. */
  predicate Varies(vals: seq<F64>)
  {
    exists k :: 0 <= k < |vals| - 1 && !Equal(vals[k], vals[k + 1])
  }

  /** For finite values a change between neighbours is the same as any two
      values differing: the filter keeps the countries whose value is not
      constant across the inputs. */
  lemma {:induction false} VariesIff(vals: seq<F64>)
    requires forall v :: v in vals ==> IsFinite(v)
    ensures Varies(vals) <==> exists i, j :: 0 <= i < j < |vals| && vals[i] != vals[j]
  {
    if exists i, j :: 0 <= i < j < |vals| && vals[i] != vals[j] {
      var i, j :| 0 <= i < j < |vals| && vals[i] != vals[j];
      if !Varies(vals) {
        Constant(vals, i, j);
      }
    }
    if Varies(vals) {
      var k :| 0 <= k < |vals| - 1 && !Equal(vals[k], vals[k + 1]);
      assert vals[k] in vals;
    }
  }

  lemma {:induction false} Constant(vals: seq<F64>, i: nat, j: nat)
    requires forall v :: v in vals ==> IsFinite(v)
    requires !Varies(vals) && i <= j < |vals|
    ensures vals[i] == vals[j]
    decreases j - i
  {
    if i < j {
      Constant(vals, i + 1, j);
      assert vals[i] in vals;
      assert Equal(vals[i], vals[i + 1]);
    }
  }

  /** The countries the filter keeps, in their order. */
  ghost function Kept(countries: seq<nat>, infos: seq<map<nat, F64>>): (r: seq<nat>)
    ensures forall c :: c in r <==> c in countries && Varies(FiniteVals(infos, c))
  {
    if countries == [] then []
    else
      var init := Kept(countries[..|countries| - 1], infos);
      var c := countries[|countries| - 1];
      assert countries == countries[..|countries| - 1] + [c];
      if Varies(FiniteVals(infos, c)) then init + [c] else init
  }

  /** `tuple_windows().any(|(a, b)| a.ne(b))` over the values of one
      country. */
  method AnyChange(vals: seq<F64>) returns (any: bool)
    ensures any == Varies(vals)
  {
    any := false;
    var w := 0;
    while w + 1 < |vals|
      invariant w == 0 || w < |vals|
      invariant any <==> exists p :: 0 <= p < w && !Equal(vals[p], vals[p + 1])
      decreases |vals| - w
    {
      if !Equal(vals[w], vals[w + 1]) {
        any := true;
      }
      w := w + 1;
    }
  }

  lemma {:induction false} KeptStep(countries: seq<nat>, infos: seq<map<nat, F64>>, k: nat)
    requires k < |countries|
    ensures Kept(countries[..k + 1], infos) ==
      Kept(countries[..k], infos) + (if Varies(FiniteVals(infos, countries[k])) then [countries[k]] else [])
  {
    assert countries[..k + 1][..k] == countries[..k];
  }

  /** A country the filter removes while the name map, which is given,
      lacks its name. */
  ghost predicate Unnamed(infos: seq<map<nat, F64>>, names: Option<map<string, string>>, c: nat)
  {
    names.Some? && !Varies(FiniteVals(infos, c)) && NatToString(c) !in names.value
  }

  /** One country of the `retain`: kept when its values vary, looked up in
      the name map otherwise. */
  method RetainOne(countries: seq<nat>, infos: seq<map<nat, F64>>, names: Option<map<string, string>>,
                   k: nat, kept: seq<nat>) returns (r: Result<seq<nat>>)
    requires k < |countries| && kept == Kept(countries[..k], infos)
    ensures r.Abort? <==> Unnamed(infos, names, countries[k])
    ensures r.Ok? ==> r.value == Kept(countries[..k + 1], infos)
  {
    var c := countries[k];
    var any := AnyChange(FiniteVals(infos, c));
    if names.Some? && !any && NatToString(c) !in names.value {
      return Abort(UnwrapNone);
    }
    KeptStep(countries, infos, k);
    if any {
      return Ok(kept + [c]);
    }
    return Ok(kept);
  }

  /** The set of countries after the `retain`; a removed country is looked
      up in the name map when one is given, and `unwrap` fails when its name
      is missing. */
  method RetainVarying(countries: seq<nat>, infos: seq<map<nat, F64>>, names: Option<map<string, string>>) returns (r: Result<seq<nat>>)
    ensures r.Abort? <==> exists k :: 0 <= k < |countries| && Unnamed(infos, names, countries[k])
    ensures r.Ok? ==> r.value == Kept(countries, infos)
  {
    var kept := [];
    for k := 0 to |countries|
      invariant kept == Kept(countries[..k], infos)
      invariant forall j :: 0 <= j < k ==> !Unnamed(infos, names, countries[j])
    {
      var s := RetainOne(countries, infos, names, k, kept);
      if s.Abort? {
        return Abort(s.reason);
      }
      kept := s.value;
    }
    assert countries[..|countries|] == countries;
    r := Ok(kept);
  }
}
