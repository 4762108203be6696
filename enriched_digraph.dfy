/** `src/network/enriched_digraph.rs`: the table of the 20 kinds of extra
    node information, the per-year tables of extra information per country,
    and the conversion of nodes carrying such a table into nodes carrying a
    vector aligned with a common header. */
module EnrichedDigraph {
  import opened Common
  import opened Graph
  import opened EnrichedColumns

  /** `POSSIBLE_NODE_INFO`. */
  const PossibleNodeInfo: seq<string> := [
    "Domestic supply quantity",
    "Export Quantity",
    "Fat supply quantity (g/capita/day)",
    "Fat supply quantity (t)",
    "Feed",
    "Food",
    "Food supply (kcal)",
    "Food supply (kcal/capita/day)",
    "Food supply quantity (kg/capita/yr)",
    "Import Quantity",
    "Losses",
    "Other uses (non-food)",
    "Processing",
    "Production",
    "Protein supply quantity (g/capita/day)",
    "Protein supply quantity (t)",
    "Residuals",
    "Seed",
    "Stock Variation",
    "Total Population - Both sexes"
  ]

  lemma {:induction false} NodeInfoNamesDistinct()
    ensures |PossibleNodeInfo| == 20
    ensures Distinct(PossibleNodeInfo)
  {
  }

  /** `NodeInfoMap::new`: the i-th name is sent to i. */
  method NewNodeInfoMap() returns (m: map<string, nat>)
    ensures forall s :: s in m <==> s in PossibleNodeInfo
    ensures forall i :: 0 <= i < |PossibleNodeInfo| ==> m[PossibleNodeInfo[i]] == i
  {
    NodeInfoNamesDistinct();
    m := map[];
    for i := 0 to |PossibleNodeInfo|
      invariant forall s :: s in m <==> s in PossibleNodeInfo[..i]
      invariant forall k :: 0 <= k < i ==> m[PossibleNodeInfo[k]] == k
    {
      assert PossibleNodeInfo[..i + 1] == PossibleNodeInfo[..i] + [PossibleNodeInfo[i]];
      m := m[PossibleNodeInfo[i] := i];
    }
  }

  /** The map of `NodeInfoMap::new` is a bijection between the names and
      `0..20`: every value is below 20 and leads back to its name. */
  lemma {:induction false} NodeInfoInverse(m: map<string, nat>)
    requires forall s :: s in m <==> s in PossibleNodeInfo
    requires forall i :: 0 <= i < |PossibleNodeInfo| ==> m[PossibleNodeInfo[i]] == i
    ensures forall s :: s in m ==> m[s] < 20 && PossibleNodeInfo[m[s]] == s
    ensures forall s, t :: s in m && t in m && m[s] == m[t] ==> s == t
  {
    forall s | s in m
      ensures m[s] < 20 && PossibleNodeInfo[m[s]] == s
    {
      var i :| 0 <= i < |PossibleNodeInfo| && PossibleNodeInfo[i] == s;
    }
  }

  /** `NodeInfoMap::get`: the `expect` stops the run on an unknown name,
      with the name as message. */
  function GetNodeInfo(m: map<string, nat>, key: string): (r: Result<nat>)
    ensures r.Ok? <==> key in m
    ensures r.Ok? ==> r.value == m[key]
    ensures r.Abort? ==> r.reason == key
  {
    if key in m then Ok(m[key]) else Abort(key)
  }

  /** On the map of `NodeInfoMap::new`, `get` finds the position of every
      listed name and stops on every other string. */
  lemma {:induction false} GetNodeInfoListed(m: map<string, nat>, key: string)
    requires forall s :: s in m <==> s in PossibleNodeInfo
    requires forall i :: 0 <= i < |PossibleNodeInfo| ==> m[PossibleNodeInfo[i]] == i
    ensures key in PossibleNodeInfo ==> GetNodeInfo(m, key).Ok? && PossibleNodeInfo[GetNodeInfo(m, key).value] == key
    ensures key !in PossibleNodeInfo ==> GetNodeInfo(m, key) == Abort(key)
  {
    NodeInfoInverse(m);
  }

  /** `ExtraInfo`: the extra information of one country in one year, by
      entry id. */
  class ExtraInfo {
    var entries: map<nat, Extra>

    constructor ()
      ensures entries == map[]
    {
      entries := map[];
    }

    /** `push`: the entry is inserted, and the `assert!` that no entry was
        there before stops the run afterwards. */
    method Push(entryId: nat, extra: Extra) returns (r: Result<()>)
      modifies this
      ensures entries == old(entries)[entryId := extra]
      ensures r.Abort? <==> entryId in old(entries)
    {
      var had := entryId in entries;
      entries := entries[entryId := extra];
      if had {
        return Abort("assertion failed: old.is_none()");
      }
      r := Ok(());
    }
  }

  /** `EnrichmentInfos`: one table per year, from country name to its extra
      information. */
  class EnrichmentInfos {
    var startingYear: nat
    var enrichments: seq<map<string, ExtraInfo>>

    /** `new`: `numEntries` empty years. */
    constructor (numEntries: nat, startingYear: nat)
      ensures this.startingYear == startingYear
      ensures |enrichments| == numEntries
      ensures forall y :: 0 <= y < numEntries ==> enrichments[y] == map[]
    {
      var e: seq<map<string, ExtraInfo>> := [];
      for k := 0 to numEntries
        invariant |e| == k && forall y :: 0 <= y < k ==> e[y] == map[]
      {
        e := e + [map[]];
      }
      this.startingYear := startingYear;
      enrichments := e;
    }

    /** `get_mut_inserting`: the country's information in that year, created
        empty when missing. The year index must be in range. No other year
        and no other country changes, and existing information is handed
        out as it is. */
    method GetMutInserting(yearIdx: nat, country: string) returns (r: Result<ExtraInfo>)
      modifies this
      ensures startingYear == old(startingYear)
      ensures yearIdx >= |old(enrichments)| ==> r.Abort? && enrichments == old(enrichments)
      ensures yearIdx < |old(enrichments)| ==>
        r.Ok? && |enrichments| == |old(enrichments)| &&
        country in enrichments[yearIdx] && r.value == enrichments[yearIdx][country] &&
        forall y :: 0 <= y < |enrichments| && y != yearIdx ==> enrichments[y] == old(enrichments)[y]
      ensures yearIdx < |old(enrichments)| && country in old(enrichments)[yearIdx] ==>
        enrichments[yearIdx] == old(enrichments)[yearIdx]
      ensures yearIdx < |old(enrichments)| && country !in old(enrichments)[yearIdx] ==>
        fresh(r.value) && r.value.entries == map[] &&
        enrichments[yearIdx] == old(enrichments)[yearIdx][country := r.value]
    {
      if yearIdx >= |enrichments| {
        return Abort("index out of bounds");
      }
      var year := enrichments[yearIdx];
      if country !in year {
        var info := new ExtraInfo();
        year := year[country := info];
        enrichments := enrichments[yearIdx := year];
      }
      r := Ok(year[country]);
    }
  }

  /** The loop over `first.extra.map.iter()`: the entry ids in ascending
      order, the way a `BTreeMap` iterates, and their units. */
  method HeaderOf(m: map<nat, Extra>) returns (header: seq<nat>, units: seq<string>)
    ensures IsHeader(m, header, units)
  {
    var rest := m.Keys;
    header := [];
    units := [];
    while rest != {}
      invariant HeaderState(m, rest, header, units)
      decreases |rest|
    {
      ghost var least := MinExists(rest);
      var x :| x in rest && forall y :: y in rest ==> x <= y;
      HeaderStep(m, rest, header, units, x);
      header := header + [x];
      units := units + [m[x].unit];
      rest := rest - {x};
    }
  }

  /** The closure of the conversion for one node: the amounts in header
      order; a table of another size, a missing entry or another unit stops
      the run. */
  method AlignNode(n: NodeHelper, header: seq<nat>, units: seq<string>) returns (r: Result<EnrichedNode>)
    requires |units| == |header|
    ensures r.Ok? <==> Aligned(n, header, units)
    ensures r.Ok? ==> NodeConverted(n, r.value, header)
  {
    if |units| != |n.extra| {
      return Abort("assertion `left == right` failed");
    }
    var extraVec: seq<real> := [];
    for k := 0 to |header|
      invariant |extraVec| == k
      invariant forall j :: 0 <= j < k ==> header[j] in n.extra && n.extra[header[j]].unit == units[j]
      invariant forall j :: 0 <= j < k ==> extraVec[j] == n.extra[header[j]].amount
    {
      if header[k] !in n.extra {
        return Abort("missing extra");
      }
      var extra := n.extra[header[k]];
      if extra.unit != units[k] {
        return Abort("assertion `left == right` failed");
      }
      extraVec := extraVec + [extra.amount];
    }
    r := Ok(EnrichedNode(n.identifier, extraVec, n.adj));
  }

  /** `From<EnrichedDigraphHelper>`: stops on an empty network, and on a node
      whose table does not have exactly the first node's ids and units. */
  method FromHelper(nodes: seq<NodeHelper>) returns (r: Result<Digraph>)
    ensures r.Abort? <==> nodes == [] || exists i :: 0 <= i < |nodes| && !SameColumns(nodes[0].extra, nodes[i].extra)
    ensures r.Ok? ==> Converted(nodes, r.value)
  {
    if nodes == [] {
      return Abort("Empty network!");
    }
    var header, units := HeaderOf(nodes[0].extra);
    var out: seq<EnrichedNode> := [];
    for i := 0 to |nodes|
      invariant |out| == i
      invariant forall j :: 0 <= j < i ==> SameColumns(nodes[0].extra, nodes[j].extra)
      invariant forall j :: 0 <= j < i ==> NodeConverted(nodes[j], out[j], header)
    {
      var node := AlignNode(nodes[i], header, units);
      AlignedIff(nodes[0].extra, nodes[i], header, units);
      if node.Abort? {
        return Abort(node.reason);
      }
      out := out + [node.value];
    }
    r := Ok(Digraph(units, header, out));
  }

  /** `get_idx`: the first position of `id` in the header. */
  function GetIdx(d: Digraph, id: nat): (r: Option<nat>)
    ensures r.None? <==> id !in d.extraHeader
    ensures r.Some? ==> r.value < |d.extraHeader| && d.extraHeader[r.value] == id && id !in d.extraHeader[..r.value]
  {
    Position(d.extraHeader, id)
  }

  /** After the conversion `get_idx` finds every entry id of the first node,
      and the column it names holds that entry's unit and every node's
      amount of that entry; other ids are not found. */
  lemma {:induction false} GetIdxColumn(nodes: seq<NodeHelper>, d: Digraph, id: nat, i: nat)
    requires Converted(nodes, d) && i < |nodes|
    ensures id !in nodes[0].extra ==> GetIdx(d, id).None?
    ensures id in nodes[0].extra ==>
      GetIdx(d, id).Some? && d.units[GetIdx(d, id).value] == nodes[0].extra[id].unit &&
      id in nodes[i].extra && d.nodes[i].extra[GetIdx(d, id).value] == nodes[i].extra[id].amount
  {
  }

  /** `start_idx` of `enrich_networks`: networks starting later than the
      enrichments are `unimplemented!`. The network at `start_idx` is of the
      enrichments' first year. */
  function StartIdx(startYearNetworks: nat, startingYear: nat): (r: Result<nat>)
    ensures r.Abort? <==> startYearNetworks > startingYear
    ensures r.Ok? ==> startYearNetworks + r.value == startingYear
  {
    if startYearNetworks > startingYear then Abort("not implemented")
    else Ok(startingYear - startYearNetworks)
  }

  /** The pairs of `networks[start_idx..].iter().zip(enrichments)`: (network
      index, enrichment index); slicing past the end stops the run. */
  function EnrichPairs(startYearNetworks: nat, numNetworks: nat, startingYear: nat, numEntries: nat): (r: Result<seq<(nat, nat)>>)
    ensures r.Ok? <==> startYearNetworks <= startingYear && startingYear - startYearNetworks <= numNetworks
    ensures r.Ok? ==>
      var s := startingYear - startYearNetworks;
      |r.value| == (if numNetworks - s < numEntries then numNetworks - s else numEntries) &&
      forall k :: 0 <= k < |r.value| ==> r.value[k] == (s + k, k)
  {
    match StartIdx(startYearNetworks, startingYear)
    case Abort(reason) => Abort(reason)
    case Ok(s) =>
      if s > numNetworks then Abort("range start index out of range")
      else
        var count := if numNetworks - s < numEntries then numNetworks - s else numEntries;
        Ok(seq(count, k requires 0 <= k < count => (s + k, k)))
  }

  /** Every enrichment year is paired with the network of the same year, and
      every network index is in range. */
  lemma {:induction false} EnrichPairsSameYear(startYearNetworks: nat, numNetworks: nat, startingYear: nat, numEntries: nat, k: nat)
    requires EnrichPairs(startYearNetworks, numNetworks, startingYear, numEntries).Ok?
    requires k < |EnrichPairs(startYearNetworks, numNetworks, startingYear, numEntries).value|
    ensures
      var p := EnrichPairs(startYearNetworks, numNetworks, startingYear, numEntries).value[k];
      startYearNetworks + p.0 == startingYear + p.1 && p.0 < numNetworks && p.1 < numEntries
  {
  }

  /** The closure of `enrich_networks` over the nodes of one network: each
      node takes its country's information of that year; a country without
      one stops the run. */
  function HelperNodes(nodes: seq<Node>, enrichment: map<string, map<nat, Extra>>): (r: Result<seq<NodeHelper>>)
    ensures r.Ok? <==> forall i :: 0 <= i < |nodes| ==> nodes[i].identifier in enrichment
    ensures r.Ok? ==> (|r.value| == |nodes| &&
      forall i :: 0 <= i < |nodes| ==>
        r.value[i] == NodeHelper(nodes[i].identifier, enrichment[nodes[i].identifier], nodes[i].adj))
  {
    if nodes == [] then Ok([])
    else
      var last := nodes[|nodes| - 1];
      match HelperNodes(nodes[..|nodes| - 1], enrichment)
      case Abort(reason) => Abort(reason)
      case Ok(init) =>
        if last.identifier !in enrichment then Abort("No extra available!")
        else Ok(init + [NodeHelper(last.identifier, enrichment[last.identifier], last.adj)])
  }
}
