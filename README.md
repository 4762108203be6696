# Trade-network toolbox: a verified model of its core

This project models the algorithmic core of a Rust toolbox for international
trade networks in Dafny. A trade network holds one year of data. Each node is
a country with its list of outgoing edges. Each edge names a target node and
a trade amount, and it points from exporter to importer or the other way
round. Around these networks the toolbox parses trade tables, and it computes:

- inversions, sub-networks, reachability, diameters, strongly connected
  components and net trade;
- set files of affected countries: read, compared and counted;
- re-sorted, filtered and partitioned line files;
- Spearman rank maps and the pairing of value maps before a correlation;
- the bookkeeping of shock jobs;
- enrichment tables attached to nodes;
- queue chunking, unit equivalence and the file matching of the match maker.

The model has one Dafny module per component of the source:

- `HelperStructs`, `Graph`, `PlainNetwork`, `DirectedNetwork`,
  `Reachability`, `Distance`, `Bfs`, `Scc` and `SccState` cover the network
  types.
- `Parser` and `NetworkParser` cover the text parser.
- `CmpTwo` and `CmpTh` cover the group comparisons.
- `IntegralParts`, `IntegralSort`, `IntegralRun`, `OtherFilters`, `Ranks` and
  `Correlation` cover the ordering, filtering and ranking utilities.
- `FlowIds` and `FlowHelper` cover the shock jobs.
- `EnrichedColumns` and `EnrichedDigraph` cover the enrichment.
- `MatchParts`, `MatchMaker`, `ThreeSets`, `ThreeSetExec` and `Execs` cover
  the executables' logic.
- `WorkQueue`, `Units` and `Misc` cover the small utilities.
- `Common`, `Text`, `Float` and `Sorting` are shared vocabulary: `Option`
  and `Result`, splitting and integer parsing the way Rust's `str` does,
  `f64` as a finite real, an infinity or NaN, and sorting by a key.

A run that ends early is modelled as an `Abort` result. This covers a panic
of the program (a failed `unwrap`, `expect`, `assert!` or an index out of
bounds). It also covers the errors `network_parser` returns, `Unit error` and
`Line error`, which end the run. Most operations state the abort condition
as an if-and-only-if; the few that state only one direction say so in their
rows. Code that changes state in place is modelled
imperatively:

- `SyncQueue`, `CalcShockMultiJob`, `ExtraInfo` and `EnrichmentInfos` are
  classes.
- The loops of the source are `while` and `for` loops with invariants.
- The rank map writes into an `array`.

Each method is proved against a specification function, and the
properties of that function are lemmas.

Where the code and its documentation differ, the model follows the code:

- The rank map's counter starts at -1 with a previous value of negative
  infinity. A negative infinity therefore keeps rank -1 and clears
  `always_unique`. The model does the same (`Ranks.Rank`,
  `Ranks.RepeatIff`).
- `cmp_th.rs` spells the header marker as the mojibake of `§`. The model
  uses `§`.

## Model

| member | source | states |
|---|---|---|
| HelperStructs.IsNotVisited | src/network/helper_structs.rs:11-14 | true exactly for a node not yet visited, false exactly for one that carries a number |
| HelperStructs.GetNum | src/network/helper_structs.rs:17-23 | defined only on a visited node (the `unreachable!` branch is excluded by the precondition) and returns the number it carries |
| HelperStructs.Min | src/network/helper_structs.rs:25-28 | of two visited numbers returns a visited one that is one of the two and at most both |
| HelperStructs.MinCommutes | src/network/helper_structs.rs:25-28 | `min` is commutative |
| HelperStructs.IncludesSelf | src/network/helper_structs.rs:38-42 | true exactly for `IncludingSelf`, false exactly for `ExcludingSelf` |
| Misc.Label | src/misc.rs:77 | the `u16` label of item k is k+1 while that fits and always stays below 65536 |
| Misc.TokenList | src/misc.rs:77-79 | one token per item, token k being ` {s}_{k+1}` for item k |
| Misc.WriteSliceHead | src/misc.rs:71-81 | the written text is `#`, the item tokens in order, then a newline |
| Graph.EdgeCount | src/network/directed_network.rs:236-239 | `edge_count`: every node's adjacency length is counted in it, and it is zero exactly when no node has an edge |
| Graph.NodesWithNonEmptyAdj | src/network/directed_network.rs:231-234 | at most the node count; zero exactly when no node has an edge; the node count exactly when every node has one |
| Graph.NonEmptyAtMostEdges | src/network/directed_network.rs:231-239 | the number of nodes with edges is at most the edge count, and one is zero exactly when the other is |
| Graph.EdgeCountUpdate | src/network/directed_network.rs:236-239 | replacing one node changes the edge count by the difference of the adjacency lengths |
| Graph.PushTurned | src/network/directed_network.rs:189-196 | the inner loop of `invert` appends the turned edges of node `idx` and adds its adjacency length to the edge count |
| Graph.InvertNodes | src/network/directed_network.rs:174-203 | the result is the inverted network and has the same edge count |
| Graph.InvertedEdge | src/network/directed_network.rs:187-197 | the inverted network has edge j→i of amount a exactly when the network has edge i→j of amount a |
| Graph.InvertedValid | src/network/directed_network.rs:187-197 | every edge of the inverted network leads to one of its nodes |
| Graph.InvertTwiceSameEdges | src/network/directed_network.rs:174-203 | inverting twice keeps every identifier and gives each node back exactly the edges it had |
| Graph.NormalizeNodes | src/network/directed_network.rs:205-223 | the loop computes the normalized node list |
| Graph.AmountSumScaled | src/network/directed_network.rs:212-218 | dividing every amount by s divides their sum by s |
| Graph.NormalizedSumsToOne | src/network/directed_network.rs:205-223 | after `normalize` the amounts of a node with edges and a non-zero sum add up to one |
| Graph.NormalizedShape | src/network/directed_network.rs:205-223 | `normalize` keeps identifiers, adjacency lengths and edge targets |
| Graph.NormalizeIdempotent | src/network/directed_network.rs:205-223 | normalizing a normalized network changes nothing |
| PlainNetwork.NodesWithNeighbors | src/network.rs:85-88 | at most the node count and the edge count; zero exactly when no node has an edge, exactly when the edge count is zero |
| PlainNetwork.Invert | src/network.rs:33-58 | the inverted network; node count, identifiers and edge count stay and every edge leads to a node |
| PlainNetwork.Normalize | src/network.rs:60-78 | the normalized network, whose properties the `Graph.Normalized*` lemmas state |
| DirectedNetwork.InvertDirection | src/network/directed_network.rs:23-28 | the other direction, never the input |
| DirectedNetwork.InvertDirectionInvolution | src/network/directed_network.rs:23-28 | inverting the direction twice gives it back |
| DirectedNetwork.Invert | src/network/directed_network.rs:174-203 | every edge turned round, the direction inverted, the year kept; node count and edge count stay |
| DirectedNetwork.ForceDirection | src/network/directed_network.rs:73-78 | the result has the wanted direction and year; it is the network itself when the direction already matched and its inversion otherwise; the edge count stays |
| DirectedNetwork.ListOfTradingNodes | src/network/directed_network.rs:134-165 | strictly increasing indices, containing exactly the nodes with an outgoing edge or an incoming one |
| DirectedNetwork.MarkTrading | src/network/directed_network.rs:136-154 | the `connected` flags are set exactly for the trading nodes |
| DirectedNetwork.IndexMap | src/network/directed_network.rs:381-386 | `new_map` maps every kept identifier to a position below the number of indices seen |
| DirectedNetwork.FilteredValid | src/network/directed_network.rs:378-408 | every edge of the sub-network leads to one of its nodes |
| DirectedNetwork.AppendRemapped | src/network/directed_network.rs:391-399 | the inner loop appends exactly the remapped edges whose target is kept |
| DirectedNetwork.FilteredNetwork | src/network/directed_network.rs:378-408 | stops exactly when an index is past the last node; otherwise one node per index with that node's identifier, in the order of `indices`, direction and year kept, every edge leading to a node, and the edges those of the reference sub-network |
| DirectedNetwork.BlankNodes | src/network/directed_network.rs:380-386 | the first loop builds the edgeless nodes and `new_map` |
| DirectedNetwork.IndexMapPositions | src/network/directed_network.rs:381-386 | with unique identifiers and distinct indices, `new_map` sends the identifier of `indices[p]` to p, and to nothing else |
| DirectedNetwork.FilteredEdge | src/network/directed_network.rs:388-401 | the sub-network has an edge p→q of amount a exactly when the network has one from `indices[p]` to `indices[q]` |
| DirectedNetwork.EffectiveTradeOnly | src/network/directed_network.rs:80-116 | the netted network; node count, identifiers, direction and year are kept |
| DirectedNetwork.BuildEdgeMap | src/network/directed_network.rs:88-93 | the loops build the map keyed by (from, to) |
| DirectedNetwork.NetRow | src/network/directed_network.rs:95-110 | the netted edges of one node, by increasing target |
| DirectedNetwork.EdgeMapMember | src/network/directed_network.rs:88-93 | the map holds (f, t) exactly when there is an edge f→t, with the amount of the last such edge |
| DirectedNetwork.EffectiveEdge | src/network/directed_network.rs:95-110 | the effective network has an edge f→t of amount c exactly when f→t exists with last amount a and either there is no t→f and c = a, or t→f has last amount b < a and c = a − b |
| DirectedNetwork.EffectiveOneWay | src/network/directed_network.rs:104-108 | a one-way edge is copied unchanged |
| DirectedNetwork.EffectiveTwoWay | src/network/directed_network.rs:97-103 | of two opposite edges only the larger survives, carrying the difference; with equal amounts both vanish |
| DirectedNetwork.EffectiveOneDirection | src/network/directed_network.rs:95-110 | the effective network never has two opposite edges |
| Reachability.ReachTrans | src/network/directed_network.rs:423-431 | reachability is transitive |
| Reachability.ClosedContainsReach | src/network/directed_network.rs:423-431 | a node set holding `start` and closed under edges holds everything reachable from `start` |
| Reachability.ComponentSizeOfSet | src/network/directed_network.rs:411-433 | a duplicate-free listing of the reachable nodes, with `start` as the choice says, has the size of the out-component |
| Reachability.OutComponent | src/network/directed_network.rs:411-433 | no duplicates; `start` is listed exactly when the choice includes it; every listed node is reachable; every reachable node other than `start` is listed |
| Reachability.VisitEdges | src/network/directed_network.rs:424-430 | the inner loop keeps the search state and sees every successor of the popped node |
| Reachability.VisitStep | src/network/directed_network.rs:425-429 | marking, listing and pushing a newly found reachable node keeps the search state |
| Reachability.ComponentMonotone | src/network/directed_network.rs:439-450 | a node reachable from j has an out-component no larger than j's, which is why skipping checked nodes loses nothing |
| Reachability.LargestOutComponent | src/network/directed_network.rs:435-453 | the result is at least every node's out-component size, is the size of some node's out-component, and is 0 for an empty network |
| Distance.WithinZero | src/network/directed_network.rs:349-351 | the start node is the only node within zero steps, which is why the search begins with it alone |
| Distance.WithinMore | src/network/directed_network.rs:352-367 | a node within k steps is within any larger number of steps |
| Distance.WithinReach | src/network/directed_network.rs:352-367 | a node within some number of steps is reachable |
| Distance.ReachWithin | src/network/directed_network.rs:352-367 | a reachable node is within some number of steps |
| Distance.WithinSucc | src/network/directed_network.rs:355-360 | following one more edge from a node within k steps reaches a node within k+1 steps |
| Distance.WithinLast | src/network/directed_network.rs:353-361 | a node within k+1 steps is within k steps or follows by one edge a node within k steps |
| Distance.WithinInRange | src/network/directed_network.rs:355-357 | a path from a node of the network stays in the network (so `processed[edge.index]` is in range) |
| Distance.WithinLess | src/network/directed_network.rs:352-367 | a node within k steps but not within e steps shows that e is below k |
| Distance.EccentricityUnique | src/network/directed_network.rs:351-366 | two numbers that are both the eccentricity of a node are equal, so the level count is determined |
| Distance.MarkStep | src/network/directed_network.rs:356-359 | marking an unmarked successor of a current node and pushing it on the next queue keeps the level's state |
| Distance.LayerStart | src/network/directed_network.rs:349-351 | the first level is the start node alone, holding exactly the nodes within zero steps |
| Distance.LayerStep | src/network/directed_network.rs:353-366 | after a level is expanded, the marked nodes are exactly those within one more step and the next queue exactly those one step farther |
| Distance.Settled | src/network/directed_network.rs:362-364 | once a level adds no node, no later level would add one |
| Distance.LayerDone | src/network/directed_network.rs:362-364 | when the next queue comes out empty, the level count is the eccentricity of the start node |
| Distance.DiameterStep | src/network/directed_network.rs:368 | `diameter.max(level)` over one more start node that reaches every node is the largest eccentricity so far |
| Distance.DiameterUnique | src/network/directed_network.rs:341-376 | two numbers that are both the diameter of a network are equal, so the returned value is determined |
| Bfs.VisitEdge | src/network/directed_network.rs:356-359 | one edge of the popped node: an unmarked target is marked and pushed onto the next queue, nothing changes otherwise |
| Bfs.VisitNeighbours | src/network/directed_network.rs:354-360 | the popped node's edges are followed in turn; afterwards all its successors are marked and the level's state is kept |
| Bfs.ExpandLevel | src/network/directed_network.rs:353-361 | one level pops the queue and marks and pushes every unmarked successor: the marked nodes stay reachable and grow by exactly the next queue, whose nodes are the newly marked successors of the current queue |
| Bfs.BreadthFirstLevels | src/network/directed_network.rs:348-367 | the search from i marks exactly the nodes reachable from i, and the number of levels is the eccentricity of i: every reachable node is within that many steps, and some node is not within one step fewer; it is below the number reached |
| Bfs.Diameter | src/network/directed_network.rs:341-376 | None exactly when some node cannot reach some other node; otherwise the diameter: every node is within that many steps of every node, and, when it is not 0, some node is not within one step fewer of some start node; the value is 0 or below the node count |
| Scc.PopComponent | src/network/directed_network.rs:507-516 | popping a root's component leaves the stack below the root and takes a non-empty component; together they hold exactly the old stack |
| Scc.Enter | src/network/directed_network.rs:475-479 | `id` gets the next number as number and as low link and is pushed; every numbered node stays accounted for |
| Scc.Rec | src/network/directed_network.rs:466-518 | `rec` keeps its contract: numbered nodes keep their numbers, the stack grows only by nodes numbered during the call, and every numbered node is on the stack or in exactly one component |
| Scc.VisitEdge | src/network/directed_network.rs:481-501 | one edge: recursion into an unnumbered target, a lowered link for an earlier target still on the stack, nothing otherwise; the edge loop's state is kept |
| Scc.CloseIfRoot | src/network/directed_network.rs:504-517 | a root pops its component and the stack is back as the call found it; otherwise the stack stays |
| Scc.SccRecursive | src/network/directed_network.rs:455-543 | every component is non-empty and every node index occurs exactly once in all components together, so their lengths add up to the node count (the closing `assert_eq!`) |
| SccState.AccountedClose | src/network/directed_network.rs:507-516 | popping a component off the stack keeps every numbered node on the stack or in exactly one component |
| SccState.OnceEachCard | src/network/directed_network.rs:536-539 | a multiset holding every node index once has as many elements as there are nodes |
| Parser.Fields | src/parser.rs:19-37 | `line_to_vec` always holds at least one field, the last being the buffer left at the end of the line |
| Parser.ScanInside | src/parser.rs:25-26 | after any prefix the splitter is inside quotes exactly when the prefix holds an odd number of quotes |
| Parser.ScanFacts | src/parser.rs:24-34 | after any prefix there is one finished field per separating comma, no field or buffer holds a quote, and together they are the prefix without quotes and separators |
| Parser.ScanPlain | src/parser.rs:27-33 | without quotes the fields hold no comma and join with commas back to the line |
| Parser.FieldsShape | src/parser.rs:24-36 | one more field than commas outside quotes; no field holds a `"`; the fields concatenated are the line without quotes and separating commas, so a quoted comma stays in its field |
| Parser.FieldsOfPlainLine | src/parser.rs:27-33 | on a line without quotes the fields are exactly the line split at every comma |
| Parser.LineToVec | src/parser.rs:19-37 | the character loop yields the fields, at least one, one more than the separating commas |
| Parser.MapStep | src/parser.rs:334-340 | one more line keeps the map invariant: every line so far had a third piece, the keys are the codes seen, and each key holds the name of its last line |
| Parser.CountryMap | src/parser.rs:324-344 | fails exactly when a line after the header has fewer than three comma pieces (the `nth(1).unwrap()` panic); otherwise the keys are exactly the codes of the lines after the header, and a code's value is the third piece of its last line |
| NetworkParser.YearOf | src/parser.rs:173-177 | a header entry is a year column exactly when it is `Y` followed by text that parses as an `i32`, and the year is that value |
| NetworkParser.ReadHeader | src/parser.rs:169-179 | the year columns in column order, each with its year, and no year column missed; every entry mapped to the column where it last occurs |
| NetworkParser.HeaderColumns | src/parser.rs:180-188 | succeeds exactly when the five named columns are in the header, and then returns their positions |
| NetworkParser.FirstPass | src/parser.rs:211-233 | the first loop, returning early on the first error, computes the first-pass result |
| NetworkParser.UnitsAgreeTake | src/parser.rs:216-223 | the first selected row fixes the unit that every later selected row must carry |
| NetworkParser.PassFromOk | src/parser.rs:197-233 | the first pass succeeds exactly when every row has the cells the filters read, every selected row has the header's length and its unit and country cells, and all selected rows share the first unit seen |
| NetworkParser.PassFromResult | src/parser.rs:229-233 | the collected codes are exactly the reporter and partner codes of the selected rows, and the unit is that of every selected row |
| NetworkParser.NodesOf | src/parser.rs:236-240 | one edgeless node per code, in the order of the codes |
| NetworkParser.IdMap | src/parser.rs:242-251 | the id map holds exactly the codes, each mapped to its last position in the node list |
| NetworkParser.IdsFollowOrder | src/parser.rs:236-251 | node ids follow the sorted, deduplicated country codes: the id of a code is its position, and a smaller code has a smaller id |
| NetworkParser.YearNetworks | src/parser.rs:255-268 | one network per year column with the same nodes, direction and year; fails exactly when there is a year but no unit was seen (`glob_unit.as_ref().unwrap()`) |
| NetworkParser.EdgeOf | src/parser.rs:301-311 | an edge exactly for a non-empty cell whose amount parses and is strictly above zero, leading to the partner with that amount; a non-empty cell that does not parse stops the run |
| NetworkParser.WithEdge | src/parser.rs:305-310 | only the reporter's adjacency changes, by the one new edge at its end |
| NetworkParser.AddLineEdges | src/parser.rs:296-316 | for every year the row's edge, if any, is added to the reporter; fails exactly when some year's cell fails |
| NetworkParser.SecondPass | src/parser.rs:274-318 | fails exactly when some row cannot be placed; otherwise every node of every year gains exactly the edges of the selected rows with a positive amount, in row order, and nothing else changes |
| NetworkParser.PlaceRow | src/parser.rs:280-317 | a row of another item or element is skipped; a selected row is placed exactly when its country cells, both ids and every year's amount are usable |
| NetworkParser.PassFromUnit | src/parser.rs:211-223 | the first pass finds a unit only in a selected row of the right shape |
| NetworkParser.BuildNetworks | src/parser.rs:236-320 | fails exactly when there are years but no unit, or some row cannot be placed; otherwise one network per year with its direction and year; the id map holds exactly the collected codes; nodes are those codes in strictly ascending order, every collected code a node at the position of its id, and each node's edges exactly those the rows give |
| NetworkParser.ParseRows | src/parser.rs:197-320 | fails exactly when a row lacks a cell the filters read, a selected row has another unit or length (`Unit error`, `Line error`) or lacks a country cell, there are years but no selected row, or a selected row cannot be placed; otherwise the networks are as `TradeNetworks` states: one per year, nodes exactly the traded codes in ascending order at the positions of their ids, each with exactly the rows' positive-amount edges |
| NetworkParser.ParseNetworks | src/parser.rs:140-321 | the filter reads the last header column of each of the five names and expects rows as long as the number of distinct header entries; every year is a year column of the header; the run fails exactly when a named column is missing or one of the row conditions of `ParseRows` holds, and otherwise gives the networks `TradeNetworks` states |
| WorkQueue.SyncQueue.constructor | src/sync_queue.rs:12-15 | the queue holds the given elements |
| WorkQueue.SyncQueue.Pop | src/sync_queue.rs:17-25 | removes and returns the front element; None on an empty queue, which stays empty |
| WorkQueue.SyncQueue.Push | src/sync_queue.rs:38-45 | appends the element at the back |
| WorkQueue.SyncQueue.Map | src/sync_queue.rs:48-56 | a new queue of the same length with the function applied to every element, in order |
| WorkQueue.Step | src/sync_queue.rs:65 | the step is at least 1 and at most `max(samples, 1)`, and either 1 or at most `samples / desired` in total |
| WorkQueue.WorkAmounts | src/sync_queue.rs:64-82 | the amounts add up to `samples`; there is at least one; none exceeds the step; all but the last equal the step; `[0]` exactly when `samples` is 0, and no zero amount otherwise |
| WorkQueue.CountOfPackages | src/sync_queue.rs:68-81 | n full steps and a last package make n + 1 packages |
| WorkQueue.CreateWorkQueue | src/sync_queue.rs:62-84 | a fresh queue whose amounts add up to `samples`, never empty, bounded by the step, full steps except the last, and `[0]` exactly for no samples |
| WorkQueue.DrainInOrder | src/sync_queue.rs:17-45 | pushing elements and popping until empty gives them back in push order (first in, first out) |
| Units.IsEquiv | src/units.rs:27-36 | equal names are equivalent; different names whose first is not listed are not; under a consistent tester, equivalent exactly when equal or in one class |
| Units.InsertClass | src/units.rs:55-58 | inserts every name of a class with the class index; fails exactly when a name is already in the map (the `assert!`) |
| Units.EquivMap | src/units.rs:51-59 | fails exactly when some name is listed in two classes; otherwise every listed name maps to a class holding it and nothing else is in the map |
| Units.MapStep | src/units.rs:53-59 | one class more keeps the map invariant |
| Units.MapDone | src/units.rs:51-59 | at the end no name is in two classes and the tester is consistent |
| Units.Collect | src/units.rs:47 | collecting into a set gives the ascending distinct names |
| Units.Default | src/units.rs:39-68 | the default tester is consistent, has the single class {"tonnes", "t"} and no conversions |
| Units.EquivSymmetric | src/units.rs:27-36 | under a consistent tester `is_equiv` is symmetric |
| Units.EquivTransitive | src/units.rs:27-36 | under a consistent tester `is_equiv` is transitive |
| Units.DefaultTonnes | src/units.rs:42 | "tonnes" and "t" are equivalent in both orders, and no other pair of different names is |
| CmpTwo.ReadSets | src/group_cmp/cmp_two.rs:18-40 | one set per maximal block of non-separator lines, in file order; no set is empty; the union is exactly the set of non-separator lines |
| CmpTwo.FinishState | src/group_cmp/cmp_two.rs:36-38 | dropping the trailing empty set gives the blocks' sets and keeps the union |
| CmpTwo.ReadSeparator | src/group_cmp/cmp_two.rs:26-29 | a separator opens a new set only when the open one is not empty, so runs of separators create no extra sets |
| CmpTwo.ReadLine | src/group_cmp/cmp_two.rs:30-32 | a non-separator line joins the open set |
| CmpTwo.CoversLine | src/group_cmp/cmp_two.rs:30-32 | the union so far holds exactly the non-separator lines read |
| CmpTwo.CompareSets | src/group_cmp/cmp_two.rs:52-63 | `in_both <= min <= total_elements`; `min` is the smaller size; `total_elements + in_both = |a| + |b|`; `in_both == total_elements` exactly when the sets are equal |
| CmpTwo.UnionInterCard | src/group_cmp/cmp_two.rs:55-57 | the intersection is no larger and the union no smaller than either set, with equality of the two exactly for equal sets |
| CmpTwo.CompareSetsSymmetric | src/group_cmp/cmp_two.rs:52-63 | `compare_sets` is symmetric |
| CmpTwo.RestrictTo | src/group_cmp/cmp_two.rs:94-104 | every remaining set is non-empty and inside the common elements; the union is the old union cut to the common elements |
| CmpTwo.CommonOnly | src/group_cmp/cmp_two.rs:88-107 | with `common_only`, both sides' sets are non-empty and inside the elements common to both unions, and each side's union is exactly that intersection |
| CmpTwo.AtLeast | src/group_cmp/cmp_two.rs:109-112 | exactly the sets of size at least the threshold remain, as a sub-multiset |
| CmpTwo.MaxOverlap | src/group_cmp/cmp_two.rs:134-145 | `size_self` is the set's size; `max_in_both <= size_self`; it bounds every intersection with a set of the other side and is attained by one (or is 0) |
| CmpTwo.FilterGroups | src/group_cmp/cmp_two.rs:88-112 | each side is exactly `FilteredSide` of its sets: cut to the elements common to both unions with empty sets dropped under `common_only`, then only the sets of at least the threshold's size; after `common_only` every set is non-empty and common; after the threshold every set reaches it; with neither nothing changes |
| CmpTwo.BestOverlaps | src/group_cmp/cmp_two.rs:129-147 | one overlap per set of the first side, each its size, bounding every intersection with the other side, and equal to the size of the intersection with some set of the other side (or 0 when that side is empty) |
| CmpTwo.CompareGroups | src/group_cmp/cmp_two.rs:77-147 | each side is a permutation of its filtered sets (`FilteredSide`), sorted by ascending size; `comp` compares the two unions; each overlap is attained by a set of the other side and bounds all of them |
| CmpTwo.MultisetUnion | src/group_cmp/cmp_two.rs:118-125 | the union does not depend on the order of the sets, so sorting does not change it |
| CmpTh.Segs | src/group_cmp/cmp_th.rs:58-90 | the id lines cut at the headers: one segment more than there are headers |
| CmpTh.Closed | src/group_cmp/cmp_th.rs:61-71 | a header closes a set only when a header was seen before (`valid`), so n headers close n − 1 sets, each carrying the earlier header's count and percent |
| CmpTh.ReadLine | src/group_cmp/cmp_th.rs:59-89 | one line fails exactly when it is a header without a parsable count and percent, or an id line that is not an `i16`; otherwise the loop state is kept |
| CmpTh.ReadSetInfos | src/group_cmp/cmp_th.rs:50-101 | fails exactly when some line does not read; otherwise the closed sets, then the trailing set unless it is empty |
| CmpTh.ReadStart | src/group_cmp/cmp_th.rs:53-57 | the loop starts with no sets, an empty open set, `i32::MIN`, NaN and `valid` false |
| CmpTh.ReadEnd | src/group_cmp/cmp_th.rs:91-100 | a non-empty trailing set is appended at the end and an empty one is dropped |
| CmpTh.HeaderStep | src/group_cmp/cmp_th.rs:59-76 | a header pushes the open set with the previous header's count and percent when `valid`, then starts a new set with its own count and percent |
| CmpTh.IdStep | src/group_cmp/cmp_th.rs:76-89 | an id line adds its id to the open set |
| CmpTh.SetInfosHoldAllIds | src/group_cmp/cmp_th.rs:50-101 | the closed sets and the open set together hold exactly the ids of all id lines |
| CmpTh.SetInfosIds | src/group_cmp/cmp_th.rs:50-101 | the sets returned hold exactly the ids of the id lines, since only an empty trailing set is dropped |
| CmpTh.CompareTh | src/group_cmp/cmp_th.rs:103-153 | fails exactly when the two files hold different numbers of sets; otherwise one row per level with both x values, `overlap = |a ∩ b|` and `total = |a ∪ b|`, so `overlap <= total` |
| CmpTh.Hits | src/group_cmp/cmp_th.rs:196-206 | the number of years whose set holds the id: at most the number of years, and at least 1 exactly for an id of some set |
| CmpTh.CountHits | src/group_cmp/cmp_th.rs:194-222 | one slot per year; slot k − 1 counts the ids found in exactly k years' sets; the slots add up to the number of distinct ids of the level |
| CmpTh.TallyCounts | src/group_cmp/cmp_th.rs:218-222 | slot c − 1 counts the keys whose count is c |
| CmpTh.CountStep | src/group_cmp/cmp_th.rs:219-222 | one more key adds one to exactly the slot of its count, keeping the sum equal to the keys counted |
| CmpTh.HitMap | src/group_cmp/cmp_th.rs:194-206 | the map holds exactly the ids of the level, each with its number of years, between 1 and the number of years |
| CmpTh.AddSet | src/group_cmp/cmp_th.rs:201-205 | every id of the set gets one more, a new id starts at one |
| CmpTh.Bump | src/group_cmp/cmp_th.rs:202-204 | `and_modify(+1).or_insert(1)`: the key is added with one more than before (or 1), other keys unchanged |
| CmpTh.Level | src/group_cmp/cmp_th.rs:196-199 | the sets of one disruption level, one per year |
| CmpTh.CompareMultiple | src/group_cmp/cmp_th.rs:155-228 | fails exactly when there is no year or two adjacent years differ in their number of levels; otherwise all years have as many levels as the first, and each row holds the first year's x value and the hit counts of its level |
| CmpTh.MultiRows | src/group_cmp/cmp_th.rs:192-227 | one row per level, each correct |
| CmpTh.SameLengths | src/group_cmp/cmp_th.rs:170-180 | equal lengths of adjacent years mean every year has as many levels as the first |
| ThreeSets.ClassifyFinite | src/network/main_execs/execs.rs:1441-1447 | with finite borders: delta ≥ high is high, low < delta < high is middle, anything else is low |
| ThreeSets.ClassifyNaNBorders | src/network/main_execs/execs.rs:1441-1447 | a NaN high border sends nothing to high, and with both borders NaN every delta is low |
| ThreeSets.ParseLine | src/network/main_execs/execs.rs:1433-1438 | a line that reads has a `u32` country id |
| ThreeSets.ParseLineOfFields | src/network/main_execs/execs.rs:1432-1438 | a line "p d c" reads back as its delta and country exactly when p equals its position among the data lines, and fails the `assert_eq!` otherwise |
| ThreeSets.Reading | src/network/main_execs/execs.rs:1432-1438 | the reader of the file is the line parser |
| ThreeSets.ToThreeSets | src/network/main_execs/execs.rs:1422-1452 | the loop over the non-comment lines computes the sets of the data lines, or the first failure |
| ThreeSets.SetsSnoc | src/network/main_execs/execs.rs:1432-1450 | one more data line either fails or puts its entry into the sets |
| ThreeSets.AbortStays | src/network/main_execs/execs.rs:1432-1438 | a failure on a prefix is the failure of the whole file |
| ThreeSets.SetsOfAbort | src/network/main_execs/execs.rs:1432-1438 | the file fails exactly when some data line does not read at its position |
| ThreeSets.InsertPart | src/network/main_execs/execs.rs:1440-1449 | an insertion adds the entry only to the map of its category, and only when the delta is finite |
| ThreeSets.SetsOfMember | src/network/main_execs/execs.rs:1440-1449 | a country is in a map exactly when some line reads with a finite delta of that category for it |
| ThreeSets.MemberStep | src/network/main_execs/execs.rs:1440-1449 | the last line adds its country to the map of its category, with its delta, and touches no other entry |
| ThreeSets.SetsOfLatest | src/network/main_execs/execs.rs:1448 | a country's delta is that of the last line that put it into the map |
| ThreeSets.SetsOfClassified | src/network/main_execs/execs.rs:1440-1449 | every kept delta is finite and lies in its map's category |
| ThreeSetExec.Hits | src/network/main_execs/execs.rs:1318-1333 | the `t` counter of one file: how many of its three maps hold the country, at most 3 |
| ThreeSetExec.CountSnoc | src/network/main_execs/execs.rs:1316-1337 | one more file adds one to a count exactly when its map of that category holds the country |
| ThreeSetExec.CountsBound | src/network/main_execs/execs.rs:1316-1337 | when no file holds a country twice, low + middle + high is the number of files holding it, at most the number of files |
| ThreeSetExec.AllCountriesMember | src/network/main_execs/execs.rs:1270-1273 | a country is in `all` exactly when some file holds it in some map |
| ThreeSetExec.FiniteDelta | src/network/main_execs/execs.rs:1317-1334 | with finite maps, the recorded delta of a file is finite exactly when the file holds the country, so `deltas` has one entry per file and the finite ones are the files holding it |
| ThreeSetExec.SetsOfFinite | src/network/main_execs/execs.rs:1440-1449 | the maps `to_three_sets` builds hold finite deltas only |
| ThreeSetExec.RowFor | src/network/main_execs/execs.rs:1310-1363 | fails exactly when some file holds the country in two maps (`assert!(t <= 1)`); otherwise the counts and the per-file deltas of the country, with low + middle + high at most the number of files |
| ThreeSetExec.VisitFile | src/network/main_execs/execs.rs:1316-1335 | each map holding the country counts it once; the delta is the last map's that holds it, NaN if none |
| ThreeSetExec.Rows | src/network/main_execs/execs.rs:1309-1364 | fails exactly when some country clashes; otherwise one row per country of `all`, in strictly ascending country order, each that country's row |
| ThreeSetExec.SortRows | src/network/main_execs/execs.rs:1378-1379 | sorted by the key middle·2 + low + high·3, a permutation, and rows of equal key keep their order |
| ThreeSetExec.ThreeSetRows | src/network/main_execs/execs.rs:1261-1379 | fails exactly on a clash; otherwise rows sorted by the key, one per country of `all`, each country once and each row that country's counts and deltas |
| ThreeSetExec.SortedCountries | src/network/main_execs/execs.rs:1378-1379 | sorting keeps the countries and their distinctness |
| Execs.NeighboursAll | src/network/main_execs/execs.rs:29-32 | agreeing neighbours mean one shared direction |
| Execs.DirectionLine | src/network/main_execs/execs.rs:26-35 | succeeds exactly for a non-empty list of networks sharing a direction, and then writes `#Direction` and that direction |
| Execs.Degrees | src/network/main_execs/execs.rs:297-302 | the degrees of all nodes of all networks: empty exactly when there is no node, and holding exactly the nodes' adjacency lengths |
| Execs.Max | src/network/main_execs/execs.rs:303 | `max()` is None exactly for no element, otherwise an element bounding all |
| Execs.MaxDegree | src/network/main_execs/execs.rs:297-303 | fails exactly when there is no node; otherwise a degree some node has that bounds all degrees |
| Execs.NextMultipleOf2 | src/network/main_execs/execs.rs:305 | even and at most one above its argument |
| Execs.DegreeBins | src/network/main_execs/execs.rs:305-306 | `mul` is odd and at least `max_degree` (at most one above), with `(mul + 1) / 2` bins |
| Execs.DegreeBinIndex | src/network/main_execs/execs.rs:305-306 | every degree lies within `0 ..= mul` in bin d / 2, and the largest degree falls in the last bin |
| Execs.FindYear | src/network/main_execs/execs.rs:891-899 | fails exactly when no network has the year; otherwise the first network with it |
| Execs.OutSets | src/network/main_execs/execs.rs:903-914 | fails exactly when `top` exceeds the ordering; otherwise `top` sets, each exactly the nodes reachable from its start, the start included |
| Execs.IntersectionMatrix | src/network/main_execs/execs.rs:918-931 | a square matrix whose entry (i, j) is the size of the intersection; symmetric, with each set's size on the diagonal and no entry above either set's size |
| FlowIds.Complement | src/network/main_execs/flow_helper.rs:68-82 | reference for the unrestricted ids: strictly ascending, and exactly the ids below `n` not in the list |
| FlowIds.WithFrac | src/network/main_execs/flow_helper.rs:134-137 | one exporter per id, in the same order, each with fraction `export_frac` |
| FlowIds.RemoveAt | src/network/main_execs/flow_helper.rs:163 | `Vec::remove` shortens the list by one |
| FlowIds.RemovedIds | src/network/main_execs/flow_helper.rs:159-163 | removing a position of a strictly ascending list keeps it strictly ascending and loses exactly that element |
| FlowIds.Resorted | src/network/main_execs/flow_helper.rs:164-165 | after the push and the sort by id: sorted by id, one longer, a permutation of the list plus the new item |
| FlowIds.InsertedIds | src/network/main_execs/flow_helper.rs:164-165 | inserting a new id into strictly ascending exporters keeps the ids strictly ascending and adds exactly that id |
| FlowIds.CursorDecides | src/network/main_execs/flow_helper.rs:72-80 | on a strictly ascending list the filter's cursor element decides whether an id is in the list |
| FlowIds.FilterDrop | src/network/main_execs/flow_helper.rs:72-77 | dropping the cursor's id and moving the cursor keeps the filter's state |
| FlowIds.FilterKeep | src/network/main_execs/flow_helper.rs:78-80 | keeping an id the cursor does not hold keeps the filter's state |
| FlowHelper.FreeIds | src/network/main_execs/flow_helper.rs:68-82 | the kept ids are strictly ascending, below `n`, include every id below `n` not in the list, and on a strictly ascending list are exactly the reference complement |
| FlowHelper.CalcShockMultiJob.constructor | src/network/main_execs/flow_helper.rs:83-91 | the job holds the given exporters, unrestricted ids and iterations |
| FlowHelper.CalcShockMultiJob.ChangeExportFrac | src/network/main_execs/flow_helper.rs:150-155 | every exporter's fraction becomes `export_frac`; the ids, their order and all else stay |
| FlowHelper.CalcShockMultiJob.AddExporter | src/network/main_execs/flow_helper.rs:157-166 | fails, changing nothing, exactly when the id is not unrestricted; otherwise the id leaves the unrestricted list and the exporters are the resorted list with the item |
| FlowHelper.CalcShockMultiJob.ReduceOrAdd | src/network/main_execs/flow_helper.rs:169-186 | an existing exporter's fraction is multiplied by the factor, nothing else changes; a new id is added with the factor as fraction, failing exactly when it is not unrestricted |
| FlowHelper.NewExporter | src/network/main_execs/flow_helper.rs:47-92 | fails exactly for no exporters; otherwise exporters sorted by id and a permutation of the input, every id below `n` that is no exporter unrestricted, and with distinct ids the job partitioned |
| FlowHelper.NewConstExport | src/network/main_execs/flow_helper.rs:97-148 | fails exactly for no ids; otherwise the sorted ids as exporters, all with fraction `export_frac`, the others below `n` unrestricted, and with distinct ids the job partitioned |
| FlowHelper.ComplementPartition | src/network/main_execs/flow_helper.rs:68-82 | strictly ascending exporters and the filter's complement make a partition of `0..n` |
| FlowHelper.AddKeepsPartition | src/network/main_execs/flow_helper.rs:157-166 | `add_exporter` keeps the partition: the id moves from the unrestricted ids to the exporters |
| FlowHelper.SameIdsPartition | src/network/main_execs/flow_helper.rs:150-155 | changing fractions keeps the partition |
| FlowHelper.ReduceOrAddKeepsPartition | src/network/main_execs/flow_helper.rs:169-186 | both paths of `reduce_or_add` keep the partition |
| FlowHelper.AddFailsForExporters | src/network/main_execs/flow_helper.rs:157-162 | under the partition, `add_exporter` of an id below `n` fails exactly for an id that already is an exporter |
| EnrichedDigraph.NodeInfoNamesDistinct | src/network/enriched_digraph.rs:8-29 | the table has 20 names, no two equal |
| EnrichedDigraph.NewNodeInfoMap | src/network/enriched_digraph.rs:36-43 | the map's keys are exactly the 20 names, and the i-th name is sent to i |
| EnrichedDigraph.NodeInfoInverse | src/network/enriched_digraph.rs:36-43 | that map is a bijection onto `0..20`: every value is below 20 and leads back to its name |
| EnrichedDigraph.GetNodeInfo | src/network/enriched_digraph.rs:45-50 | succeeds exactly for a key of the map, with its value; otherwise stops with the key as message |
| EnrichedDigraph.GetNodeInfoListed | src/network/enriched_digraph.rs:36-50 | on the fixed map, `get` finds the position of every listed name and stops on every other string |
| EnrichedDigraph.ExtraInfo.constructor | src/network/enriched_digraph.rs:71-74 | a new table is empty |
| EnrichedDigraph.ExtraInfo.Push | src/network/enriched_digraph.rs:65-69 | the entry is inserted, and the run stops exactly when the id was already there |
| EnrichedDigraph.EnrichmentInfos.constructor | src/network/enriched_digraph.rs:84-93 | `num_entries` empty years and the starting year |
| EnrichedDigraph.EnrichmentInfos.GetMutInserting | src/network/enriched_digraph.rs:95-103 | stops on a year index out of range; otherwise the country is in that year afterwards and the result is its information, existing information is handed out unchanged, a missing country gets a fresh empty table, and no other year changes |
| EnrichedColumns.HeaderStep | src/network/enriched_digraph.rs:135-138 | taking the smallest remaining entry id keeps the header ascending, below every id still to come |
| EnrichedDigraph.HeaderOf | src/network/enriched_digraph.rs:133-138 | the header lists the first table's entry ids ascending, each with its unit |
| EnrichedColumns.AlignedIff | src/network/enriched_digraph.rs:145-152 | against a header of the first table, a node passes the `assert_eq!`s and the `expect` exactly when its table has the first table's ids with the same units |
| EnrichedColumns.SameColumnsKeys | src/network/enriched_digraph.rs:145-149 | a node passing the checks has exactly the first node's entry ids |
| EnrichedDigraph.AlignNode | src/network/enriched_digraph.rs:143-158 | succeeds exactly when the node's table matches the header; then identifier and edges are kept and the amounts come in header order |
| EnrichedDigraph.FromHelper | src/network/enriched_digraph.rs:128-162 | stops exactly on an empty network or a node whose table does not have the first node's ids and units; otherwise every node converted against the first node's ascending header |
| EnrichedDigraph.GetIdx | src/network/enriched_digraph.rs:120-125 | None exactly when the id is not in the header; otherwise its first position |
| EnrichedDigraph.GetIdxColumn | src/network/enriched_digraph.rs:120-162 | after the conversion, `get_idx` finds exactly the first node's entry ids, and the column it names holds that entry's unit and each node's amount of it |
| EnrichedDigraph.StartIdx | src/network/enriched_digraph.rs:192-195 | stops exactly when the networks start after the enrichments; otherwise the offset that brings the networks' start year to the enrichments' |
| EnrichedDigraph.EnrichPairs | src/network/enriched_digraph.rs:192-199 | stops exactly when the networks start later or the offset runs past the networks; otherwise the zipped pairs (offset + k, k), as many as the shorter side |
| EnrichedDigraph.EnrichPairsSameYear | src/network/enriched_digraph.rs:195-199 | each enrichment year is paired with the network of the same year, both indices in range |
| EnrichedDigraph.HelperNodes | src/network/enriched_digraph.rs:204-218 | stops exactly when some node's country has no information that year; otherwise one helper node per node with its identifier, edges and that information |
| MatchParts.MatchStep | src/network/main_execs/match_maker.rs:72-84 | visiting the smallest remaining common code takes its entries from both maps and keeps the loop state |
| MatchMaker.CreateMatches | src/network/main_execs/match_maker.rs:65-85 | one `Matched` per code both maps hold and no other, in strictly ascending code order, each with the old and the new entry of its code |
| MatchMaker.OutputDir | src/network/main_execs/match_maker.rs:122-138 | `Old` and `New` take that file's parent; `Skip` gives nothing exactly when the parents differ, and otherwise their common parent |
| MatchMaker.OutputName | src/network/main_execs/match_maker.rs:140-148 | the name starts with `Country_normed_` exactly when trading-country norming is used, and ends in `.dat` |
| MatchMaker.NameIsJoin | src/network/main_execs/match_maker.rs:147 | the name without prefix is `Item{item}`, old year and new year joined by `_` |
| MatchMaker.OutputNameInjective | src/network/main_execs/match_maker.rs:140-148 | two jobs with the same output name agree on the norming, the item code and both years |
| MatchMaker.WorkRows | src/network/main_execs/match_maker.rs:157-174 | the zipped loop: stops exactly when a line pair up to the shorter file fails to read or has different mids; otherwise one row per line pair of the shorter file, each the mid and the difference of the normalised values |
| MatchMaker.Work | src/network/main_execs/match_maker.rs:114-175 | with `Skip` and different parents nothing is written; otherwise, with the reader `get_vals_trading` or `get_vals_max_normed` chosen by `byTrading`, the run stops exactly when a line pair (up to the shorter file) fails to read or has different mids, and else it writes to that directory under the output name, with the header and one row per line pair of the shorter file |
| MatchParts.ParseTokens | src/network/main_execs/match_maker.rs:212-213 | all tokens parse, and then each value is the parse of its token |
| MatchParts.GetValsTrading | src/network/main_execs/match_maker.rs:210-218 | fails exactly when there are fewer than three columns or one does not parse; otherwise (midpoint of columns 0 and 1, last column) |
| MatchParts.GetValsMaxNormed | src/network/main_execs/match_maker.rs:220-228 | fails exactly when there are fewer than six columns or one of the first six does not parse; otherwise (midpoint of columns 0 and 1, column 5) |
| MatchParts.ProcessedGetVals | src/network/main_execs/match_maker.rs:230-236 | succeeds exactly for two columns that both parse, giving those two values |
| MatchParts.ColumnsOfJoin | src/network/main_execs/match_maker.rs:212 | splitting a space-joined list of words gives back the words |
| MatchParts.TradingOfTokens | src/network/main_execs/match_maker.rs:210-218 | a line of at least three numbers reads as the midpoint of the first two and the last |
| MatchParts.MaxNormedOfTokens | src/network/main_execs/match_maker.rs:220-228 | a line of at least six numbers reads as the midpoint of the first two and the sixth |
| MatchParts.ReadersAgree | src/network/main_execs/match_maker.rs:210-228 | both readers give the same midpoint, and the same pair on a line of exactly six numbers |
| MatchParts.ProcessedReadsPair | src/network/main_execs/match_maker.rs:230-236 | a line of two numbers reads back as those two numbers |
| MatchParts.SelfRow | src/network/main_execs/match_maker.rs:160-173 | a file compared with itself gives a row exactly when the line reads and its mid is a number, and a finite value then gives a zero difference |
| MatchMaker.FirstFile | src/network/main_execs/match_maker.rs:263-274 | stops exactly when some line fails to read; otherwise one mid and one one-element row per line, the kept value of that line |
| MatchMaker.AddFile | src/network/main_execs/match_maker.rs:278-311 | stops exactly when some line fails to read, has no row, or has another mid; otherwise each row grows by that line's kept value unless it is a NaN that is ignored |
| MatchMaker.Median | src/network/main_execs/match_maker.rs:326 | stops exactly on an empty row; otherwise one of its values |
| MatchMaker.MedianSplits | src/network/main_execs/match_maker.rs:325-326 | the median has `len / 2` of the other values at most it and the rest at least it |
| Correlation.CorKeys | src/correlation_coef.rs:337-349 | the keys, in iteration order, that the smaller map holds finite and the larger map holds finite too; each once when the order lists each once |
| Correlation.PairKeys | src/correlation_coef.rs:332-349 | exactly the keys both inputs hold with finite values, each once |
| Correlation.GoodsCorIter | src/correlation_coef.rs:330-350 | one pair per such key, the smaller map's value first, both finite |
| Correlation.PairPerKey | src/correlation_coef.rs:330-350 | every shared finite key gives exactly one pair |
| Correlation.GoodsCorIterSwap | src/correlation_coef.rs:332-336 | for inputs of different sizes, swapping them gives the same pairs in the same order |
| Correlation.WeightedJoin | src/correlation_coef.rs:107-131 | fails exactly when a weight map lacks a joined key; otherwise one pair of items per joined key, each value with its own side's weight |
| Correlation.WeightedSameKeys | src/correlation_coef.rs:94-132 | the weighted iterator fails exactly when a weight map lacks a shared finite key; otherwise it yields the pairs of the unweighted one, each value with the weight its own input gives its key |
| Correlation.Stub | src/correlation_coef.rs:442-454 | every weight function has a name of at least three letters |
| Correlation.StubInjective | src/correlation_coef.rs:442-454 | different weight functions have different names |
| Correlation.CheckInputs | src/correlation_coef.rs:510-521 | stops exactly for no inputs, or for some but not all inputs having weights; otherwise says whether all have weights |
| Correlation.FiniteVals | src/correlation_coef.rs:858-862 | the country's values across the inputs, all finite, at most one per input |
| Correlation.VariesIff | src/correlation_coef.rs:863-864 | for finite values, a change between neighbours is the same as two values differing |
| Correlation.Constant | src/correlation_coef.rs:863-864 | without a change between neighbours all values are equal |
| Correlation.Kept | src/correlation_coef.rs:852-871 | the countries kept are exactly those whose finite values vary |
| Correlation.AnyChange | src/correlation_coef.rs:863-864 | the loop reports exactly whether two neighbouring values differ |
| Correlation.KeptStep | src/correlation_coef.rs:853-871 | `retain` decides country by country, in order |
| Correlation.RetainVarying | src/correlation_coef.rs:852-871 | stops exactly when a removed country lacks a name in the given name map; otherwise the countries whose values vary, in order |
| Ranks.SortTagged | src/correlation_coef.rs:251 | a sorted rearrangement of the enumerated values |
| Ranks.RankAt | src/correlation_coef.rs:254-265 | the counter after entry `k` of the walk is the rank of its value: the number of distinct values below it, counted from -1 |
| Ranks.RepeatIff | src/correlation_coef.rs:258-263 | `always_unique` is cleared exactly when a value repeats or negative infinity occurs |
| Ranks.RankMonotone | src/correlation_coef.rs:254-265 | a smaller value has a smaller rank |
| Ranks.RankBound | src/correlation_coef.rs:254-265 | every rank but that of negative infinity is below the number of distinct values |
| Ranks.SeenAll | src/correlation_coef.rs:256-265 | at the end of the walk every value but negative infinity has been counted |
| Ranks.WalkCovers | src/correlation_coef.rs:256-265 | along the walk the rank takes every value between the first and the current one |
| Ranks.RankDense | src/correlation_coef.rs:254-265 | every number below the count of distinct values is the rank of some value |
| Ranks.UnrepeatedRanks | src/correlation_coef.rs:248-265 | without repeats the ranks are a permutation of 0 .. n - 1 |
| Ranks.AssignRanks | src/correlation_coef.rs:253-266 | the map gives each position the rank of its value, and `always_unique` stays set exactly when no value repeats |
| Ranks.CreateMap | src/correlation_coef.rs:249-267 | fails exactly when two or more values include a NaN; otherwise each position gets the rank of its value, and the uniqueness flag as above |
| Ranks.SpearmanRanks | src/correlation_coef.rs:236-270 | fails exactly when there are two or more pairs and a column holds a NaN; otherwise both columns' rank maps, and whether neither column repeats |
| Ranks.Firsts | src/correlation_coef.rs:236-246 | the first values of the pairs, in order |
| Ranks.Seconds | src/correlation_coef.rs:236-246 | the second values of the pairs, in order |
| OtherFilters.FilterKey | src/other_exec.rs:991-999 | for a csv filter file, fails exactly past the last field and otherwise gives that field of the quote-aware split; otherwise the same for whitespace-separated words |
| OtherFilters.FilterSet | src/other_exec.rs:983-1001 | fails exactly when a non-comment line lacks the column; otherwise exactly the keys of the non-comment lines |
| OtherFilters.Selected | src/other_exec.rs:1004-1024 | no more lines are written than read |
| OtherFilters.SelectedSubsequence | src/other_exec.rs:1004-1024 | only input lines are written, each at most as often as it occurs in the input |
| OtherFilters.SelectedSnoc | src/other_exec.rs:1004-1024 | the loop decides line by line: one more line is appended exactly when it is written |
| OtherFilters.SelectedAppend | src/other_exec.rs:1004-1024 | the selection of two parts is the selection of each, concatenated |
| OtherFilters.SelectedComments | src/other_exec.rs:1005-1011 | the comment lines written are all comment lines when comments are kept, none otherwise |
| OtherFilters.KeepRemoveSplit | src/other_exec.rs:1017-1023 | keeping and removing write, between them, each data line exactly once |
| OtherFilters.FilterLines | src/other_exec.rs:1003-1024 | fails exactly when a non-comment line lacks the column; otherwise writes the selected lines in order |
| OtherFilters.FilterFilesHelper | src/other_exec.rs:979-1025 | fails exactly when the filter set fails or a work line lacks the column; otherwise the selection of the work file under the filter set |
| OtherFilters.BorderAt | src/other_exec.rs:1074-1075 | the border at position `p`, None exactly past the last |
| OtherFilters.Advance | src/other_exec.rs:1092-1105 | the counter moves on past every border the value fails `cmp` against, to the first it meets or to the end |
| OtherFilters.Placement | src/other_exec.rs:1091-1113 | one file number per item, none past the number of borders |
| OtherFilters.PlacementAt | src/other_exec.rs:1091-1113 | item `k` moves the counter on from where the item before left it |
| OtherFilters.PlacementMonotone | src/other_exec.rs:1091-1113 | the file numbers never go back |
| OtherFilters.PlacementStops | src/other_exec.rs:1092-1105 | each item stops at a border it meets or past the last one, and fails `cmp` against every border it passed |
| OtherFilters.PlacementSnoc | src/other_exec.rs:1091-1113 | one more item is placed by one more step of the counter |
| OtherFilters.OpenedSnoc | src/other_exec.rs:1106 | one more item opens a file exactly when it moves the counter |
| OtherFilters.OpenedProps | src/other_exec.rs:1077-1106 | file 0 is opened first, the numbers of the opened files rise strictly, each header names the border of its number, and the last file is the counter's |
| OtherFilters.PlacedOpened | src/other_exec.rs:1088-1112 | every item is written to a file that was opened |
| OtherFilters.PartitionHelper | src/other_exec.rs:1069-1114 | the files opened and the file of each item are the reference ones above |
| IntegralParts.Ids | src/other_exec.rs:36 | the first word of each line, in order |
| IntegralParts.FirstMapLast | src/other_exec.rs:34-39 | after the first file, an id has an order exactly when it has a line, and the order is the position of its last line |
| IntegralParts.FirstMapDistinct | src/other_exec.rs:34-39 | with distinct ids the first file's ids get the orders 0, 1, 2, … in line order |
| IntegralParts.FirstMapValid | src/other_exec.rs:34-39 | the first file's orders are a numbering: different ids different orders, all below the counter |
| IntegralParts.AssignedFresh | src/other_exec.rs:53-60 | a later file keeps the known ids' orders, gives its new ids exactly the orders from the old counter to the new one, and keeps a numbering |
| IntegralParts.AssignedFirstSeen | src/other_exec.rs:53-60 | new ids are numbered in the order in which they first appear |
| IntegralParts.Entries | src/other_exec.rs:53-59 | one entry per data line: the line with the order of its id |
| IntegralParts.RowsUnique | src/other_exec.rs:66-82 | the rows written are determined by the entries |
| IntegralParts.RowsPermuted | src/other_exec.rs:64 | the rows do not depend on the order of the entries, so the unstable sort leaves nothing open |
| IntegralSort.FirstOrders | src/other_exec.rs:28-39 | fails exactly when a data line of the first file has no word; otherwise each id gets the position of its last data line, and the counter is the number of data lines |
| IntegralSort.GatherComment | src/other_exec.rs:50-51 | a comment line is kept in order |
| IntegralSort.GatherData | src/other_exec.rs:53-60 | a data line takes its id's order, or the next counter, which then moves on |
| IntegralSort.Gather | src/other_exec.rs:46-62 | fails exactly when a data line has no word; otherwise the comments in order, the numbering extended by the file's ids, and each data line paired with its id's order |
| IntegralSort.Placeholders | src/other_exec.rs:74-76 | `n` rows of `NaN NaN NaN NaN NaN` |
| IntegralSort.RowsSnoc | src/other_exec.rs:73-79 | placeholder rows up to an entry's order, then its line, keep row `o` holding the line of order `o` |
| IntegralSort.PutLine | src/other_exec.rs:68-80 | fails exactly when the rows already written have passed the entry's order; otherwise appends placeholders up to it and then its line |
| IntegralSort.WriteRows | src/other_exec.rs:66-82 | on entries sorted by order, fails exactly when two share an order; otherwise row `o` holds the line of order `o` and every other row up to the last is a placeholder |
| IntegralSort.SharedOrders | src/other_exec.rs:53-67 | under a numbering, two entries share an order exactly when two lines share an id |
| IntegralSort.SharedOrdersPermuted | src/other_exec.rs:64 | whether two entries share an order does not depend on their order |
| IntegralSort.SortLater | src/other_exec.rs:46-82 | fails exactly when a data line has no word or an id repeats; otherwise the numbering extended by the new ids and the file rewritten: comments first, then the data rows in the shared order |
| IntegralSort.LastPart | src/other_exec.rs:42 | the part of the path after its last `/`, without a `/` |
| IntegralSort.Contents | src/other_exec.rs:29-46 | the lines of each file, as read |
| IntegralSort.OrdersValid | src/other_exec.rs:34-60 | the orders stay a numbering across all files |
| IntegralSort.RunStep | src/other_exec.rs:41-84 | a later file sorted without failing moves the run on by one rewritten file |
| IntegralRun.SortFile | src/other_exec.rs:41-82 | one later file either makes the run fail, and then the files are not sortable, or is rewritten and moves the run on to the next file |
| IntegralRun.WorstIntegralSorting | src/other_exec.rs:24-84 | fails exactly for fewer than two files, a data line without a word, or an id twice in a later file; otherwise one rewritten file per later input, named after it, in the numbering after its own ids were added |

## Left out

- `python/dendrogram.py`: left out. It only calls scipy and matplotlib for clustering and plotting, and has no logic of its own.
- Floating-point numerics: left out, because only comparisons and copies of `f64` values are modelled, not rounding. This covers:
  - the Pearson, weighted and "paper" correlation coefficients and Spearman's coefficient itself;
  - the mean and variance statistics of `three_set_exec` and other executables;
  - the average of `calc_averages`;
  - flows and shocks, Dijkstra and centralities, dispersion, and graphviz colours.
- `f64` values are finite reals, infinities or NaN (`Float.F64`). Network amounts and export fractions are exact reals.
- Parsing a floating-point number is a parameter (`parseF`), because Rust's `f64::from_str` is not part of this model. Integer parsing follows Rust's rules.
- File and console I/O are not modelled:
  - a file is the sequence of its lines, and a writer is the text or rows written to it;
  - `create_buf_with_command_and_version` and its header lines, `println!` and `dbg!` are left out;
  - `open_as_unwrapped_lines_filter_comments` and `utf8_path_iter` are not part of this model, so readers take the line stream they would produce;
  - reading several files goes through a `read` parameter.
- When a run panics, the lines a writer has already received are not modelled: a panicking run yields `Abort` and no output.
- A panic inside a lazily consumed iterator (the `unwrap`s of `weighted_goods_cor_iter` and of the `get_vals_*` readers) is modelled as an abort of the whole result.
- The network type has no `data_origin` and no `unit`: `network_parser` sets both when it builds a network, but neither `Network` struct of the source declares those fields, so the model leaves them out.
- Scc.SccRecursive: proves that the components partition the nodes, not that each is a maximal set of mutually reachable nodes, because that needs Tarjan's low-link invariants over the stack, which the model does not carry.
- Globbing, regular-expression path matching and `get_owned_parent_path` are not part of this model. `MatchMaker.CreateMatches` takes the two maps from item code to file, and `MatchMaker.Work` takes the parent function `parentOf`.
- Serialisation (bincode, serde), `read_or_create`, the command line and the build script: left out, as plumbing around the core.
- Concurrency: rayon is not modelled, and neither is the `Mutex` of `SyncQueue`. `WorkQueue.SyncQueue` holds the queue's contents as a field.
- `largest_connected_component`, `to_undirected` and the `sampling` histograms: left out, because they delegate to external crates.
- HashMap iteration order in `Correlation` is a parameter (`aOrder`, `bOrder`), because Rust leaves it unspecified. The contracts hold for every order; elsewhere hash sets and maps are modelled as Dafny sets and maps, whose results do not depend on an order.
- `OtherFilters.PartitionHelper`: the comparison `cmp` is a parameter (`OrderHelper::get_cmp_fun` is not part of this model). The header text and copied comment lines of each new file are not modelled, only its number and border.
- `OtherFilters.FilterFilesHelper`: whether the filter file is a csv file is a parameter, because `Path::extension` is not modelled.
- `Execs.OutSets`: the node ordering is a parameter, because `sorted_by_largest_in` is not part of this model.
- Integer widths are unbounded in these counters, since the program's inputs stay far below the limits:
  - `CmpTh.CompareMultiple` does not model `u16` overflow of its counters;
  - `ThreeSetExec.Rows` does not model `u32` overflow of its counters;
  - `IntegralRun.WorstIntegralSorting` does not model `u32` overflow of `order_counter`;
  - `Scc.SccRecursive` models the Tarjan number, a `NonZeroU32` advanced with `saturating_add`, as an unbounded positive number.
  (`Misc.Label` does model the `u16` wrap-around of `write_slice_head`.)
- `Graph.NormalizeNodes`: a node whose amounts sum to zero keeps its amounts, whereas Rust's division gives infinities or NaN. The amounts the program stores are positive, so the sum is never zero.
- `HelperStructs.GetNum` requires a visited value instead of modelling the `unreachable!` panic, because every caller checks first.
- The network operations require every edge to lead to a node of the network (`Graph.ValidNodes`), as the parser guarantees. An edge out of range would make Rust panic on indexing.
- `EnrichedDigraph.HelperNodes`: takes the nodes after `without_unconnected_nodes`, which is not part of this model.
- `FlowHelper.CalcShockMultiJob`: the borrowed slices of original imports and exports are not modelled, because the job's methods never read them.
