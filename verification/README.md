# Rideshare: argmin circuit, routing, movement and auction state

This project models the parts of the rideshare server where correctness is not obvious from one
function, and proves what they promise for all inputs, all runs or all reachable states.

- **The homomorphic argmin circuit** (`internal/fhe`, `internal/ghost`). A ciphertext is its slot vector
  with the multiplicative level it has used. The circuit on such ciphertexts computes, slot for slot, the
  plaintext soft mask, at an exactly known depth and number of multiplications. Independently the mask is
  analysed as a real function: it ranks slots exactly as the keys rank, it is a sub-distribution, it is
  within an explicit bound of the exact one-hot and converges to it, for both sign polynomials. The rider's
  first maximum is therefore the first minimum of the keys, ties included.
  Modules `SignPolynomial`, `Majority`, `SignAnalysis`, `ArgminCircuit`, `Mask`, `MaskProperties`, `MaskTies`,
  `GhostRider`.
- **Routing** (`internal/routing`). The graph with its adjacency index, building it from ways, re-weighting,
  A* with lazy deletion, both codecs and slicing. The search always ends; it finds a route exactly when one
  exists; what it returns is a real open walk with exactly the reported length and time, whatever the
  non-negative weights; and a speed limit of c times 140 km/h guarantees results within exactly the
  factor c of the minimum, so that results are fastest exactly for c up to 1.
  Modules `RoadGraph`, `Walks`, `SearchState`, `AStar`, `SearchRuns`, `AStarLimits`, `Customization`,
  `MetricCodec`, `KeyStrings`, `Region`, `Osm`, `Journey`.
- **Movement** (`internal/movement`). Distance conservation along a track with degenerate segments, and an
  engine whose actors stay on walks of the graph while its cell-change log replays to the current cells; and exactly
  when ticked motion takes the travel time the search reports.
  Modules `Movement`, `MovementEngine`, `Ticks`, `EngineTicks`.
- **Offers, discovery, ratings, sessions and the auction key** (`internal/offerpool`, `internal/discovery`,
  `internal/rating`, `internal/session`, `internal/auction`). A timed state machine against a clean-up-free
  ledger, with the exact content of the pool after every run; an escalating search over a cell hierarchy; the exact conditions under which the weighted key is
  lexicographic; and the composition of key, circuit and rider into "the first lexicographically best bid wins".
  Modules `OfferPool`, `Discovery`, `Rating`, `Session`, `AuctionKey`, `AuctionOutcome`.

Helper modules: `Wrappers` (Option, Result, finite sets) and `RealFacts` (products of reals).

## How to read the model

Code that changes state is a class or a method with loops, proved against a specification function or
predicate; the properties of that specification are lemmas. Numbers are exact reals; a closed road's `+Inf`
weight is the separate value `Closed`; OSM ids are unbounded integers except in the metric codec, where the
signed 64-bit range matters. Distances are any metric, grid cells any function of the position, and
a cell's ancestors prefixes of its digits. Map iteration, random draws and ties in the priority queue are
arbitrary choices, so the results hold for every order. Operations under a lock are atomic steps, and each
reads the clock once. The encryption backend is a handle with a multiplicative depth: a product is one
level deeper than its operands and refused beyond the depth (as `internal/fhe/CALIBRATION.md:17-40` and
`internal/fhe/argmin_calib_openfhe_test.go:41-44` describe it), subtracting a public vector is free.

## Where the code and its documentation differ

The model follows the code.

- `internal/routing/astar.go:8-13` calls the heuristic admissible and the result time-minimal. The heuristic is
  admissible exactly when no open edge is driven faster than 140 km/h (`AStarLimits.NeverOverestimatesIff`).
  Of all limits c · 140 km/h on the speed of open edges, those that make every result a fastest route are exactly
  c ≤ 1 (`AStarLimits.FastestIff`), and the limit guarantees a factor f exactly when c ≤ f
  (`AStarLimits.SlackIsExact`), in every metric with two points apart. For every f below c,
  `AStarLimits.FastRoadsDefeatTheSearch` gives a free-flow road graph in that metric on which the search returns a route and every route it can return is more than f times too slow.
- `internal/auction/key.go:1-27` describes the key as lexicographic in price, stars and squared distance. No
  weights make it so once distances differ (`AuctionKey.LexicographicIff`); what the weights do achieve is
  characterised exactly by `AuctionKey.PriceDominatesIff` and `AuctionKey.StarsDominateIff`. The default
  weights leave distance out, and then the key is lexicographic.
- `internal/routing/customize.go:79-106` keeps the receiver's old per-edge multipliers or closures when the
  message carries none; `MetricCodec.CodecPreservesMeaning` says exactly when decoding restores the meaning, and
  `MetricCodec.StaleClosureSurvives` shows a road that stays closed.
  What counts in the end, the weights of every graph, is restored exactly when nothing kept has an effect of its own
  (`MetricCodec.CodecPreservesWeightsIff`).
- `internal/movement/engine.go:66-95` picks a speed once per tick, so a tick that overruns a fast edge covers part of
  the next at the old speed. Actors keep the timetable of the route's weights exactly when every tick covers the
  timetable's distance (`EngineTicks.EngineKeepsTimeIff`), which for ticks no longer than any edge is a condition on
  the route alone (`EngineTicks.EngineKeepsTimeIffSmooth`). At the default tick of `cmd/ghostfleet/main.go:23` a
  free-flow route of nine seconds is driven in five (`EngineTicks.DefaultTickIsEarly`).
- `internal/discovery/registry.go:34-50` panics when it widens past resolution 0; `Discovery.Registry.Discover`
  states exactly when.
- `internal/offerpool/pool.go:41-50,91-100` count expired offers that nothing has removed yet, both against the
  capacity and as excluding their driver. Such an offer lingers when, since it was held, the last read was
  before its expiry and the last sweep not after it. A hold is refused exactly when active and lingering offers fill the pool
  (`OfferPool.HoldIsRefusedIff`), and exclusion outlives the active offers exactly while one of the driver's lingers
  (`OfferPool.ExclusionOutlivesOffers`). At the very instant an offer expires a read drops it and a sweep keeps it
  (`OfferPool.ReadAndSweepAgreeIff`); `OfferPool.ExpiredOfferBlocks` is a run that shows all three.
- `internal/fhe/argmin_circuit.go:78-80` says ties resolve to the lowest index as in the homomorphic step. The mask
  itself gives tied keys equal slots and tends to the exact one-hot exactly when the minimum is unique
  (`MaskTies.TendsToOneHotIff`); only the rider's choice of the first maximum breaks the tie.
- `internal/fhe/argmin_circuit.go:44-45` estimates about degree − 1 levels per iteration; the code uses degree
  levels, as `internal/fhe/mask.go:40-48` says (`Mask.EvalStep`).
- `internal/routing/region.go:46-61` keeps a node that is listed in the set even with the value false; only edges
  need both ends to be true. `Region.IsSlice` follows the code.

## Model

| member | source | states |
|---|---|---|
| SignPolynomial.HornerIsPowerSum | internal/fhe/argmin_circuit.go:140-150 | Horner evaluation equals the sum of coefficient times power, for every coefficient list |
| Majority.TailIncreases | internal/fhe/argmin_circuit.go:113-138 | the probability of at least m successes in n trials strictly increases with the success probability |
| Majority.CubicMajority | internal/fhe/argmin_circuit.go:117-137 | the degree-3 polynomial is twice the probability that a majority of three succeeds, minus one |
| Majority.NonicMajority | internal/fhe/argmin_circuit.go:118-135 | the degree-9 polynomial is twice the probability that a majority of nine succeeds, minus one |
| SignAnalysis.GIsOdd | internal/fhe/argmin_circuit.go:25-28 | both sign polynomials are odd |
| SignAnalysis.GIncreases | internal/fhe/argmin_circuit.go:113-138 | both sign polynomials strictly increase on [-1, 1] |
| SignAnalysis.GKeepsRange | internal/fhe/argmin_circuit.go:25-28 | both map [-1, 1] into itself and keep the sign |
| SignAnalysis.GApproachesOne | internal/fhe/argmin_circuit.go:42-44 | one application shrinks the distance to 1 by the factor 1 - x/2 - x²/2 or better, for both degrees |
| SignAnalysis.ComposeIncreases | internal/fhe/argmin_circuit.go:25-28 | every composition strictly increases on [-1, 1] |
| SignAnalysis.ComposeApproachesOne | internal/fhe/argmin_circuit.go:42-44 | after k compositions the distance to 1 is at most (1 - x)(1 - x/2 - x²/2)^k |
| SignAnalysis.StepSymmetry | internal/fhe/argmin_circuit.go:21-28 | step(x) + step(-x) = 1 for every degree and iteration count |
| SignAnalysis.StepAtZero | internal/fhe/mask.go:100-102 | the self comparison is exactly one half for every degree and iteration count |
| SignAnalysis.StepIncreases | internal/fhe/argmin_circuit.go:155-165 | the soft step strictly increases on [-1, 1] |
| SignAnalysis.StepSeparates | internal/fhe/argmin_circuit.go:21-28 | a comparison lost by at least delta is at most (1 - g^k(delta)) / 2 |
| ArgminCircuit.Fill | internal/fhe/argmin_circuit.go:97-104 | every one of the n slots holds the value |
| ArgminCircuit.Inputs | internal/fhe/argmin_circuit.go:58-74 | the three rows are the keys, zeros, and the leading coefficient in every slot |
| ArgminCircuit.Expected | internal/fhe/argmin_circuit.go:76-95 | the one-hot of the lowest-index minimum; empty for no keys |
| ArgminCircuit.PolyEval | internal/fhe/argmin_circuit.go:140-150 | the loop computes the polynomial's value, zero for no coefficients |
| SignPolynomial.StepByCount | internal/fhe/argmin_circuit.go:50-56 | below one the soft step uses one composition, else exactly the given count |
| SignPolynomial.ComposeAdds | internal/fhe/argmin_circuit.go:152-165 | composing no times is the identity, once the polynomial, and j times after k times j + k times |
| ArgminCircuit.OneCompositionAtLeast | internal/fhe/argmin_circuit.go:50-56 | every iteration count below one gives the mask of a single composition |
| ArgminCircuit.PlaintextStep | internal/fhe/argmin_circuit.go:152-165 | half of one plus the polynomial for an iteration count below one, and of one plus that many compositions otherwise |
| ArgminCircuit.PlaintextMask | internal/fhe/argmin_circuit.go:167-184 | slot i is the product of the steps of all other keys against key i, an iteration count below one being read as one |
| Mask.ContextHandle.EvalMult | internal/fhe/CALIBRATION.md:17-23 | slotwise product, one level deeper than the deeper operand, refused exactly when that exceeds the depth |
| Mask.ContextHandle.EvalSubConst | internal/fhe/CALIBRATION.md:17-23 | slotwise difference with a public vector at no level |
| Mask.CeilLog2IsLeast | internal/fhe/mask.go:46 | the number of pairing rounds is the least k with n at most 2^k |
| Mask.HornerEval | internal/fhe/mask.go:151-173 | the polynomial's value in every slot although zero coefficients are skipped, at exactly degree levels and multiplications |
| Mask.EvalStep | internal/fhe/mask.go:104-149 | the soft step in every slot although the seed is rebuilt; succeeds exactly when d·k + 1 more levels fit |
| Mask.PairUp | internal/fhe/mask.go:184-196 | one round keeps the slotwise product, pairs up the levels, and fails exactly when some pair does not fit the depth |
| Mask.BalancedProduct | internal/fhe/mask.go:175-199 | for factors at any levels: the balanced tree equals the sequential product, uses n - 1 multiplications, ends at the tree's level, and fails exactly on no factors or when that level exceeds the depth |
| Mask.TreeLevelOfEqual | internal/fhe/mask.go:46-48 | over factors of equal level the tree adds exactly ⌈log2 n⌉ levels |
| Mask.EvalRow | internal/fhe/mask.go:72-90 | one row holds the comparisons of one key with all, exactly 1 on the diagonal, at (9 or 3)·k + 1 levels and multiplications, where k is the iteration count but at least 1; it succeeds exactly when they fit |
| Mask.PinRow | internal/fhe/mask.go:66-89 | pinning replaces the self comparison by exactly 1 and changes no other slot |
| Mask.PinnedProduct | internal/fhe/mask.go:92-97 | with the diagonal pinned the product over all rows is the product over the other keys |
| Mask.Eval | internal/fhe/mask.go:37-98 | the result is slot for slot the plaintext mask at k compositions, k being the iteration count but at least 1; its level is (9 or 3)·k + 1 + ⌈log2 n⌉ after n((9 or 3)·k + 1) + n - 1 multiplications; it fails exactly for fewer than two keys, fewer than three inputs or too little depth |
| MaskProperties.MaskRanksKeys | internal/fhe/argmin_circuit.go:15-23 | a key is smaller exactly when its slot is larger, and equal exactly when the slots are equal |
| MaskProperties.WinnerIsFirstMin | internal/fhe/argmin_circuit.go:76-95 | an index is the mask's first maximum exactly when it is the keys' first minimum, for every cohort, degree and iteration count |
| MaskProperties.MaskIsSubDistribution | internal/fhe/argmin_circuit.go:167-184 | every slot lies in [0, 1] and the slots sum to at most one |
| MaskProperties.OnlyOneSlotAboveHalf | internal/fhe/argmin_circuit.go:167-184 | of any two slots at least one is at most one half |
| MaskProperties.MaskErrorBound | internal/fhe/argmin_circuit.go:76-95 | with the minimum separated by delta every slot is within (n - 1)(1 - g^k(delta)) / 2 of the exact one-hot |
| MaskProperties.MaskConverges | internal/fhe/argmin_circuit.go:42-45 | an explicit iteration count brings every slot within any tolerance of the exact one-hot |
| MaskProperties.CohortErrorVanishes | internal/fhe/argmin_circuit.go:42-45 | that iteration count brings the error bound itself below the tolerance, for both degrees |
| MaskTies.MaskTendsToLimit | internal/fhe/argmin_circuit.go:76-95 | with t tied minima an explicit iteration count brings each of their slots within any tolerance of 2^-(t-1) and every other slot of 0 |
| MaskTies.TendsToOneHotIff | internal/fhe/argmin_circuit.go:76-95 | the mask tends to the exact one-hot of the first minimum exactly when the minimum is unique |
| GhostRider.Winner | internal/ghost/rider_openfhe.go:49-65 | the lowest index holding the maximum, and -1 exactly when there are no masks |
| RoadGraph.DefaultSpeeds | internal/routing/roadclass.go:24-58 | exactly the fourteen listed tags are drivable, a link road counts as its class, and each class has its default speed |
| RoadGraph.OutEdgesExact | internal/routing/graph.go:21-26 | the specified index lists exactly the edges leaving a node, each once, in ascending order |
| RoadGraph.AppendKeepsIndex | internal/routing/graph.go:56-60 | appending an edge and its index keeps the adjacency exact |
| RoadGraph.IndexUnique | internal/routing/graph.go:22-26 | the edge list determines the adjacency map |
| RoadGraph.Graph.constructor | internal/routing/graph.go:28-31 | a new graph is empty and well formed |
| RoadGraph.Graph.AddNode | internal/routing/graph.go:33-36 | files the node under its id and changes nothing else |
| RoadGraph.Graph.AddEdge | internal/routing/graph.go:38-54 | appends the edge and, unless oneway, its reverse behind it, with the distance of the ends as length and the default speed for a speed that is not positive; nothing when an end is unknown; the graph stays well formed |
| RoadGraph.Graph.Add | internal/routing/graph.go:56-60 | appends one edge and keeps the index exact |
| SearchState.RelaxKeepsParents | internal/routing/astar.go:45-51 | rewriting parents, even of closed nodes, keeps the parent relation acyclic and every score at least its parent's score plus the edge |
| SearchState.RelaxKeepsQueue | internal/routing/astar.go:46-51 | with lazy deletion the queue keeps a current entry for every unexpanded scored node |
| SearchState.RelaxKeepsBounds | internal/routing/astar.go:45-51 | relaxing never loses the bound of a score against all walks, up to the slack |
| SearchState.SpeedsMakeConsistent | internal/routing/astar.go:57-59 | an edge speed bound makes the heuristic consistent, up to the slack |
| SearchState.Frontier | internal/routing/astar.go:31-38 | every walk to an unexpanded node passes a queued node whose score is bounded by the walk so far |
| SearchState.PoppedIsBounded | internal/routing/astar.go:31-38 | the popped node's score is within the slack of every walk to it |
| SearchState.ExhaustedIsClosed | internal/routing/astar.go:30-54 | when the queue is empty every node an open walk reaches has been scored |
| AStar.Min | internal/routing/astar.go:80-84 | returns a queued entry with the least estimate |
| AStar.Expand | internal/routing/astar.go:38-52 | expanding a node keeps the whole search invariant |
| AStar.Visit | internal/routing/astar.go:31-52 | one turn of the loop keeps the invariant and decreases the unseen nodes, or else the queue |
| AStar.Explore | internal/routing/astar.go:30-55 | the loop ends, and reports success exactly when the destination can be reached |
| AStar.AStar | internal/routing/astar.go:11-55 | for all non-negative weights: ok exactly when an open walk exists; the path is an open walk whose length and time are exactly those returned; no returned time exceeds slack times the minimum when no open edge beats slack times 140 km/h |
| AStar.CollectOne | internal/routing/astar.go:64-69 | following a parent prepends its edge and gets strictly closer to the start |
| AStar.Reconstruct | internal/routing/astar.go:61-72 | reading parents ends at the start, on an open walk with the accumulated length and time |
| AStarLimits.NeverOverestimatesIff | internal/routing/astar.go:8-9 | the heuristic is at most the time of every open walk exactly when no open edge is driven faster than 140 km/h |
| AStarLimits.FastRoadsDefeatTheSearch | internal/routing/astar.go:8-13 | for every metric, two points apart, limit c and factor f below c: a free-flow graph in that metric within the limit on which the search returns a route, and every route it can return takes more than f times as long as another |
| AStarLimits.SlackIsExact | internal/routing/astar.go:8-13 | in every metric with two points apart: under the limit c · 140 km/h every result of every search is within the factor f of every other route exactly when c is at most f |
| AStarLimits.FastestIff | internal/routing/astar.go:8-13 | in every such metric: under the limit c · 140 km/h every result of every search is a fastest route exactly when c is at most 1 |
| SearchRuns.ReachedInv | internal/routing/astar.go:30-53 | every state any run of the search can reach satisfies the search invariant |
| SearchRuns.ReturnsAtMost | internal/routing/astar.go:32-34 | whatever any run can return is within the slack of every open walk |
| Customization.Customize | internal/routing/customize.go:37-54 | each edge gets its time under the metric, parallel to the edges: closed, stopped, or base time over the multiplier |
| Customization.OpenEdgeTime | internal/routing/customize.go:22-54 | an edge is open exactly when it is not closed and its multiplier (its own, else its class's, else 1) and speed are positive; its time at speed times multiplier then covers its length |
| Customization.WeightsNonNegative | internal/routing/customize.go:37-54 | customized times are never negative |
| Customization.SpeedBoundIsSpeedLimit | internal/routing/astar.go:8-9 | the search's speed bound holds exactly when speed times multiplier is at most 140 km/h on every open edge of positive length (or the slack times that) |
| MetricCodec.ScanFormatted | internal/routing/customize.go:108-118 | scanning reads back every formatted 64-bit integer and stops right behind it |
| MetricCodec.ParseUndoesFormat | internal/routing/customize.go:108-118 | parsing undoes formatting for all signed 64-bit end points |
| MetricCodec.FormatIsInjective | internal/routing/customize.go:108-110 | different edge keys have different strings |
| KeyStrings.DecimalNumeral | internal/routing/customize.go:108-110 | numerals are decimal: single digits for numbers below ten, a last digit appended for 10n + d, a leading minus sign for negatives |
| KeyStrings.DecimalValue | internal/routing/customize.go:112-118 | a digit read behind others multiplies by ten and adds its value |
| KeyStrings.BlanksAreWhiteSpace | internal/routing/customize.go:112-118 | the blanks a number may follow are the white space ranges, newlines excepted |
| KeyStrings.ScanIff | internal/routing/customize.go:112-118 | scanning yields v and leaves a rest exactly when blanks, an optional sign and all the leading digits spell v within 64 bits |
| KeyStrings.EkParseIff | internal/routing/customize.go:112-118 | a string is read as a key exactly when it is a numeral for its from end, a colon directly behind it, a numeral for its to end, and anything not continuing that numeral |
| KeyStrings.SkippedIff | internal/routing/customize.go:93-118 | a string is skipped exactly when no such decomposition exists, for any key |
| KeyStrings.DecimalPairIsRead | internal/routing/customize.go:112-118 | the digits of any two 64-bit numbers, each with an optional minus sign, around a colon are read as the edge from the first to the second |
| KeyStrings.KeyIsWritten | internal/routing/customize.go:108-110 | a key is written with its from end first: scanning its string yields that end, a colon, the other end and nothing more |
| MetricCodec.MarshalJSON | internal/routing/customize.go:56-76 | the message carries every multiplier and exactly the edges that are closed |
| MetricCodec.UnmarshalJSON | internal/routing/customize.go:78-106 | what decoding leaves in a receiver, malformed keys skipped and absent tables not replaced |
| MetricCodec.CodecPreservesMeaning | internal/routing/customize.go:56-106 | decoding an encoded metric restores its meaning exactly when the receiver held nothing the message leaves standing |
| MetricCodec.SameWeightsIff | internal/routing/customize.go:22-54 | two metrics re-weight every graph alike exactly when on every key and class both stop it or both give the same multiplier |
| MetricCodec.CodecPreservesWeightsIff | internal/routing/customize.go:37-106 | decoding restores the weights of every graph exactly when, key by key and class by class, nothing the receiver keeps changes what the metric does |
| MetricCodec.StaleMayBeHarmless | internal/routing/customize.go:37-106 | a stale multiplier on an edge the metric closes changes no weight |
| MetricCodec.SameMeaningSameWeights | internal/routing/customize.go:22-54 | metrics that differ only in closures marked false re-weight every graph alike |
| MetricCodec.FreshRoundTrip | internal/routing/customize.go:56-106 | into an empty receiver the round trip re-weights every graph alike |
| MetricCodec.StaleClosureSurvives | internal/routing/customize.go:97-104 | an all-clear message leaves an earlier closure standing |
| Region.InsertById | internal/routing/region.go:21 | insertion keeps the list ascending and adds exactly that node |
| Region.Serialize | internal/routing/region.go:13-23 | the wire form lists exactly the graph's nodes by ascending id, and its edges in order |
| Region.Deserialize | internal/routing/region.go:25-41 | the decoded graph has the listed nodes and edges and an exact index |
| Region.CodecRoundTrip | internal/routing/region.go:13-41 | decoding an encoded graph restores nodes, edges and adjacency exactly |
| Region.EncodingIsDeterministic | internal/routing/region.go:15-21 | the encoding does not depend on the order in which nodes are collected |
| Region.Slice | internal/routing/region.go:43-61 | the slice has the kept known nodes, the kept edges in their order and an exact index, and is well formed |
| Region.SliceEdgesExact | internal/routing/region.go:46-61 | an edge is in the slice exactly when it is in the graph and both its ends are marked true |
| Region.SliceWeights | internal/routing/customize.go:39-54 | customizing a slice is restricting the customized whole to the kept edges |
| Region.LiftedWalk | internal/routing/region.go:43-61 | every walk of a slice is a walk of the whole graph of the same time |
| Region.LoweredWalk | internal/routing/region.go:43-61 | every walk of the whole graph that stays inside the kept set is a walk of the slice of the same time |
| Region.SlicePreservesCost | internal/routing/region.go:43-61 | of the least times on a slice and on the whole graph, where both exist, the slice's is never below, and they are equal exactly when some optimum stays inside |
| Region.SliceKeepsBounds | internal/routing/region.go:43-61 | slicing keeps straight lengths, the speed bound and non-negative weights, so the search stays optimal on a slice |
| Osm.PatchRefs | internal/routing/osm.go:47-49 | writes the ref in place into exactly the new edges, keeping the index |
| Osm.AddPair | internal/routing/osm.go:38-49 | adds exactly the roads of a located pair, and nothing for an unlocated one |
| Osm.AddWay | internal/routing/osm.go:32-50 | adds a way's located nodes and its roads in order |
| Osm.BuildGraph | internal/routing/osm.go:24-53 | the nodes are the located nodes of drivable ways and the edge list is exactly what those ways describe, in order |
| Osm.RoadsAreDescribed | internal/routing/osm.go:24-53 | an edge is in the list exactly when some drivable way describes it between two consecutive located nodes |
| Osm.RoadsInOrder | internal/routing/osm.go:24-53 | the roads of more ways come behind those of the earlier ones, in order and with repetitions |
| Osm.SplitWay | internal/routing/osm.go:38-50 | splitting a way at any of its nodes leaves the road list as it is |
| Osm.RoadsOfTwo | internal/routing/osm.go:38-50 | a way of two located nodes is its road followed, unless it is oneway, by the road back |
| Osm.BuiltLengthsAreStraight | internal/routing/graph.go:49 | every edge length is the distance of its ends in the final graph, even if nodes were added again later |
| Osm.OrdinaryGraphsMeetTheBound | internal/routing/astar.go:8-9 | if no way is signed above 140 km/h and no multiplier exceeds 1, the built graph meets the search's speed bound |
| Journey.FastestRoute | internal/routing/osm.go:24-53 | building, customizing and searching together: a route exactly when one exists, and the fastest one on such input |
| Journey.SliceReaches | internal/routing/region.go:43-61 | a slice joins two nodes exactly when an open route of the whole graph between them stays inside |
| Journey.LeastTime | internal/routing/astar.go:11-55 | re-weighting and searching: a time exactly when there is a route, and the least one within the speed bound |
| Journey.SearchBoth | internal/routing/region.go:43-61 | searching a slice succeeds exactly when an open route stays inside; then the whole search succeeds, its time is never above the slice's, and the two are equal exactly when an optimum stays inside |
| Movement.MoveConserves | internal/movement/actor.go:31-53 | motion uses up exactly the budget or all that is left, never goes back and stays on the track with a fraction below 1 |
| Movement.FreeDistance | internal/movement/actor.go:31-53 | what motion gets for free is at most a millionth of a metre for each segment ahead, and a segment is free exactly when it is shorter than that |
| Movement.MoveComposes | internal/movement/actor.go:31-53 | moving a and then b ends where moving a + b ends |
| Movement.EdgeTakesItsWeight | internal/movement/engine.go:83-95 | at the constant speed length over weight an edge is crossed in exactly its weight's seconds, and proportionally before |
| Movement.Actor.constructor | internal/movement/actor.go:20-23 | a new actor is at the start of its track |
| Movement.Actor.SetTrack | internal/movement/actor.go:25-26 | replaces the track and resets progress |
| Movement.Actor.Advance | internal/movement/actor.go:31-53 | ends where the motion specification ends for the budget dt times speed, and terminates |
| Movement.Actor.LatLng | internal/movement/actor.go:55-68 | the origin without a track, the last node on arrival, else a point that divides the segment in the ratio of the progress |
| Movement.DividesOnce | internal/movement/actor.go:60-68 | only one point divides a segment in a given ratio |
| Movement.PositionOnSegment | internal/movement/actor.go:55-68 | the position is the segment's first node at fraction 0 and lies between both nodes, coordinate by coordinate, at every fraction |
| Movement.PositionReversed | internal/movement/actor.go:55-68 | the position at fraction f of a segment is the position at 1 - f of the reverse segment |
| Movement.PositionSteps | internal/movement/actor.go:55-68 | equal steps of the fraction are equal steps of both coordinates, in proportion to the whole segment |
| MovementEngine.VisitsAreOnRoads | internal/movement/engine.go:45-53 | the nodes of a search route form a walk of the graph between its ends |
| MovementEngine.TracksAreKnown | internal/movement/engine.go:45-64 | a track of more than one node visits nodes of the graph only |
| MovementEngine.EdgeSpeed | internal/movement/engine.go:83-95 | length over weight of the first listed edge to the next node with positive weight; 13.9 without one; 0 on arrival or on a closed edge |
| MovementEngine.FirstEdgeDecides | internal/movement/engine.go:83-95 | the first listed edge to the node that is closed or has positive weight decides, by 0 or by length over weight; without one the speed is 13.9 |
| MovementEngine.Engine.constructor | internal/movement/engine.go:21-29 | knows every node of the graph once, and no actors |
| MovementEngine.Engine.SetWeights | internal/movement/engine.go:31-32 | replaces the weights and keeps the invariant |
| MovementEngine.Engine.Roam | internal/movement/engine.go:45-53 | stops at the first of at most eight draws that is elsewhere and reachable, on a route there; otherwise changes nothing; an actor at rest keeps its position |
| MovementEngine.Engine.Add | internal/movement/engine.go:37-43 | the new actor rests at the start node, or at the origin when the graph lacks it; its cell is recorded and current, the others are untouched |
| MovementEngine.Engine.SetTarget | internal/movement/engine.go:55-64 | a reachable target puts the actor on a route from its current node; otherwise, or for an unknown name, nothing changes |
| MovementEngine.Engine.MoveActor | internal/movement/engine.go:68-73 | the actor ends at its landing place at the current edge speed, or at the last node of its track |
| MovementEngine.Engine.TickActor | internal/movement/engine.go:68-79 | moves the actor, records the cell of its last node on arrival and else of the point dividing its segment in the ratio of its progress, and reports it exactly when it changed |
| MovementEngine.Engine.Tick | internal/movement/engine.go:66-81 | in any order every actor lands where its speed leads, all tracks stay walks of the graph, every recorded cell is that of the last node on arrival and else of the point dividing the segment in the ratio of the progress, and replaying the log gives the cells |
| Ticks.TickReachesIff | internal/movement/actor.go:31-53 | one tick at any speed leads from a place to another exactly when it covers the distance between them, or all that is left |
| Ticks.KeepsTimeIff | internal/movement/engine.go:66-74 | ticked motion at any speeds is on a route's timetable after every tick exactly when every tick covers the timetable's distance |
| Ticks.KeepsTimeIffSmooth | internal/movement/engine.go:66-95 | with ticks no longer than any segment: exactly when every segment but the last ends with a tick or is followed by one of the same speed |
| Ticks.WholeTicksKeepTime | internal/movement/engine.go:66-95 | whole ticks on every segment but the last keep time, whatever the last one takes |
| Ticks.SameTicksIff | internal/movement/engine.go:68-70 | two speeds on a segment lead alike, from everywhere and for every tick, exactly when they are equal |
| Ticks.ArrivesOnTime | internal/movement/engine.go:66-74 | when the ticks so far cover the timetable's distance, the actor has arrived exactly when the route's time has passed, a fractional last segment included |
| EngineTicks.LandingIsTick | internal/movement/engine.go:68-70 | what the engine aims at for an actor is one tick at the speeds of the first listed positive edges |
| EngineTicks.RunTicks | internal/movement/engine.go:66-81 | j ticks of the engine at constant weights put an actor where those speeds lead, or right on arrival at its track's last node |
| EngineTicks.DriveRoute | internal/movement/engine.go:66-81 | on a route whose timetable the ticks cover, the actor is on the timetable until the route's time has passed, and at the destination right after the tick during which it passes |
| EngineTicks.EngineKeepsTimeIff | internal/movement/engine.go:66-95 | on every planned route, parallel edges or not, the engine keeps the route's timetable exactly when each of its ticks covers the timetable's distance |
| EngineTicks.EngineKeepsTimeIffSmooth | internal/movement/engine.go:66-95 | at matching speeds and ticks no longer than any edge: exactly when every edge but the last ends with a tick or is followed by one of the same speed |
| EngineTicks.DefaultTickIsEarly | cmd/ghostfleet/main.go:23 | at the default tick a free-flow motorway exit of nine seconds is driven in five, so the timetable is not kept |
| EngineTicks.RouteSegments | internal/routing/astar.go:61-72 | the i-th segment of a route's track is its i-th edge, with that edge's length |
| EngineTicks.TicksAsRouteIff | internal/movement/engine.go:83-95 | on a segment the engine ticks as at the route's own time exactly when the first listed positive edge between its nodes has the route edge's speed |
| EngineTicks.NoParallelMatches | internal/movement/engine.go:88-93 | that is so when no other edge joins the two nodes |
| EngineTicks.TotalIsTime | internal/routing/astar.go:64-69 | the edge times add up to the reported seconds |
| OfferPool.RunMirrorsLedger | internal/offerpool/pool.go:40-111 | after every interleaving the pool is part of the clean-up-free ledger and lacks only expired offers |
| OfferPool.RunIsStored | internal/offerpool/pool.go:40-111 | for every ttl and every history the pool is exactly the ledger without the offers that, since they were held, some read at or after, or some sweep after, their expiry has removed |
| OfferPool.HistoryCounts | internal/offerpool/pool.go:40-66 | for a positive ttl the whole history may be counted, not only what followed the hold |
| OfferPool.PurgedByLast | internal/offerpool/pool.go:52-66 | only the times of the last read and the last sweep decide what has been removed |
| OfferPool.ActiveOffersAreLedgers | internal/offerpool/pool.go:52-66 | the active offers are those of the ledger, whenever sweeps and reads happened |
| OfferPool.HeldReturnsLedger | internal/offerpool/pool.go:52-66 | what Held returns is exactly the ledger's active offers |
| OfferPool.CapacityIsKept | internal/offerpool/pool.go:44-46 | no run ever exceeds the capacity, and a negative one stores nothing |
| OfferPool.HoldIsRefusedIff | internal/offerpool/pool.go:44-46 | after every run a hold is refused exactly when active and lingering offers fill the pool; with a slot free of active offers, exactly when lingering ones take all such slots |
| OfferPool.AcceptSucceedsIff | internal/offerpool/pool.go:40-111 | after every run an accept succeeds exactly when its id was held with a slot free and has since been neither accepted away, cancelled, held anew, read at or after its expiry nor swept after it; what is stored is that offer, expiring ttl after its hold |
| OfferPool.ReadingFreesTheSlots | internal/offerpool/pool.go:44-63 | right after a read a hold is refused exactly when the active offers alone fill the pool |
| OfferPool.ExcludedIff | internal/offerpool/pool.go:90-100 | after every run a driver is excluded exactly when one of their offers is active or lingers |
| OfferPool.ExclusionOutlivesOffers | internal/offerpool/pool.go:90-100 | after every run exclusion outlives the driver's active offers exactly when all of theirs have expired and one was missed by the last read and the last sweep |
| OfferPool.ReadAndSweepAgreeIff | internal/offerpool/pool.go:52-111 | a read and a sweep at one instant leave the same pool exactly when no stored offer expires at that instant |
| OfferPool.ExpiredOfferBlocks | internal/offerpool/pool.go:40-111 | a run in which an expired offer refuses a hold and excludes its driver, a sweep at the expiry does not help and a read does |
| OfferPool.Pool.constructor | internal/offerpool/pool.go:30-38 | a new pool is empty |
| OfferPool.Pool.Hold | internal/offerpool/pool.go:40-50 | succeeds exactly when fewer than max offers are stored; then the offer is stored with expiry now + ttl, else nothing changes; the pool is what its history makes of the empty pool |
| OfferPool.Pool.Held | internal/offerpool/pool.go:52-66 | returns exactly the offers that expire after now, each once, and keeps exactly these |
| OfferPool.Pool.Accept | internal/offerpool/pool.go:68-77 | succeeds exactly for a stored id, and then releases everything, else nothing |
| OfferPool.Pool.Cancel | internal/offerpool/pool.go:79-88 | succeeds exactly for a stored id, and then removes exactly that offer, else nothing |
| OfferPool.Pool.Excluded | internal/offerpool/pool.go:90-100 | true exactly when some stored offer, expired or not, is the driver's |
| OfferPool.Pool.Sweep | internal/offerpool/pool.go:102-111 | keeps exactly the offers that do not expire before now |
| Discovery.ContainsIsPrefix | internal/discovery/registry.go:52-63 | containment is the prefix order of the hierarchy for cells of any two resolutions |
| Discovery.WidenIsNextAncestor | internal/discovery/cell.go:30-38 | widening w times leads to the w-th ancestor, and is impossible only at resolution 0 |
| Discovery.WideningKeepsCandidates | internal/discovery/registry.go:40-49 | a wider cell holds every driver the narrower one held |
| Discovery.Inside | internal/discovery/registry.go:52-63 | exactly the drivers whose cell has the same base and continues the digits of the given cell |
| Discovery.ListedSize | internal/discovery/registry.go:40-46 | a list naming each candidate once is as long as there are candidates |
| Discovery.Registry.SetCell | internal/discovery/registry.go:16-23 | records or replaces the driver's cell only |
| Discovery.Registry.Remove | internal/discovery/registry.go:25-30 | forgets that driver only |
| Discovery.Registry.Candidates | internal/discovery/registry.go:40-45 | exactly the drivers inside the cell, each once |
| Discovery.Registry.Discover | internal/discovery/registry.go:32-50 | the tightest of the first maxWiden + 1 ancestors with enough drivers, else the last, with exactly its drivers; runs past resolution 0 exactly when maxWiden exceeds the start's resolution and even the coarsest cell holds too few |
| Rating.NormalizeKeepsRange | internal/rating/bayes.go:7-14 | a normalised rating stays in every range that holds both means |
| Rating.NormalizeApproachesMean | internal/rating/bayes.go:7-10 | exactly how many ratings bring it within a tolerance of the driver's own mean |
| Rating.NormalizeRewardsCount | internal/rating/bayes.go:1-10 | for equal means, more ratings rank higher exactly when the mean is above average |
| Rating.Store.Record | internal/rating/store.go:24-29 | replaces that driver's record only, and keeps a calibrated store calibrated |
| Rating.Store.StarNorm | internal/rating/store.go:31-39 | the global mean for an unknown driver; else the star times confidence plus count is confidence times global mean plus count times own mean, with no number exactly when confidence and count cancel; within [0, 5] in a calibrated store |
| Rating.StarApproachesMean | internal/rating/store.go:31-39 | a recorded driver's star is within a tolerance of their own mean exactly when confidence times the distance of the means is at most the tolerance times confidence plus count |
| Rating.StarRewardsCount | internal/rating/store.go:31-39 | of two recorded drivers with equal means the one with more ratings has the higher star exactly when the mean is above the global mean |
| AuctionKey.PriceDominatesIff | internal/auction/key.go:13-26 | one cent outranks every tiebreak exactly under the documented invariant |
| AuctionKey.StarsDominateIff | internal/auction/key.go:21-26 | penalties a given gap apart outrank every distance exactly when the distance term is below the star weight times the gap |
| AuctionKey.LexicographicIff | internal/auction/key.go:21-29 | the key is lexicographic exactly when distances do not vary and 0 < 5·WStar < K holds with a positive star weight |
| AuctionKey.WithoutDistance | internal/auction/key.go:27-29 | without distances the key embeds the order of price and then penalty, equalities included |
| Session.AcceptedKeepsIndex | internal/session/session.go:75-87 | an accepted bid keeps for good the index it got on arrival |
| Session.AcceptedAreVerified | internal/session/session.go:72-87 | exactly the submissions that verify are held |
| Session.AuctionSession.constructor | internal/session/session.go:53-63 | a new session has no bids and no key |
| Session.AuctionSession.SetRiderPK | internal/session/session.go:65-70 | stores the key and changes nothing else |
| Session.AuctionSession.Star | internal/session/session.go:79-82 | 4.3 without a store, the global mean for an unknown driver, else the mean of the driver's votes and the confidence's; within [0, 5] when the store is calibrated |
| Session.AuctionSession.SubmitBid | internal/session/session.go:72-87 | appends the bid exactly when its signature verifies, with 4.3 as its star without a store, the global mean for an unknown driver, and else the star that balances the driver's record against the global mean |
| Session.AuctionSession.EncodeCGO | internal/session/session.go:106-128 | the vectors are aligned bid by bid with each other and with PseudonymAt, and all distances are zero |
| AuctionOutcome.DefaultWeightsAreLexicographic | internal/session/session.go:24-25 | the default weights make the key lexicographic in price and stars |
| AuctionOutcome.DefaultKey | internal/session/session.go:24-25 | under the default weights the key is 100 times the price in cents plus five minus the stars |
| AuctionOutcome.KeyRanksBids | internal/auction/key.go:21-29 | under all weights with 0 < 5·WStar < K keys order bids by price and then by more stars, equalities included |
| AuctionOutcome.MaskPicksBestBid | internal/auction/key.go:1-12 | for all such weights and every order-preserving scaling into [0, 1] the mask's first maximum is exactly the first lexicographically best bid |
| AuctionOutcome.RunCircuit | internal/ghost/rider_openfhe.go:43-66 | inputs, circuit and rider together return the first minimum of the keys, whenever the depth suffices |
| AuctionOutcome.Decide | internal/session/session.go:96-128 | with keys built from the vectors the session hands over, at its own weights and degree, the pseudonym at the rider's index belongs to the first lexicographically best bid |

## Left out

- Floating point: reals are exact; rounding, overflow, NaN and CKKS noise are not modelled.
- Mask.ContextHandle.EvalSubConst: its error results are not modelled, because they cannot occur on ideal ciphertexts.
- Mask.ContextHandle.EvalMult: the backend (ares-core, OpenFHE) is not part of this model; scaling factors, ring dimension and memory limits are left out.
- Mask.Eval: the inputs are required to be the ideal encryption of the zero and seed rows; the circuit does not read the key row.
- GhostRider.Winner: fetching and decrypting the mask ciphertexts, with their errors, is left out.
- AuctionOutcome.Decide: the session's stars are in range, and the price inside an encrypted bid is a function of the ciphertext.
- AuctionOutcome.MaskPicksBestBid: the scaling of keys into [0, 1] happens outside this repository and may be any order-preserving one.
- AuctionOutcome.RunCircuit: the production auction calls ares-core rather than this circuit; the composition is of the functions as they stand here.
- AStar.AStar: the heap is a bag from which any entry of least estimate is popped, and the search's local variables form one record.
- AStar.Reconstruct: its ghost parameters name the search state the parents come from; the source passes only the maps.
- Haversine trigonometry and H3 geometry: a metric and a prefix hierarchy stand for them.
- Region.Serialize: JSON bytes are a record of lists, and the library sort is an insertion sort.
- MetricCodec.UnmarshalJSON: the receiver is passed and returned as a value; JSON syntax errors are left out.
- Movement.Actor.Advance: a nil track with distance to move, on which the source panics, is excluded.
- MovementEngine.Engine.Add: an empty graph, on which drawing a destination panics, and the cell library's panics are left out.
- EngineTicks.DriveRoute: routes with an edge shorter than a micrometre, or with a weight of zero, are not planned routes; the roaming after an arrival is not part of it.
- AStarLimits.SlackIsExact: factors below one, which no search could meet, are not considered.
- MovementEngine.Engine.Tick: whether a callback is installed is fixed from the start.
- Rating.Store.StarNorm: not-a-number and the infinities are one result without a number.
- Session.AuctionSession.SubmitBid: signature verification is an arbitrary predicate and error texts are left out.
- Goroutines and locks: every locked operation is one atomic step.
- OSM PBF scanning, traffic polling, HTTP handlers, the dashboard, commands and mobile clients: I/O and wiring.
- RunAuction, RunBlindAuction, SignBid, VerifyWinner, SelectCircuitSize and the fixed calibration tables: wrappers or easy members.
