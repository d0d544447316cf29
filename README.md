# Triangular-arbitrage core of rust-exam-code, in Dafny

This project models the sequential core of the triangular-arbitrage bot `rust-exam-code`. Two parts are modelled.

**The startup pipeline.** It turns the configured currencies and the traded pair symbols into ordered triangles:

- The configuration reader collects the base and alt currency sections (`BrainSets`).
- The currency graph gets a node per traded currency and an edge each way per traded pair (`GraphBuild`).
- A depth-first search enumerates the cycles of the graph. The cycles are then canonicalised and de-duplicated (`CycleSearch`).
- The cycles are resolved to pair symbols, and the pair list is split into needed and unneeded pairs (`CyclePairs`).
- Each triangle's pairs are ordered into buy/sell legs by the anchor/leg/pivot/flip assembler (`TriangleAssembly`).

**The per-tick evaluator** (`Brain`). It consists of:

- the last-write-wins price storage;
- the reverse index from pair symbol to triangles;
- the three-leg profit calculation;
- the selection of the most profitable triangle above the rate;
- the warm-up gate that holds evaluation back until every symbol has a price.

The rest of the model:

- `Queue` models the FIFO message queue and `Stack` the per-symbol data map.
- `Text` models the `str` operations the source relies on, and `Decimal` models `BigDecimal` as exact rationals with truncating `with_scale`.
- `Triangle` holds `TriangleKey` and `TriangleElement`, and `Wrappers` holds `Option` and `Result`.

State the source changes in place is imperative Dafny:

- classes `DataStorage`, `Evaluator` and `TwoWayQueue`;
- loop methods for the config readers, `create_graph`, `re_cycles`, `build_immutable_storage`, the DFS, the `react_to_update` loops and `create_symbol_data_map`.

Each method is proved against a specification function or states its postcondition outright. Pure code is modelled as functions and lemmas: `calculate_triangle`, `create_triangles`, `triangle_sorting`, `remove_duplicates`, `find_differences` and `clearing`.

A panic in the source is an explicit error value in the model:

- an `expect` on a bad percentage;
- `unwrap` on a bad price;
- division by zero;
- a missing triangle leg;
- a start node missing from the graph.

Where the code and its description differ, the model follows the code:

- **Missing prices.** A missing price is not skipped. It reads as `"0.0"`, so a triangle with a missing price on a traded leg always ends in a division by zero (`Brain.MissingPriceAborts`).
- **Warm-up gate.** The tick that fills the storage switches to regular mode without evaluating. Only later ticks evaluate (`Brain.Evaluator.OnTick`).
- **Direction flip.** The next direction comes from the *first* remaining pair that mentions the new currency: "SELL" when that pair starts with it, "BUY" when it ends with it (`TriangleAssembly.NextDirection`).
- **Sell-started assembly without an anchor.** When no base currency starts any pair, `current` stays empty. The empty pattern then matches the first pair, and that whole pair symbol becomes `current`. Assembly then stops after one leg unless some remaining pair starts or ends with that whole symbol, as in the three-pair example `TriangleAssembly.SellWithoutAnchor`.
- **Earn formula.** The earn percentage divides by the *final* amount, `(final - 1) / final * 100` (`Brain.Earn`).

## Model

| member | source | states |
|---|---|---|
| BrainSets.Accepted | src/brain_sets/mod.rs:72-94 | the entries of a file are the field lists of its accepted lines, in file order, each with exactly the section's field count |
| BrainSets.ParseBases | src/brain_sets/mod.rs:83-90 | the entries parse exactly when every percentage field parses, and then entry `k` becomes the currency named by its first field with its parsed percentage; the only failure is the invalid-percentage panic |
| BrainSets.ToAlts | src/brain_sets/mod.rs:114-118 | one alt currency per accepted line, named by its single field, in order |
| BrainSets.ReadSettingBaseCurrency | src/brain_sets/mod.rs:65-96 | the line loop with its `inside_section` flag yields exactly `BaseCurrencies(lines)` |
| BrainSets.ReadSettingAltCurrency | src/brain_sets/mod.rs:98-124 | the line loop with its `inside_section` flag yields exactly `AltCurrencies(lines)` |
| BrainSets.InsideAfterAppend | src/brain_sets/mod.rs:72-79 | reading two runs of lines in a row is reading the second in the section state the first leaves |
| BrainSets.AcceptedAppend | src/brain_sets/mod.rs:72-94 | the entries of two runs of lines are those of the first followed by those of the second read in the state the first leaves |
| BrainSets.KindsAppend | src/brain_sets/mod.rs:72-81 | each line is classified on its own |
| BrainSets.ParseBasesErrorPersists | src/brain_sets/mod.rs:84-87 | once a percentage fails to parse, later lines cannot undo the failure |
| BrainSets.BaseErrorPersists | src/brain_sets/mod.rs:84-87 | an unparsable percentage anywhere in the base section fails the whole file |
| BrainSets.InsideAfterIff | src/brain_sets/mod.rs:75-79 | the section is open after some lines if and only if one of them is an open marker and no later one is a close marker |
| BrainSets.ClosedStretchIgnored | src/brain_sets/mod.rs:75-79 | lines before the first open marker contribute nothing and leave the section closed |
| BrainSets.CommentAddsNothing | src/brain_sets/mod.rs:80 | a line whose left-trimmed text starts with ';' never adds an entry |
| BrainSets.StretchEntriesAppend | src/brain_sets/mod.rs:79-92 | the entries of a marker-free stretch grow line by line |
| BrainSets.OpenStretch | src/brain_sets/mod.rs:79-92 | inside an open section, every non-comment line with the right field count is an entry, in order, and the section stays open |
| BrainSets.OpenThenStretch | src/brain_sets/mod.rs:75-92 | an open marker followed by a marker-free stretch adds exactly that stretch's entries |
| BrainSets.CloseThenIgnored | src/brain_sets/mod.rs:77-79 | after a close marker, lines up to the next open marker add nothing |
| BrainSets.ReopenedSection | src/brain_sets/mod.rs:75-79 | a section opened twice collects the entries of both open stretches and nothing in between |
| Text.TrimStartSpec | src/brain_sets/mod.rs:80 | `trim_start` drops exactly the leading whitespace |
| Text.TrimEndSpec | src/brain_sets/mod.rs:75 | `trim_end` drops exactly the trailing whitespace |
| Text.SplitWhitespaceFields | src/brain_sets/mod.rs:81 | every field of `split_whitespace` is a non-empty run of non-whitespace |
| Text.TrimEndMatches | src/brain_sets/mod.rs:85 | `trim_end_matches('%')` keeps a prefix, removes only '%' characters, and leaves no trailing '%' |
| Text.BelowIrreflexive | src/brain/mod.rs:369 | the string order behind `sort_unstable` is irreflexive |
| Text.BelowTransitive | src/brain/mod.rs:369 | the string order is transitive |
| Text.BelowTotal | src/brain/mod.rs:369 | any two strings are equal or ordered one way |
| Text.BelowAsymmetric | src/brain/mod.rs:369 | the string order is asymmetric |
| Decimal.RescaleNonNegative | src/brain/mod.rs:244-246 | `with_scale` on a non-negative amount never raises it, never makes it negative, and loses less than one unit in the last kept digit |
| Decimal.RescaleNegative | src/brain/mod.rs:244-246 | `with_scale` moves a negative amount toward zero and never past it |
| Decimal.RescaleMonotone | src/brain/mod.rs:244-246 | `with_scale` is monotone on non-negative amounts |
| Decimal.ParseDecimal | src/brain/mod.rs:258-260 | unsigned decimal text parses to a non-negative value |
| Decimal.ZeroText | src/brain/mod.rs:258-260 | the fallback text `"0.0"` reads as zero |
| GraphBuild.AddUniqueNode | src/brain/graph.rs:59-73 | a registered value returns its index and leaves the graph and its label untouched; a new value gets a node with the given label ("" for none) at the next index |
| GraphBuild.RegistryAdd | src/brain/graph.rs:65-71 | registering a new node keeps `node_map` an exact index of the new nodes |
| GraphBuild.RegistryDistinct | src/brain/graph.rs:59-73 | nodes added through `node_map` hold distinct values |
| GraphBuild.BaseNodeAdded | src/brain/graph.rs:24-29 | a new "base" node for a paired base currency keeps the first pass's state |
| GraphBuild.AddBaseNodes | src/brain/graph.rs:19-32 | the first pass adds exactly one "base" node per base currency with a traded pair, and no edge |
| GraphBuild.AddEdge | src/brain/graph.rs:50-51 | `add_edge` appends one edge and keeps the rest |
| GraphBuild.GrowKeepsLinks | src/brain/graph.rs:50-51 | growing the graph never loses an edge between two values |
| GraphBuild.AltNodeAdded | src/brain/graph.rs:44-49 | a new "alt" node for a paired alt currency keeps the second pass's state |
| GraphBuild.PairEdgesAdded | src/brain/graph.rs:50-51 | the two edges of a traded pair link it each way and are pair edges |
| GraphBuild.LinkPair | src/brain/graph.rs:37-51 | one traded pair reuses the base node, adds the alt node only if new, and links the two each way |
| GraphBuild.LinkBase | src/brain/graph.rs:35-53 | after the inner loop, every traded pair of this base currency is linked each way |
| GraphBuild.LinkPairs | src/brain/graph.rs:34-54 | the second pass links every traded pair each way, adds only pair edges between new nodes, and never relabels a base node |
| GraphBuild.LinkFinished | src/brain/graph.rs:34-54 | at the end of the second pass the new nodes are distinct, labelled "base" exactly for paired base currencies and "alt" otherwise, and are exactly the currencies of traded pairs |
| GraphBuild.CreateGraph | src/brain/graph.rs:11-57 | the graph is extended with distinct nodes for exactly the currencies of traded pairs. A currency that is also an alt is labelled "base" when it is a paired base currency. Every traded pair gets an edge each way, and every new edge is a pair edge |
| CyclePairs.PairAt | src/brain/graph.rs:83-92 | adjacent currencies resolve to `first+second` when traded, else `second+first` when traded, else nothing, with wrap-around |
| CyclePairs.ReCycles | src/brain/graph.rs:75-99 | one entry per input cycle, each the resolved pair symbols of that cycle |
| CyclePairs.ResolvedBounds | src/brain/graph.rs:82-93 | a cycle yields at most one symbol per entry, each a traded pair |
| CyclePairs.ResolvedComplete | src/brain/graph.rs:82-93 | when every adjacent pair is traded, entry `i` is the pair of `cycle[i]` and its successor |
| CyclePairs.TriangleResolves | src/brain/graph.rs:75-99 | BTC, ETH, USDT resolves to ETHBTC, ETHUSDT, BTCUSDT |
| CyclePairs.Mentioned | src/brain/graph.rs:105-109 | the flattened set holds exactly the symbols of some cycle |
| CyclePairs.Without | src/brain/graph.rs:110-111 | `retain` keeps exactly the elements outside the set |
| CyclePairs.Within | src/brain/graph.rs:110-111 | the complementary filter keeps exactly the elements inside the set |
| CyclePairs.WithoutAppend | src/brain/graph.rs:110-111 | filtering keeps the original order (it distributes over concatenation) |
| CyclePairs.WithoutCounts | src/brain/graph.rs:110-111 | filtering keeps each kept element as often as it occurs |
| CyclePairs.Partition | src/brain/graph.rs:101-132 | the kept and the dropped pairs together are the pair list, counted with multiplicity |
| CyclePairs.WithoutWithin | src/brain/graph.rs:119-132 | filtering by two sets that agree on the list gives the same result |
| CyclePairs.Singletons | src/brain/graph.rs:112-115 | each pair becomes a one-element vector, in order |
| CyclePairs.FindDifferences | src/brain/graph.rs:101-117 | singletons of exactly the clean pairs that no needed cycle mentions |
| CyclePairs.Clearing | src/brain/graph.rs:119-132 | exactly the clean pairs that no diff vector mentions |
| CyclePairs.ClearingKeepsNeeded | src/brain/graph.rs:101-132 | clearing the differences leaves exactly the needed pairs in clean order, and with the differences they partition the pair list |
| CycleSearch.NodesByLabel | src/brain/mod.rs:301-311 | exactly the values of the nodes with the label |
| CycleSearch.GetNodesByLabel | src/brain/mod.rs:297-312 | exactly the values of the graph's nodes with the label |
| CycleSearch.FindNode | src/brain/mod.rs:322-325 | a node holding the value with no earlier node holding it, or none when no node holds it |
| CycleSearch.Neighbors | src/brain/mod.rs:333 | every neighbour is the target of an edge from the node |
| CycleSearch.NeighborsComplete | src/brain/mod.rs:333 | the target of every edge leaving the node is a neighbour |
| CycleSearch.ChildrenMembers | src/brain/mod.rs:343-352 | the entries pushed for a node are exactly its neighbours whose value is not on the path, each with the path extended by that value |
| CycleSearch.AnyHolds | src/brain/mod.rs:332-335 | true if and only if some neighbour holds the value |
| CycleSearch.DistinctBound | src/brain/mod.rs:343-351 | a path without repeats is no longer than the set of node values, which bounds the search |
| CycleSearch.ChildOk | src/brain/mod.rs:343-351 | extending a path by a neighbour not on it keeps it a repeat-free walk from the start |
| CycleSearch.Expand | src/brain/mod.rs:343-352 | the old stack is kept and followed by exactly the pushed entries of the neighbours, in neighbour order; every entry is a repeat-free walk from the start, and the termination measure drops |
| CycleSearch.ExpandCost | src/brain/mod.rs:343-352 | replacing a stack entry by the entries it pushes lowers the termination measure |
| CycleSearch.SearchFrom | src/brain/mod.rs:327-353 | every recorded cycle has depth+1 entries, starts and ends at the start node, repeats nothing among its first depth entries, and follows edges, including back to the start |
| CycleSearch.DepthFirstSearch | src/brain/mod.rs:314-357 | a panic (None) if and only if some start node is not in the graph; otherwise every cycle starts at a start node and is a recorded cycle as above |
| CycleSearch.Insert | src/brain/mod.rs:365-369 | inserting into a strictly sorted list keeps it strictly sorted and adds exactly the element |
| CycleSearch.SortedUnique | src/brain/mod.rs:365-369 | a strictly sorted list of exactly the path's distinct elements |
| CycleSearch.TriangleSorting | src/brain/mod.rs:360-375 | same length; each entry is strictly sorted and holds exactly the elements of the corresponding path |
| CycleSearch.SortedUniqueness | src/brain/mod.rs:365-369 | two strictly sorted lists with the same elements are equal |
| CycleSearch.TriangleSortingIdempotent | src/brain/mod.rs:360-375 | applying `triangle_sorting` twice is applying it once |
| CycleSearch.RemoveDuplicates | src/brain/mod.rs:377-388 | no cycle twice, and a cycle is in the result if and only if it is in the input |
| CycleSearch.RemoveDuplicatesOrder | src/brain/mod.rs:377-388 | the result keeps the order of first occurrences |
| TriangleAssembly.AnchorFrom | src/brain/graph.rs:147-175 | the first base currency in list order that is a non-empty prefix (SELL) or suffix (BUY) of some pair, or "" when none is |
| TriangleAssembly.FirstLeg | src/brain/graph.rs:179-201 | the first pair that ends with (BUY) or starts with (SELL) the current currency, or none when no pair does |
| TriangleAssembly.Pivot | src/brain/graph.rs:215-225 | the other currency of the pair: what precedes `current` when the pair ends with it, else what follows it |
| TriangleAssembly.LegJoins | src/brain/graph.rs:215-225 | a leg's pair is the concatenation of the currencies before and after it |
| TriangleAssembly.NextDirection | src/brain/graph.rs:237-250 | SELL or BUY from the first remaining pair that starts or ends with the new currency; unchanged when no pair mentions it |
| TriangleAssembly.RemoveAt | src/brain/graph.rs:205-208 | exactly the element at the index is removed and the others keep their order |
| TriangleAssembly.CreateTriangles | src/brain/graph.rs:137-253 | the accumulator is kept and extended by at most one leg per pair; recursion ends because the pair list shrinks |
| TriangleAssembly.FirstCall | src/brain/graph.rs:144-233 | no pairs returns the accumulator and current unchanged; a leg is added if and only if some pair continues from the anchor, and the first new leg is the first such pair in the current direction |
| TriangleAssembly.LegsStep | src/brain/graph.rs:231-252 | one leg taken from the pairs plus legs taken from the rest are legs taken from the pairs |
| TriangleAssembly.LegsChain | src/brain/graph.rs:144-252 | the new legs form one chain from the anchor currency: each pair continues, in its direction, from the currency the previous leg landed on |
| TriangleAssembly.ChainStep | src/brain/graph.rs:202-252 | a leg that fits the current currency, followed by legs chaining from where it lands, chains from that currency |
| TriangleAssembly.LegsFromPairs | src/brain/graph.rs:137-253 | every new leg is one of the input pairs, no pair is used twice, and every leg is a BUY or a SELL |
| TriangleAssembly.BuyTriangleLast | src/brain/graph.rs:179-238 | from ETH, selling ETHUSDT ends on USDT |
| TriangleAssembly.BuyTriangleMiddle | src/brain/graph.rs:179-252 | from BTC, buying ETHBTC and then selling ETHUSDT ends on USDT |
| TriangleAssembly.BuyAnchor | src/brain/graph.rs:161-173 | USDT anchors a buy-started search over BTCUSDT, ETHBTC, ETHUSDT |
| TriangleAssembly.BuyFirstLeg | src/brain/graph.rs:183-197 | BTCUSDT is the first pair ending with USDT |
| TriangleAssembly.BuyPivot | src/brain/graph.rs:221-222 | buying BTCUSDT from USDT lands on BTC |
| TriangleAssembly.BuyNextDirection | src/brain/graph.rs:241-250 | ETHBTC ends with BTC, so the next leg buys |
| TriangleAssembly.BuyTriangleFirst | src/brain/graph.rs:144-252 | the first call anchors on USDT and recurses from BTC, buying |
| TriangleAssembly.BuyTriangle | src/brain/graph.rs:137-253 | BTCUSDT, ETHBTC, ETHUSDT from USDT assemble as BUY BTCUSDT, BUY ETHBTC, SELL ETHUSDT, ending on USDT |
| TriangleAssembly.SellNoAnchor | src/brain/graph.rs:148-160 | USDT starts none of the pairs, so a sell-started search finds no anchor |
| TriangleAssembly.SellFirstLeg | src/brain/graph.rs:183-197 | the empty current matches the first pair |
| TriangleAssembly.SellStuck | src/brain/graph.rs:215-250 | from the whole pair BTCUSDT no remaining pair continues |
| TriangleAssembly.SellWithoutAnchor | src/brain/graph.rs:144-253 | a sell-started search with no anchoring base currency records one leg and ends with the whole pair as current |
| Brain.DataStorage.constructor | src/brain/mod.rs:33-37 | the storage starts empty |
| Brain.DataStorage.Insert | src/brain/mod.rs:39-42 | the last write for a symbol wins, and the count grows only for a new symbol |
| Brain.DataStorage.Count | src/brain/mod.rs:44-46 | the number of distinct symbols stored |
| Brain.Price | src/brain/mod.rs:258-260 | a missing price reads as zero; a price is an error exactly when its text does not parse |
| Brain.Trade | src/brain/mod.rs:266-285 | SELL multiplies and BUY divides; a non-negative result is at most the exact value and within one unit of the 10th fractional digit below it; any other direction leaves the amount; only a BUY at price zero fails |
| Brain.RescaleNonNegativeIf | src/brain/mod.rs:244-246 | truncation of a non-negative amount stays within one unit in the last digit |
| Brain.Earn | src/brain/mod.rs:288-292 | the earn formula fails exactly when the final amount is zero |
| Brain.EarnBounds | src/brain/mod.rs:288-292 | a positive final amount earns under 100 percent; from the starting unit up it earns nothing negative, and below it nothing positive (a loss under 0.01 percent truncates to 0) |
| Brain.FinalAmount | src/brain/mod.rs:248-285 | the three legs trade exactly when there are three legs, every price parses and no leg buys at price zero; the result is one unit traded through leg 1 in the key's direction and legs 2 and 3 in their own |
| Brain.CalculateTriangle | src/brain/mod.rs:248-295 | fewer than three legs is an error; it succeeds exactly when the legs trade and the final amount is not zero, and then returns that amount and its earn |
| Brain.FirstLegUsesKey | src/brain/mod.rs:254 | the stored direction of the first leg is ignored; the key's direction is used |
| Brain.ZeroStays | src/brain/mod.rs:266-285 | a leg on a zero amount keeps it zero or fails |
| Brain.ZeroPriceEmpties | src/brain/mod.rs:266-285 | a traded leg at price zero leaves nothing or fails |
| Brain.MissingPriceAborts | src/brain/mod.rs:258-292 | a triangle with a missing price on any traded leg always aborts |
| Brain.NoTradeNoEarn | src/brain/mod.rs:263-294 | with no SELL or BUY leg the unit comes back unchanged and earns 0 |
| Brain.EarnOfUnit | src/brain/mod.rs:288-292 | ending with the starting unit earns 0 |
| Brain.EarnMeansGain | src/brain/mod.rs:263-294 | a positive earn on a positive final amount means more than the starting unit came back |
| Brain.Matching | src/brain/mod.rs:99-104 | exactly the triangles whose a, b or c is the symbol, with their legs |
| Brain.UniqueSymbols | src/brain/mod.rs:123-128 | exactly the symbols some triangle names |
| Brain.BuildImmutableStorage | src/brain/mod.rs:94-110 | a symbol has an entry if and only if some triangle names it, and the entry is exactly its matching triangles |
| Brain.InsertByEarn | src/brain/mod.rs:218 | inserting into a descending list keeps it descending and adds exactly the element |
| Brain.SortedHead | src/brain/mod.rs:218-220 | the head of a descending list earns the most |
| Brain.ConsSorted | src/brain/mod.rs:218 | a head earning at least the tail keeps the list descending |
| Brain.SortByEarn | src/brain/mod.rs:218 | the sort is descending by earn and a permutation |
| Brain.SortedHeadIsBest | src/brain/mod.rs:218-220 | `data_vec.first()` is one of the candidates and earns at least as much as every one |
| Brain.SymbolPriceMap | src/brain/mod.rs:182-196 | exactly the stored prices of the symbols the triangles name |
| Brain.CandidateOf | src/brain/mod.rs:204-208 | the queued record carries the triangle's key, final amount and earn |
| Brain.ProcessedStep | src/brain/mod.rs:198-211 | handling one more triangle keeps the loop's invariant |
| Brain.EnqueueQualifying | src/brain/mod.rs:198-211 | a failure if and only if some triangle's calculation fails; otherwise exactly the candidates earning at least the rate are added, and the queue only grows |
| Brain.Drain | src/brain/mod.rs:213-216 | the queue moves into the vector in order and ends empty |
| Brain.ReactToUpdate | src/brain/mod.rs:174-242 | nothing for a symbol no triangle names; a failure exactly when some calculation fails; otherwise the queue ends empty, and something is emitted exactly when a candidate reached the rate (or was already queued), namely one earning at least as much as every other |
| Brain.SeenGrows | src/brain/mod.rs:149-151 | one more tick adds its symbol to the distinct symbols and never lowers their count |
| Brain.Evaluator.constructor | src/brain/mod.rs:112-130 | the count and the rate are stored, the reverse index is built from the triangles' symbols, and the gate starts filling |
| Brain.Evaluator.OnTick | src/brain/mod.rs:148-165 | every tick is stored first; below the count it waits; the tick reaching the count switches to regular mode without evaluating; later ticks evaluate, and for an indexed symbol a successful evaluation empties the candidate queue and emits exactly when a candidate was queued or reaches the rate, namely one earning at least as much as every queued or qualifying candidate; regular mode never reverts |
| Queue.TwoWayQueue.constructor | src/queue/mod.rs:16-21 | the queue starts empty |
| Queue.TwoWayQueue.Push | src/queue/mod.rs:23-27 | `push_front` adds the value in front and keeps the rest in order |
| Queue.TwoWayQueue.Pop | src/queue/mod.rs:29-35 | on a non-empty queue, `pop_back` returns the oldest value and removes exactly it |
| Queue.PushAll | src/queue/mod.rs:23-27 | pushing several values lengthens the deque by exactly that many; which values and in which order is `Queue.Fifo` |
| Queue.Drain | src/queue/mod.rs:29-35 | popping until empty returns as many values as were queued; which values and in which order is `Queue.DrainReverses` |
| Queue.DrainReverses | src/queue/mod.rs:23-35 | values leave from the back, in reverse deque order |
| Queue.Fifo | src/queue/mod.rs:23-35 | values come out in the order they were pushed, after those already queued |
| Queue.DrainPrepend | src/queue/mod.rs:23-35 | a value pushed in front leaves after everything already queued |
| Stack.CreateSymbolDataMap | src/stack/mod.rs:22-51 | one entry per distinct symbol of `pairs`, each `Some((symbol, "some_data"))`, independent of the triangles |

## Left out

- Network, WebSocket, HTTP and Unix-socket I/O, the Tokio runtime, the observer thread and channel, and the concurrency of `DashMap`, `SegQueue`, the atomics, `Mutex` and `Condvar` are left out. The model runs one tick at a time.
- Reading the configuration file is left out: the readers take the file's lines, and a read error (`expect`) is not modelled.
- The `f64` rate round-trip with its `from_f64` fallback is left out. The rate is a given number (`real`).
- BrainSets.ParsePercentage: the percentage is parsed with the decimal grammar of `Decimal.ParseDecimal`, not with `f32` parsing. So the model rejects `1e1`, `inf` and `NaN`, which `.parse::<f32>()` accepts, and keeps the value exact instead of rounding it to `f32`.
- `BigDecimal` precision is left out. Amounts are exact rationals, and `with_scale` truncates toward zero. `from_str` accepts an optional sign, digits and an optional fraction; exponents are not modelled.
- Decimal.ParseDecimal: only a non-negative result for unsigned text is stated; how `from_str` treats exponent and other notations is not modelled.
- Regex metacharacters and the `Regex::new` panic are left out. Patterns are literal prefix and suffix tests on currency symbols.
- Tests for pair validity in `create_graph` and `re_cycles` use the pair symbols only. The `ParsedPairs` templates serve wire parsing, which is not modelled.
- CycleSearch.DepthFirstSearch: only soundness of the recorded cycles is stated. Completeness (that every such cycle is found) is not proved. `Expand` states exactly which entries each step pushes, but no lemma follows them through the whole search.
- CycleSearch.Neighbors: neighbour order is the model's edge order, which stands in for petgraph's unspecified order.
- Brain.ReactToUpdate: which of several candidates with the same highest earn is emitted is not stated. `sort_by` is stable and the evaluation order of the map is unspecified, so it states only that the emitted candidate earns the most.
- Brain.EnqueueQualifying: the triangles are evaluated in an unspecified order. An aborting calculation may leave earlier candidates queued; the source panics at that point anyway.
- The emitted message text, the random id, the timestamp and the write to the socket (`uds_write_to`) are left out. The emitted candidate is the result.
- Stack.CreateSymbolDataMap: the per-symbol `triangle_data` loop is not modelled, because its result is discarded. The `Arc`/`RwLock` wrappers are not modelled either.
- Queue.TwoWayQueue.Pop: the wait on the condition variable for an empty queue becomes the precondition that the queue is non-empty.
- `src/config.rs`, `src/http_server/mod.rs`, `src/websocket_client/mod.rs`, `src/uds_write/mod.rs` and `src/brain/observer.rs` are not part of this model.
