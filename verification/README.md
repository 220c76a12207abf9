# Router-Service core in Dafny

This project models the map-matching and time-attribution core of Router-Service. That core turns the raw trace of a vehicle into an ordered, timestamped and priced route:

- each GPS fix is matched to its nearest road edge;
- every distinct matched edge gets a `(start, end)` timestamp window;
- the matched edges are bridged with their neighbouring edges, and the start and end node of the path are chosen;
- the route-edge table is ordered along the node route returned by the path solver;
- the windows are attached to the table's rows, and the missing ones are filled;
- one segment is built per edge, list-valued way ids are collapsed, and every segment is priced.

The project also models the two MassTransit reply helpers.

One module per source file:

| file | module | source |
|---|---|---|
| `wrappers.dfy` | `Wrappers` | `Option`, `Result` and the Python exceptions the core can raise, as values |
| `edges.dfy` | `Edges` | node ids, timestamps, windows, edge triples, rows of the route-edge table |
| `route_models.dfy` | `RouteModels` | `models/route_models.py` |
| `helpers.dfy` | `Helpers` | `helpers/helpers.py` |
| `time.dfy` | `Time` | `helpers/time.py` (and its verbatim copy in `services/calculator.py:13-35`) |
| `calculator.dfy` | `Calculator` | `services/calculator.py` |
| `pricer.dfy` | `Pricer` | `services/pricer.py`, `models/vehicle.py`, `models/price_model.py` |
| `masstransit_consumer.dfy` | `MassTransit` | `masstransit_consumer.py` |

## Modelling choices

**Errors.** Python exceptions become the `Failure` case of `Result`: a missing dict key (`KeyError`), a missing DataFrame column, a list index out of range, `.group` on a failed regex search, and a missing JSON field. Where a contract names the error, it is the error of the lookup the source makes first, so the order of the lookups is part of that contract. These contracts name the error:

- `Helpers.SegmentAt` and `Helpers.CollapseWayId`;
- `Calculator.RouteEnds`, `Calculator.Step`, `Calculator.FillMissingFirst`, `Calculator.FillMissingLast` and `Calculator.FillStopsAtMapLength`;
- `Time.MatchTimestamps`, `Time.FillFirstRun`, `Time.FillRunEnds`, `Time.FillRuns` and `Time.FillTimestampsByRuns`;
- `MassTransit.GetExchangeName` and `MassTransit.CreateMassTransitResponse`.

The other failing cases of the propagate-based filler (`Calculator.FillSpec`, `Calculator.FillLongGap`) state only that the fill fails.

**State.** Code that mutates in place is written as methods on the state it changes:

- `Route` is a class whose `segments` sequence the methods reassign;
- the two timestamp fillers, `propagate_nearest_timestamp`, `fill_edge_gaps`, the order column of `get_sorted_route_df`, `remove_way_id_lists` and `calculate_price` are loops;
- each method is proved equal to a specification function, or to its own characterising contract.

**Two timestamp fillers.** The source has two, and they are modelled separately.

- The run-based filler in `helpers/time.py` is `Time.FillTimestampsByRuns`.
- The propagate-based filler in `services/calculator.py` is `Calculator.FillTimestamps`, specified by `Calculator.FillSpec`. This is the one the route pipeline calls, with the row count as an exclusive bound.

**Inputs.** The graph, geometry and clock are inputs:

- `in_edges` and `out_edges` are functions from a node to its `(u, v)` pairs;
- the subgraph's edge rows are a sequence of `EdgeRow`;
- the node table is a map from node id to `Position`;
- `get_halfway_time` is a function parameter;
- the route id that `uuid.uuid4()` draws is a parameter.

**Names.** `get_first_occurrence_index` (the name `time.py` and `calculator.py` import) is `get_first_occurrence_indexes` (the name `helpers.py` defines). `helpers.py` builds `Node(id=...)` and `Way(id=...)`, but both models declare the required field `osmid` and no `id`. As written, pydantic rejects both constructions for the missing `osmid`, so `generate_formatted_route` raises on its first segment. The model follows the evidently intended mapping: `id` is stored as `osmid`.

## Model

| member | source | states |
|---|---|---|
| Time.ReversedFirstOccurrence | src/router_service/helpers/time.py:11 | the k-th first-occurrence index `j` of the reversed edge list marks, in the list itself, the last occurrence of the k-th edge in order of last appearance, at position `len - 1 - j` |
| Time.StartAndEndTimes | src/router_service/helpers/time.py:9-18 | exactly one window per distinct matched edge |
| Time.StartAndEndTimesFirstSeen | src/router_service/helpers/time.py:10-18 | the second component of window k is the timestamp at the first occurrence of the k-th distinct edge, in order of first appearance |
| Time.StartAndEndTimesReversedIndex | src/router_service/helpers/time.py:11-18 | the first component of window k is the timestamp at index `j`, the k-th first-occurrence index of the reversed list, applied to the unreversed coordinates |
| Time.StartAndEndTimesExample | src/router_service/helpers/time.py:9-18 | edges `[A, A, B]` with timestamps `T0, T1, T2` give `[(T0, T0), (T1, T2)]` |
| Time.IndexOf | src/router_service/helpers/time.py:27 | `list.index` returns the position of the first occurrence |
| Time.MatchTimestamps | src/router_service/helpers/time.py:21-31 | keys are exactly the rows whose `(u, v, key)` is a matched edge; each value is the window at that triple's first position; an index past the window list is an uncaught index error, which cannot happen when there are at least as many windows as matched edges |
| Time.MissingRanges | src/router_service/helpers/time.py:38-48 | the recorded runs partition the missing indexes of `[0, h)` into maximal runs of consecutive integers, in ascending order |
| Time.RunOf | src/router_service/helpers/time.py:38-48 | every maximal missing run of `[0, h)` is one of the recorded runs |
| Time.RunsEmpty | src/router_service/helpers/time.py:52 | there are no runs exactly when no index of `[0, h)` is missing, so `missing_ranges[0]` fails |
| Time.RunsPrefix | src/router_service/helpers/time.py:52-56 | the only run starts at 0 exactly when index 0 is missing and every later missing index follows it, so `missing_ranges[-1]` fails after the pop |
| Time.RunsOpenEnd | src/router_service/helpers/time.py:61-71 | the last index is missing and has no successor window exactly when the last run ends at `h - 1` and `h` is not a key |
| Time.RunsFailure | src/router_service/helpers/time.py:52-71 | the three failure conditions restated over the runs, and every run but an open last one is followed by a window |
| Time.FillFirstRun | src/router_service/helpers/time.py:52-55 | a run at 0 receives verbatim the window right after it, which must exist |
| Time.FillRunEnds | src/router_service/helpers/time.py:63-67 | the copying loop over one interior run: it fails with a key error on the index after the run exactly when that index has no window and the run has more than one cell; otherwise it leaves the middle cell of an odd run (or nothing) and the map after `len(run) // 2` inward passes |
| Time.FillRun | src/router_service/helpers/time.py:61-71 | an interior run is filled inward: first half from the window before it, second half from the window after it, and an odd middle joins both; nothing outside the run changes; a missing window after the run is a key error |
| Time.FillRuns | src/router_service/helpers/time.py:61-71 | the loop over the remaining runs fills every one of them, or fails with key error `h` on an open last run |
| Time.AllRunsFilled | src/router_service/helpers/time.py:52-71 | once every run is filled, every missing index has exactly the window that the run rule gives it |
| Time.FillTimestampsByRuns | src/router_service/helpers/time.py:34-74 | fails exactly when nothing is missing, only a prefix is missing, or the end is open (an index error, or key error `h`); otherwise keeps every window and fills exactly `[0, h)`; the end-run block is unreachable |
| Helpers.RemoveDuplicates | src/router_service/helpers/helpers.py:11-20 | the result has no duplicates and the same elements as the input, and is no longer than it |
| Helpers.RemoveDuplicatesOfDistinct | src/router_service/helpers/helpers.py:11-20 | a duplicate-free list is returned unchanged |
| Helpers.RemoveDuplicatesIdempotent | src/router_service/helpers/helpers.py:11-20 | deduplicating twice is deduplicating once |
| Helpers.FirstOccurrences | src/router_service/helpers/helpers.py:23-37 | the increasing list of exactly the positions whose element does not occur earlier |
| Helpers.GetFirstOccurrenceIndexes | src/router_service/helpers/helpers.py:23-37 | the loop with its `seen` set computes exactly those positions |
| Helpers.PickFirstOccurrences | src/router_service/helpers/helpers.py:11-37 | reading the list at its first-occurrence positions gives its deduplication |
| Helpers.DistinctCountOfReverse | src/router_service/helpers/time.py:10-11 | the reversed list has as many distinct elements as the list, so both index lists have the distinct-count length |
| Helpers.SegmentAt | src/router_service/helpers/helpers.py:58-79 | pass `k` succeeds exactly when both nodes, row `k` and window `k` exist; otherwise it fails with the error of the first failing lookup, in the order start node (`KeyError(route[k])`), next node (`KeyError(route[k + 1])`), row `k` (`IndexError`), window `k` (`KeyError(k)`); the segment runs from `route[k]` to `route[k + 1]` with row `k`'s way, the halfway time of window `k`, and price 0 |
| Helpers.FormattedUpTo | src/router_service/helpers/helpers.py:57-80 | the first `n` passes succeed exactly when each one does, and then give one segment per pass, in order |
| Helpers.GenerateFormattedRoute | src/router_service/helpers/helpers.py:40-81 | a fresh route with the given id and total 0 holding exactly the specified segments, or the first pass's error |
| Helpers.FormattedRouteShape | src/router_service/helpers/helpers.py:57-77 | `len(route) - 2` segments (the last edge is dropped); segment `k` goes from `route[k]` to `route[k + 1]`, and each segment ends at the node the next one starts at |
| Helpers.FormattedSuccessIff | src/router_service/helpers/helpers.py:57-62 | the loop succeeds exactly when every node, row and window it reads exists |
| Helpers.CollapseWayId | src/router_service/helpers/helpers.py:94-95 | a list of ids becomes its first element and a single id stays; an empty list is an index error; nothing else in the segment changes |
| Helpers.FirstEmptyIdList | src/router_service/helpers/helpers.py:93-95 | the first segment whose id list is empty, if there is one |
| Helpers.RemoveWayIdLists | src/router_service/helpers/helpers.py:84-96 | every segment collapsed in place, and the same route returned; on an empty list, an index error after exactly the earlier segments were collapsed; id and total unchanged |
| Helpers.CollapseIdempotent | src/router_service/helpers/helpers.py:93-95 | a second collapse finds no empty list and changes nothing |
| RouteModels.Route.constructor | src/router_service/models/route_models.py:68-78 | missing arguments take the defaults: id, total 0, and an empty list for None |
| RouteModels.Route.AddSegment | src/router_service/models/route_models.py:80-87 | appends exactly one segment at the end and leaves id and total unchanged |
| RouteModels.DefaultIdIsShared | src/router_service/models/route_models.py:68-78 | two routes built without an id have the same id, and both start with no segments |
| Calculator.FirstAnchor | src/router_service/services/calculator.py:66-67 | the first index of the scan range whose successor has a window, with none before it |
| Calculator.Propagate | src/router_service/services/calculator.py:53-72 | unchanged when searching downward or when `index + 1` has a window; otherwise at most one new key, the first gap before a window below `len(map)`, holding that window; unchanged exactly when there is no such window |
| Calculator.PropagateNearestTimestamp | src/router_service/services/calculator.py:53-72 | the start/stop/step loop computes `Propagate` |
| Calculator.Step | src/router_service/services/calculator.py:47-49 | after one pass the index has a window, existing windows are kept, and new keys are the index or a propagated gap; a failure is a `KeyError` on `i - 1` or `i + 1`, and a missing predecessor is reported first |
| Calculator.FillUpTo | src/router_service/services/calculator.py:46-49 | after `n` passes, every index below `n` has a window and the original windows are kept |
| Calculator.Prepare | src/router_service/services/calculator.py:42-45 | the two propagations before the loop only add, at an index `k` above 0 with no key in `[0, k]`, a copy of the window at `k + 1`, and do nothing when 0 has a window |
| Calculator.FillSpec | src/router_service/services/calculator.py:38-50 | on success, every index of `[0, h)` has a window and the given ones are kept |
| Calculator.FillTimestamps | src/router_service/services/calculator.py:38-50 | the mutating loop computes `FillSpec` |
| Calculator.FailureStays | src/router_service/services/calculator.py:46-49 | the first failing pass decides the error |
| Calculator.FillAllPresent | src/router_service/services/calculator.py:42-50 | a map that already covers `[0, h)` comes back unchanged |
| Calculator.FillMissingFirst | src/router_service/services/calculator.py:42-49 | without windows at 0 and -1, the first pass looks up key -1 and fails |
| Calculator.FillMissingLast | src/router_service/services/calculator.py:44-49 | when every key lies below `h - 1`, the fill fails; when the passes before `h - 1` succeed, the error is `KeyError(h)` from the lookup of `h` |
| Calculator.FillSingleGap | src/router_service/services/calculator.py:46-49 | a one-index gap gets the end of the window before it and the start of the window after it |
| Calculator.FillDoubleGap | src/router_service/services/calculator.py:46-72 | a two-index gap: the second index copies the window after the gap, and the first joins its neighbours |
| Calculator.FillLongGap | src/router_service/services/calculator.py:46-72 | a gap of three or more indexes after a window makes the fill fail |
| Calculator.FillStopsAtMapLength | src/router_service/services/calculator.py:56-72 | windows at 0 and 3 with bound 4: the search stops at `len(map) = 2` and the fill fails with key error 2 |
| Calculator.FillBridgesWithinMapLength | src/router_service/services/calculator.py:53-72 | windows at 0, 3, 4 and 5 with bound 4: index 2 copies window 3, and index 1 joins windows 0 and 3 |
| Calculator.Flatten | src/router_service/services/calculator.py:116 | an element is in the flattened list exactly when it is in one of the lists |
| Calculator.FlattenConcat | src/router_service/services/calculator.py:116 | the lists come out one after the other, in order: flattening a concatenation gives the two flattenings concatenated |
| Calculator.WithKeyZero | src/router_service/services/calculator.py:117 | position by position, each pair becomes its key-0 triple; so exactly the key-0 triples of the pairs |
| Calculator.AllIncidentNeighbours | src/router_service/services/calculator.py:110-116 | a pair is in the appended lists exactly when it is an in- or out-edge of an endpoint of some nearest edge |
| Calculator.GapEdges | src/router_service/services/calculator.py:103-119 | duplicate-free, and holds exactly the key-0 triples of the edges into or out of an endpoint of a nearest edge; in order, it is the flattened key-0 list read at its first-occurrence indexes, so each edge sits where it first appears in the in(u), out(u), in(v), out(v) enumeration |
| Calculator.FillEdgeGaps | src/router_service/services/calculator.py:103-119 | the appending loop computes `GapEdges` |
| Calculator.GapEdgesTouchNearest | src/router_service/services/calculator.py:103-119 | in a consistent graph, every bridging edge shares a node with a nearest edge |
| Calculator.GapEdgesCoverOutEdges | src/router_service/services/calculator.py:111-117 | every edge out of a nearest edge's first node, the nearest edge itself included, is bridged with key 0 |
| Calculator.RouteEnds | src/router_service/services/calculator.py:165-174 | an index error for fewer than two distinct edges; otherwise the start is the first edge's first node exactly when the second edge's triple holds it, else its second node; the end is the same test on the last two edges |
| Calculator.RouteEndsAreSharedNodes | src/router_service/services/calculator.py:165-174 | when the boundary edges share one node and no key coincides, start and end are those shared nodes |
| Calculator.RouteStartMatchesKey | src/router_service/services/calculator.py:165-169 | edges `(0, 5, 0)` and `(5, 7, 0)` give start 0 through a key match, and end 5 |
| Calculator.LastQualifying | src/router_service/services/calculator.py:136-142 | a row's order is the last route position whose node it leaves without going back to the previous node; none if there is no such position |
| Calculator.MarkOrders | src/router_service/services/calculator.py:136-142 | the loop leaves every row's order as `LastQualifying` over the whole route |
| Calculator.Filter | src/router_service/services/calculator.py:143 | a row is kept when its order is set, and every kept row has its order set; a sub-multiset of the table |
| Calculator.FilterCount | src/router_service/services/calculator.py:143 | each row occurs in the filtered table exactly as many times as there are table positions holding it with the order set |
| Calculator.InsertByOrder | src/router_service/services/calculator.py:143-145 | inserting into a sorted table keeps it sorted and adds exactly the row |
| Calculator.SortByOrder | src/router_service/services/calculator.py:143-145 | sorted by order, and a permutation of its input |
| Calculator.SortByOrderKeepsTies | src/router_service/services/calculator.py:143-145 | two rows of equal order come out in table order |
| Calculator.GetSortedRouteRows | src/router_service/services/calculator.py:121-147 | an error exactly for an empty route (a stand-in, see "Left out"); otherwise a permutation of the rows with an order, each with its order set, and sorted by order |
| Calculator.OrderSetIff | src/router_service/services/calculator.py:139-143 | a row is kept exactly when some route position marks it |
| Calculator.RouteEdgeOrder | src/router_service/services/calculator.py:136-145 | on a route with no repeated node, the edge from position `i` to `i + 1` gets order `i` |
| Pricer.WithZeroPrices | src/router_service/services/pricer.py:15-17 | same number of segments, all priced 0 |
| Pricer.ZeroPricesKeepsRest | src/router_service/services/pricer.py:15-17 | nodes, way and time of every segment are unchanged, and a second pricing changes nothing |
| Pricer.Pricer.constructor | src/router_service/services/pricer.py:10-11 | the pricer keeps the given price model |
| Pricer.Pricer.CalculatePrice | src/router_service/services/pricer.py:13-17 | the route's segments become `WithZeroPrices` of the old ones; id and total unchanged; vehicle and price model unread; nothing returned |
| MassTransit.WordRunEnd | src/router_service/masstransit_consumer.py:34 | the end of the longest run of word characters |
| MassTransit.SearchFrom | src/router_service/masstransit_consumer.py:34 | the leftmost position from which `/(\w+)\?` matches |
| MassTransit.GetExchangeName | src/router_service/masstransit_consumer.py:32-35 | an attribute error exactly when nothing matches; otherwise a non-empty word `w` such that `/w?` occurs with no match before it |
| MassTransit.OccurrenceIsMatch | src/router_service/masstransit_consumer.py:34 | every occurrence of `/w?` with a non-empty word `w` is a match whose group is `w` |
| MassTransit.ExchangeNameOfAddress | src/router_service/masstransit_consumer.py:32-35 | extracting from `prefix + "/" + w + "?" + rest`, with no slash in the prefix, gives `w` back |
| MassTransit.FirstMissing | src/router_service/masstransit_consumer.py:15-20 | the first request field, in reading order, that the request lacks |
| MassTransit.CreateMassTransitResponse | src/router_service/masstransit_consumer.py:11-29 | fails exactly when a field is missing, naming the first; otherwise copies the ids, sets the initiator to the correlation id, swaps the addresses, and sets message type `urn:message:<namespace>` and the message |
| MassTransit.ReplyToReply | src/router_service/masstransit_consumer.py:15-20 | answering the response restores the original addresses and carries the ids through |

## Left out

- Graph construction, projection, the nearest-edge spatial query, `edge_subgraph`, `shortest_path` and `graph_to_gdfs` are inputs, because they are foreign library code.
- `map_to_map`'s sequencing of the pipeline is not modelled as one operation; each step is.
- Floats are modelled as exact `real`, so binary rounding of `length / 1000` and the coordinates is not captured.
- `get_halfway_time` is an uninterpreted function parameter, because it is not defined in the repository; timestamps are never parsed.
- `uuid.uuid4()` for a new route is an `id` parameter. The class-level default is an unspecified constant shared by every route built without an id.
- The `json.dumps` serialisation of the MassTransit response, the consumer's `callback`/`run`, and pika are left out as I/O.
- Pydantic validation is left out; `Vehicle`, `PriceModifier` and `PriceModel` are plain records.
- The times that `generate_formatted_route` passes to `Node` are dropped, because `Node` declares no time field; only the segment's halfway time is kept.
- The way name and highway lists are not collapsed. Downstream consumers expect scalar values there too, but `remove_way_id_lists` only collapses `osmid`, and the model follows the code.
- The start and end test compares the node with the whole `(u, v, key)` triple, as the code does, not with the endpoint pair alone. A node id equal to the key can therefore decide the start (`Calculator.RouteStartMatchesKey`).
- Calculator.PropagateNearestTimestamp: requires `index >= 0` for a downward search, which every call site meets; the inner back-copy loop iterates over an empty range and is not written out.
- Calculator.GetSortedRouteRows: states the order only up to ties, because pandas' default sort is not stable. The model sorts stably: rows of equal order keep their table order (`Calculator.SortByOrderKeepsTies`). The final `set_index` on `(u, v, key)` and the unsorted node table are not modelled.
- Calculator.GetSortedRouteRows: its `ColumnError("order")` for an empty route stands in for the failure of `graph_to_gdfs` on an empty subgraph, which happens before any column is read. `shortest_path` never returns an empty route, so the case does not arise in the pipeline.
- Time.StartAndEndTimes: requires no more matched edges than coordinates, which its one call site meets (one nearest edge per coordinate). The `IndexError` that a longer edge list would raise is not modelled. The same holds for Time.StartAndEndTimesFirstSeen and Time.StartAndEndTimesReversedIndex.
- MassTransit.IsWordChar: `\w` on `str` patterns is Unicode-aware in Python; the model accepts ASCII letters, digits and `_` only.
- In-place mutation of shared segment objects is modelled as replacing the segment value in the route's sequence, so aliasing of one `Segment` or `Way` object between routes is not captured. The same goes for the caller's timestamp dict, which the fillers update in place and return. A failed fill returns only its error: the cells the source has already written into that dict before raising are not modelled. For example, the run at 0 is written before a later `IndexError`, and the left cells of a run are written before the `KeyError` on its right neighbour.
