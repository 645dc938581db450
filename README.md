# Span ingestion and topology discovery, in Dafny

This project models the tracing backend's span ingestion. The backend receives OpenTelemetry
(OTLP) trace exports. From the parent/child structure of the spans it learns a live topology:
nodes keyed `target::name`, and directed edges keyed `from=>to`. It keeps spans in flight per
trace until the trace's root span arrives. Then it sends the completed trace, sorted by start
time and summarised, to the WebSocket clients.

The model has two parts:

- **`AppState`** (backend/src/state.rs) is the class `State.AppState`. Its fields are the
  backend's tables: the nodes, the edges, the two per-span indexes (span id → node id and
  span id → start time), the in-flight traces, the counters `totalSpans` and `totalTraces`,
  and the throttle time `lastTopoMs`. The broadcast channel is the field `sent`: every
  `WsMessage` sent so far, oldest first. `ingest_span`, `finalize_trace`,
  `maybe_broadcast_topology` and `cleanup_stale_traces` are methods that update these fields
  in place. Each method's new state is given by the pure table functions of module `Tables`
  and the trace summary of module `Summaries`. `short_label` is the pure function
  `Labels.ShortLabel`.
- **`OtlpTraceReceiver::export`** (backend/src/otlp.rs) is `Receiver.OtlpTraceReceiver.Export`.
  It does the following, in order:
  - It flattens the request into a batch with three nested loops (`Convert.BuildBatch`,
    proved equal to the pure `Convert.Batch`).
  - It pre-indexes every span of the batch (`Receiver.PreIndex`).
  - It ingests the spans in order, keeping the payloads and the root trace ids
    (`Receiver.IngestBatch`). The result is stated through the folds of module `Passes`.
  - When the batch is not empty it sends one `SpansBatch`. Then it checks the topology
    throttle once (`Receiver.Broadcast`).
  - It finalises every trace that received a root span (`Receiver.FinalizeRoots`).

  `kv_to_string` is the recursive function `Proto.KvToString`.

Modules, each in its own file: `Options`, `Seqs` (two slicing facts), `Text` (split, join,
lower-case hex, decimal integers, each with its inverse), `Labels`, `Shapes` (the data
shapes), `Tables`, `Summaries`, `Throttle`, `State`, `Proto` (the OTLP messages the receiver
reads), `Convert`, `Passes` and `Receiver`.

The main results:

- **The two-pass claim** of `export` (backend/src/otlp.rs:30-37) is `Passes.ParentResolves`.
  After pass 1, take a span whose parent is in the same batch, where the parent is the last
  span of the batch with that span id. The span resolves the parent's node, and it gets its
  edge latency from the parent's start, whatever order the two spans arrive in.
  `Passes.EdgesAfterRecords` shows that every span whose parent resolves leaves its edge in
  the table. `Receiver.ParentEdgeInBatch` puts the two together for the edge table that
  `export` leaves: when the two spans are on different nodes, the edge from the parent's node
  to the child's is there, even when the child comes first.
- **The tables stay closed.** The invariant `Closed` says that every index entry and every
  edge end names a known node. `ingest_span`, `finalize_trace`, the cleanup and `export`
  preserve it. Inside `export`, the invariant allows for the nodes of the spans still to
  come, via `Tables.ClosedUnder` and `Passes.FoldClosed`.
- **Finalisation is recorded exactly.** `FinalizedSince` says which traces left the in-flight
  table and which span ids left both indexes. It also says that one `TraceCompleted` message
  per trace was appended, in order. In `export` the completed traces are the in-flight root
  trace ids, each at its first occurrence in batch order (`Receiver.Completed`). Each message holds the trace's spans, sorted by start
  time and a permutation of the stored ones, with the summary fields of `Summaries.Summarize`.
- **The throttle** emits exactly when at least 500 ms have passed by saturating subtraction.
  Over any run of calls, consecutive emissions are at least 500 ms apart
  (`Throttle.EmissionsSpaced`).
- **`short_label` equals a character-by-character definition.** Each `_` becomes a space and
  the first character of each word is upper-cased (`Labels.ShortLabel`). The kept
  segment is the text after the last `::`.

On the stale rule, the code and its comment differ. The comment at backend/src/state.rs:299
says a trace is stale when every span started before the cutoff. The code looks at only one
span, whichever the map yields first, and that is what the model follows.
`State.SelectStale` proves the two facts that hold whatever span the map yields:
- a trace whose spans all started before the cutoff is always selected;
- a selected trace is empty, or one of its spans started before the cutoff.

## Model

| member | source | states |
|---|---|---|
| State.AppState.constructor | backend/src/state.rs:129-142 | All tables empty, counters and throttle time 0, nothing sent; the state is well-keyed and closed |
| State.AppState.IngestSpan | backend/src/state.rs:157-229 | `total_spans` rises by one. The node of `target::name` is upserted, and the edge from the parent's indexed node is recorded. The span is filed at `in_flight[trace][span]`. The payload is returned. Keying and closure are kept; the indexes and `sent` are not touched |
| State.AppState.MaybeBroadcastTopology | backend/src/state.rs:232-247 | When 500 ms have passed by saturating subtraction: stores `now` and appends one `TopologyUpdated` of the current tables. Otherwise changes nothing and sends nothing |
| State.AppState.FinalizeTrace | backend/src/state.rs:249-282 | An unknown trace id changes nothing. A known trace leaves `in_flight`, `total_traces` rises by one, and its span ids leave both indexes. Exactly one message is appended: a `TraceCompleted` whose spans are the stored ones sorted by start, with the `Summarize` fields |
| State.AppState.PruneIndexes | backend/src/state.rs:255-258 | Both indexes lose exactly the span ids of the given spans |
| State.SpanIdsAreKeys | backend/src/state.rs:253-258 | The span ids of the collected values are exactly the keys of the trace's span map |
| State.AppState.FinalizeNext | backend/src/state.rs:311-314 | One more `finalize_trace` call extends the record `FinalizedSince` by that trace when it was in flight, and leaves the record as it was otherwise |
| State.AppState.FinalizeAll | backend/src/state.rs:311-314 | Finalising distinct in-flight traces in turn completes every one of them, in order. `total_traces` rises by their number |
| State.SelectStale | backend/src/state.rs:295-309 | The selection lists distinct in-flight traces. Every trace whose spans all started before the cutoff is listed. Every listed trace is empty or has a span that started before it |
| State.AppState.CleanupStaleTraces | backend/src/state.rs:288-315 | The cutoff is `now - max_age` by saturating subtraction. The traces `SelectStale` picks are finalised, each once, with one `TraceCompleted` apiece. `total_traces` counts them. Keying and closure are kept |
| State.AllCompleteAt | backend/src/state.rs:249-282 | In a finalisation run, the k-th new message is the `TraceCompleted` of the k-th finalised trace |
| State.FinalizedStep | backend/src/state.rs:249-282 | Completing one more in-flight trace extends the finalisation record by exactly that trace: its removal, its pruned span ids and its message |
| Shapes.SatSub | backend/src/state.rs:184 | `u64::saturating_sub`: the difference when it is non-negative, 0 otherwise |
| Tables.UpsertNode | backend/src/state.rs:164-174 | The node `target::name` exists afterwards. A new node has count 1, label `short_label(name)` and category `target`. An existing node's count rises by one with id, label and category unchanged. Every other node is unchanged |
| Tables.ResolveParent | backend/src/state.rs:177-179 | A parent node exists exactly when the span has a parent id and that id is indexed; it is then the indexed node id |
| Tables.EdgeLatency | backend/src/state.rs:182-186 | Present exactly when the span has a parent and the parent's start is indexed. Its value is child start minus parent start, or 0 when that would be negative |
| Tables.RecordEdge | backend/src/state.rs:188-200 | Without a parent node, or for a self-edge, the table is unchanged. Otherwise the key `from=>to` is added or its count rises. A new edge has count 1 and these ends; an existing edge only gains one flow. Every other edge is unchanged |
| Tables.FileSpan | backend/src/state.rs:219-226 | The span is stored at `in_flight[trace][span]`, replacing one with the same id. The trace's other spans and every other trace are unchanged |
| Tables.Arrive | backend/src/state.rs:203-217 | The payload copies the span's fields. `to_node` is its node id, `from_node` the resolved parent node, and the latency is `EdgeLatency` |
| Tables.UpsertNodeKeyed | backend/src/state.rs:166-174 | The upsert keeps every node stored under its own id with a positive count |
| Tables.RecordEdgeKeyed | backend/src/state.rs:188-199 | Recording keeps every edge under `source=>target`, with no self-edge and a positive count |
| Tables.FileSpanKeyed | backend/src/state.rs:220-226 | Filing keeps every in-flight span under its own trace id and span id |
| Tables.InFlightKeyedRemove | backend/src/state.rs:250 | Removing a trace keeps the in-flight table keyed |
| Tables.IngestClosed | backend/src/state.rs:164-200 | Ingesting a span makes its node known and adds only an edge between indexed or known nodes. So closure holds with that node no longer pending |
| Tables.ClosedUnderPrune | backend/src/state.rs:255-258 | Dropping span ids from the index keeps the tables closed |
| Summaries.CollectValues | backend/src/state.rs:253 | The collected vector is a permutation of the map's values |
| Summaries.SortByStart | backend/src/state.rs:259 | In place on an array: afterwards ordered by start time and a permutation of the old contents |
| Summaries.SortSpans | backend/src/state.rs:259 | The sorted vector is ordered by start time and a permutation of the input |
| Summaries.MaxEndIsMax | backend/src/state.rs:262 | `MaxEnd` bounds every end time and is attained by one. It is 0 for no spans |
| Summaries.FirstRootNameIsFirst | backend/src/state.rs:264-268 | The root name is "" when every span has a parent. Otherwise it is the name of the first span without one |
| Summaries.Summarize | backend/src/state.rs:261-276 | The summary keeps the trace id and the spans. With no spans, `started_at` and the duration are 0 and the root name is empty |
| Summaries.SummarizeMeaning | backend/src/state.rs:261-276 | The summary keeps the trace id and the spans. For sorted spans, `started_at` is the minimum start, or 0 with no spans. The duration is latest end minus `started_at`, saturating. The root name is that of the first root |
| Summaries.SummarizeTrace | backend/src/state.rs:259-276 | From the collected values, the `TraceComplete` has the stored spans sorted by start and permuted, with its fields as `Summarize` defines them |
| Throttle.Due | backend/src/state.rs:238 | Due exactly when `now >= last + 500` |
| Throttle.EmissionsSpaced | backend/src/state.rs:231-247 | Over any sequence of call times, the first emission is 500 ms after the stored time. Consecutive emissions are at least 500 ms apart, and each happens at one of the call times |
| Labels.Upper | backend/src/state.rs:342 | ASCII `a`-`z` move to `A`-`Z`; every other character is unchanged |
| Labels.CapitalizeAll | backend/src/state.rs:338-345 | One word out per word in, in order: the i-th result is the i-th word capitalised |
| Labels.WordsRelabel | backend/src/state.rs:337-346 | Splitting on `_`, capitalising each word and joining with spaces equals the character-by-character relabelling |
| Labels.ShortLabel | backend/src/state.rs:332-347 | `short_label` equals the character-by-character relabelling `Relabel` of the segment after the last `::` |
| Labels.LastSegmentShape | backend/src/state.rs:334-336 | The kept segment holds no `::`. It is the whole name, or the name is some text, then `::`, then the segment |
| Labels.ShortLabelNoUnderscore | backend/src/state.rs:332-347 | A label has the length of its segment and holds no `_` |
| Labels.RelabelAt | backend/src/state.rs:337-346 | Per position of the relabelling: `_` becomes a space, a word's first character is upper-cased, others are kept |
| Text.Split | backend/src/state.rs:334 | `str::split` always yields at least one segment |
| Text.JoinSplit | backend/src/state.rs:334-337 | Joining the segments of a split with the same separator gives the text back |
| Text.SplitSegmentsFree | backend/src/state.rs:334-337 | No segment of a split contains the separator |
| Text.SplitJoin | backend/src/state.rs:337 | For a one-character separator that no part contains, split undoes join |
| Text.Hex | backend/src/otlp.rs:65-66 | `hex::encode` gives two characters per byte |
| Text.UnhexHex | backend/src/otlp.rs:65-70 | Hex text decodes back to the exported bytes |
| Text.HexInjective | backend/src/otlp.rs:65-66 | Two ids have the same hex text exactly when they have the same bytes |
| Text.ParseIntToString | backend/src/otlp.rs:170 | The decimal text of an integer reads back as that integer |
| Proto.BoolToString | backend/src/otlp.rs:169 | `true` exactly for true |
| Proto.KvToString | backend/src/otlp.rs:164-186 | An absent value or an unset `oneof` is ""; a set one is its rendering |
| Proto.Render | backend/src/otlp.rs:166-185 | Strings are copied, booleans are `true`/`false` and integers are decimal. Doubles keep their text and bytes are two hex digits per byte. Arrays are bracketed by `[` `]` and key-value lists by `{` `}` |
| Proto.RenderRoundTrip | backend/src/otlp.rs:170-172 | The rendered integer parses back to the integer, and the rendered bytes decode back to the bytes |
| Proto.RenderArraySnoc | backend/src/otlp.rs:173-178 | The empty array renders as `[]`. Adding an element puts its `kv_to_string` text before the closing `]`: alone, or after `, ` when the array already had elements. By induction this fixes the text of every array |
| Proto.RenderKvlistSnoc | backend/src/otlp.rs:179-184 | The empty list renders as `{}`. Adding an entry puts `key=value` before the closing `}`, the value rendered by `kv_to_string`: alone, or after `, ` when the list already had entries. By induction this fixes the text of every key-value list |
| Convert.FindKey | backend/src/otlp.rs:45 | None exactly when no attribute has the key; otherwise the first attribute that has it |
| Convert.ServiceNameOf | backend/src/otlp.rs:41-55 | `unknown` without a resource or without a `service.name` attribute. Any other name is the string value of the first `service.name` attribute |
| Convert.ServiceNameRules | backend/src/otlp.rs:41-55 | `unknown` without a resource or without a `service.name` attribute. Otherwise the first such attribute's string value, or `unknown` when it holds another kind |
| Convert.TargetOverride | backend/src/otlp.rs:76-80 | The attributes are scanned from the end and the first target key found wins. What that means is stated by `TargetOverrideNone` and `TargetOverrideLast` |
| Convert.TargetOverrideNone | backend/src/otlp.rs:76-80 | There is no override exactly when no attribute's key is `target` or `code.namespace` |
| Convert.TargetOverrideLast | backend/src/otlp.rs:76-80 | An override is the rendered value of the last attribute keyed `target` or `code.namespace` |
| Convert.SpanTarget | backend/src/otlp.rs:74-86 | The target is empty only when the span name is empty, because the name replaces an empty target |
| Convert.RenderedAttributes | backend/src/otlp.rs:76-82 | One `(key, kv_to_string(value))` pair per attribute, in order |
| Convert.StatusText | backend/src/otlp.rs:92-97 | `error` exactly for code 2, `ok` exactly for code 1, and `unset` for every other code or no status |
| Convert.ParentId | backend/src/otlp.rs:67-71 | No parent exactly when the raw parent bytes are empty. Otherwise the hex text, which decodes back to them |
| Convert.ConvertSpan | backend/src/otlp.rs:64-111 | The converted ids decode back to the exported bytes. Name, times and service name are copied. The duration is end minus start, saturating. The span is a root exactly for empty parent bytes |
| Convert.SpanIdsDistinguish | backend/src/otlp.rs:66 | Two converted spans share a span id exactly when their raw span ids are equal |
| Convert.ScopeBatchMembers | backend/src/otlp.rs:64-112 | A scope contributes exactly the conversions of its spans |
| Convert.ScopesBatchMembers | backend/src/otlp.rs:57-113 | The scopes of a resource contribute exactly the converted spans of those scopes |
| Convert.ResourceBatchMembers | backend/src/otlp.rs:40-113 | A resource contributes exactly the spans of its scopes, converted under its service name |
| Convert.Batch | backend/src/otlp.rs:38-114 | The request's spans in resource, then scope, then span order, each converted under its resource's service name and its scope's name. Membership is stated by `BatchMembers`, and the loop form by `BuildBatch` |
| Convert.BatchMembers | backend/src/otlp.rs:38-114 | The batch holds exactly the converted spans of the request |
| Convert.ScanAttributes | backend/src/otlp.rs:73-82 | The attribute loop yields every rendered pair in order. The target is the last override, or the scope's name when there is none |
| Convert.BuildSpan | backend/src/otlp.rs:64-111 | The loop body builds the `SpanEvent` that `ConvertSpan` defines |
| Convert.BuildScope | backend/src/otlp.rs:64-112 | The innermost loop yields the scope's converted spans, in order |
| Convert.BuildResource | backend/src/otlp.rs:40-113 | The middle loop yields the resource's spans, scope after scope, under its service name |
| Convert.BuildBatch | backend/src/otlp.rs:38-114 | The three loops yield resource, then scope, then span order (`Batch`) |
| Passes.IndexedKeys | backend/src/otlp.rs:119-124 | After pass 1, a key is indexed exactly when it was before or is the span id of a batch span |
| Passes.IndexedUntouched | backend/src/otlp.rs:119-124 | A key that no batch span has keeps its old index value |
| Passes.IndexedLast | backend/src/otlp.rs:119-124 | A span id of the batch is indexed with the value from the last span that has it |
| Passes.ParentResolves | backend/src/otlp.rs:30-37 | A span whose parent is the last span with that id in the same batch, before or after it, gets the parent's node as `from_node` after pass 1. Its latency is measured from the parent's start |
| Passes.FoldClosed | backend/src/otlp.rs:133-138 | Ingesting the first spans in order leaves only the later spans' nodes pending |
| Passes.FoldClosedAll | backend/src/otlp.rs:133-138 | Ingesting the whole batch closes the tables over the pass-1 indexes |
| Passes.NodesAfterCount | backend/src/otlp.rs:133-138 | After the batch, a node exists exactly when it existed or a batch span has its id. Its count rises by the number of such spans, and an old node keeps its label |
| Passes.CountNodeAbsent | backend/src/otlp.rs:133-138 | A node id that no batch span has is counted zero times |
| Passes.EdgesAfterRecords | backend/src/otlp.rs:133-138 | Old edges stay. Every batch span whose parent resolves to another node leaves the edge from that node to its own |
| Passes.RootTraceIdsMembers | backend/src/otlp.rs:132-136 | The collected root ids are exactly the trace ids of the batch spans without a parent |
| Passes.InFlightAfterHolds | backend/src/otlp.rs:133-138 | Old traces stay in flight and every batch span's trace is in flight |
| Receiver.IndexNamesValues | backend/src/otlp.rs:119-124 | Every value of the pass-1 index is an old value or the node of a batch span |
| Receiver.PreIndexClosed | backend/src/otlp.rs:119-124 | After pass 1 the tables are closed, allowing for the nodes of the batch |
| Receiver.PreIndex | backend/src/otlp.rs:119-124 | Pass 1 leaves both indexes with every batch span id inserted, in order |
| Receiver.IngestBatch | backend/src/otlp.rs:131-138 | Pass 2 ingests the spans in order: nodes, edges and in-flight table are the folds over the batch, and `total_spans` rises by the batch size. The payloads are one per span in batch order; the root ids are in batch order. Closure is restored |
| Receiver.ParentEdgeInBatch | backend/src/otlp.rs:30-37 | A span whose parent is the last span with that id in the same batch, on another node, leaves the edge from the parent's node to its own in the edge table after both passes, whichever comes first |
| Receiver.TwoPasses | backend/src/otlp.rs:116-138 | Both passes: the indexes are filled first, then every edge and payload is computed against the full indexes |
| Receiver.RootsInFlight | backend/src/otlp.rs:133-156 | Every root trace id of the batch is in flight once the batch has been ingested |
| Receiver.Broadcast | backend/src/otlp.rs:140-151 | A `SpansBatch` of the payloads is appended only for a non-empty batch, then the throttle is checked once. No table changes |
| Receiver.FinalizeRoots | backend/src/otlp.rs:153-156 | Every root trace id is finalised in turn. The traces actually completed are `Completed(roots, in_flight)`: the roots that were in flight, each at its first occurrence, in order. `total_traces` counts them; nodes, edges and `total_spans` are unchanged |
| Receiver.CompletedElems | backend/src/otlp.rs:153-156 | `Completed` lists no trace twice, and holds exactly the roots that are in flight |
| Receiver.OtlpTraceReceiver.constructor | backend/src/otlp.rs:18-20 | The receiver holds the shared state |
| Receiver.OtlpTraceReceiver.Export | backend/src/otlp.rs:24-161 | One export. `total_spans` rises by the batch size, and nodes and edges are the folds over the batch against the pass-1 indexes. The new messages are the `SpansBatch` when there are spans, the topology update when due, then one `TraceCompleted` per root trace of the batch, in the order of `Completed` over the batch's root ids. Keying and closure are kept |

## Left out

- Concurrency. `DashMap` sharding, the relaxed atomics and `Arc` sharing become one sequential state. Interleaved exports and cleanups are not modelled.
- Serialisation and the channel. A send appends a `WsMessage` value to `sent`. JSON bytes, `unwrap_or_default` on a serialisation failure, a send to no receivers, and the channel capacity of 4096 are not modelled.
- The clock. `SystemTime::now()` becomes the parameters `nowMs` and `nowNs`.
- Shapes.SpanEvent: `duration_ms` and `edge_latency_ms` are `f64`. The model keeps them as the integer nanoseconds they are computed from and leaves out the division by 1 000 000 (backend/src/state.rs:184, 263; backend/src/otlp.rs:88-90).
- Proto.Render: a `DoubleValue` carries its text ready-made, because `f64` formatting is not modelled.
- Labels.Upper: upper-cases ASCII letters only. Unicode `to_uppercase`, which may produce several characters, is not modelled.
- Text.Hex: `hex::encode` is modelled on bytes as lower-case hex. Its library code is not part of this model.
- State.AppState.IngestSpan: counters and times are unbounded naturals, so `u64` overflow of `span_count`, `flow_count`, `total_spans` and `total_traces` is not modelled.
- Proto.ValueKind: an `IntValue` is any integer; the `i64` range is not enforced.
- State.AppState.CleanupStaleTraces: the stale rule is stated only as "all spans early ⇒ evicted" and "evicted ⇒ empty or some span early". The span the map yields first is chosen arbitrarily, so nothing stronger holds.
- Summaries.SortByStart: the sort is sorted and a permutation, but its stability is not stated. Its input is already in the map's arbitrary order, so stability fixes nothing observable.
- State.AppState.MaybeBroadcastTopology: `TopologyUpdated` carries the node and edge tables as maps. The order of the source's vectors comes from `DashMap` iteration and is not fixed.
- Receiver.OtlpTraceReceiver.Export: the `ExportTraceServiceResponse` is not modelled, and the request is taken as already decoded.
- `get_topology_snapshot`, `stats_snapshot` and `get_config_json` (backend/src/state.rs:144-155, 317-329) only format current tables or constants.
- The `tracing::debug!` line of the cleanup loop (backend/src/state.rs:312) and the `info!` log of the server are logging.
- `run_otlp_server` (backend/src/otlp.rs:188-200), backend/src/ws.rs and backend/src/main.rs are the gRPC, HTTP and WebSocket servers, the background tasks and the command line. backend/src/ws.rs is not part of this model.
