/**
 * `OtlpTraceReceiver::export` (backend/src/otlp.rs): one OTLP export
 * request is converted to a batch of spans, every span id of the batch is
 * indexed, the spans are ingested in order, the payloads go out in one
 * `SpansBatch` message, the topology throttle is consulted once, and
 * every trace that received a root span is finalised.
 */
module Receiver {
  import opened Options
  import opened Shapes
  import opened Tables
  import opened Throttle
  import opened State
  import opened Proto
  import opened Convert
  import opened Passes
  import opened Seqs

  /** Every value of an index filled by pass 1 is an old value or the node of a batch span. */
  lemma {:induction false} IndexNamesValues(names: map<string, string>, batch: seq<SpanEvent>, k: string)
    requires k in IndexNames(names, batch)
    ensures (k in names && IndexNames(names, batch)[k] == names[k]) ||
            IndexNames(names, batch)[k] in Pending(batch, 0)
    decreases |batch|
  {
    if |batch| > 0 {
      var n := |batch| - 1;
      var front := batch[..n];
      assert IndexNames(names, batch) == IndexNames(names, front)[batch[n].spanId := NodeIdOf(batch[n])];
      if k != batch[n].spanId {
        IndexNamesValues(names, front, k);
        if IndexNames(names, front)[k] in Pending(front, 0) {
          var j :| 0 <= j < |front| && NodeIdOf(front[j]) == IndexNames(names, front)[k];
          assert front[j] == batch[j];
        }
      }
    }
  }

  /** After pass 1 every index value is a known node or the node of a span about to be ingested. */
  lemma PreIndexClosed(nodes: map<string, Node>, edges: map<string, Edge>,
                       names: map<string, string>, batch: seq<SpanEvent>)
    requires ClosedUnder(nodes, edges, names, {})
    ensures ClosedUnder(nodes, edges, IndexNames(names, batch), Pending(batch, 0))
  {
    forall k | k in IndexNames(names, batch)
      ensures IndexNames(names, batch)[k] in nodes || IndexNames(names, batch)[k] in Pending(batch, 0)
    {
      IndexNamesValues(names, batch, k);
    }
  }

  /** Every root trace id of the batch is in flight once the batch has been ingested. */
  lemma RootsInFlight(inFlight: map<string, map<string, SpanEvent>>, batch: seq<SpanEvent>)
    ensures Elems(RootTraceIds(batch)) <= InFlightAfter(inFlight, batch).Keys
  {
    InFlightAfterHolds(inFlight, batch);
    forall t | t in RootTraceIds(batch) ensures t in InFlightAfter(inFlight, batch) {
      RootTraceIdsMembers(batch, t);
    }
  }

  /**
   * The messages `export` has sent before it finalises: the earlier ones
   * `sent0`, then the payloads in one `SpansBatch` when there are any, then
   * the topology when the throttle is due.
   */
  ghost function Announced(sent0: seq<WsMessage>, payloads: seq<SpanArrivedPayload>,
                           nodes: map<string, Node>, edges: map<string, Edge>, due: bool): seq<WsMessage>
  {
    sent0
      + (if |payloads| > 0 then [SpansBatch(payloads)] else [])
      + (if due then [TopologyUpdated(nodes, edges)] else [])
  }

  /** Pass 1: every span id of the batch indexed with its node id and its start time. */
  method PreIndex(state: AppState, batch: seq<SpanEvent>)
    modifies state`spanNameIndex, state`spanStartIndex
    ensures state.spanNameIndex == IndexNames(old(state.spanNameIndex), batch)
    ensures state.spanStartIndex == IndexStarts(old(state.spanStartIndex), batch)
  {
    var i := 0;
    while i < |batch|
      invariant 0 <= i <= |batch|
      invariant state.spanNameIndex == IndexNames(old(state.spanNameIndex), batch[..i])
      invariant state.spanStartIndex == IndexStarts(old(state.spanStartIndex), batch[..i])
    {
      var s := batch[i];
      state.spanNameIndex := state.spanNameIndex[s.spanId := NodeId(s.target, s.name)];
      state.spanStartIndex := state.spanStartIndex[s.spanId := s.startTimeUnixNano];
      assert batch[..i + 1][..i] == batch[..i];
      i := i + 1;
    }
    TakeAll(batch);
  }

  /** Pass 2: every span ingested in order, its payload kept and its trace noted when it is a root. */
  method IngestBatch(state: AppState, batch: seq<SpanEvent>)
    returns (payloads: seq<SpanArrivedPayload>, roots: seq<string>)
    requires state.Valid()
    modifies state`totalSpans, state`nodes, state`edges, state`inFlight
    ensures state.Valid()
    ensures state.totalSpans == old(state.totalSpans) + |batch|
    ensures state.nodes == NodesAfter(old(state.nodes), batch)
    ensures state.edges == EdgesAfter(old(state.edges), state.spanNameIndex, batch)
    ensures state.inFlight == InFlightAfter(old(state.inFlight), batch)
    ensures payloads == Payloads(batch, state.spanNameIndex, state.spanStartIndex)
    ensures roots == RootTraceIds(batch)
    ensures ClosedUnder(old(state.nodes), old(state.edges), state.spanNameIndex, Pending(batch, 0)) ==>
      state.Closed()
  {
    payloads, roots := [], [];
    var i := 0;
    while i < |batch|
      invariant 0 <= i <= |batch|
      invariant state.Valid()
      invariant state.totalSpans == old(state.totalSpans) + i
      invariant roots == RootTraceIds(batch[..i])
      invariant state.nodes == NodesAfter(old(state.nodes), batch[..i])
      invariant state.inFlight == InFlightAfter(old(state.inFlight), batch[..i])
      invariant payloads == Payloads(batch[..i], state.spanNameIndex, state.spanStartIndex)
      invariant state.edges == EdgesAfter(old(state.edges), state.spanNameIndex, batch[..i])
    {
      var s := batch[i];
      if s.parentSpanId.None? {
        roots := roots + [s.traceId];
      }
      NodesStep(old(state.nodes), batch, i);
      EdgesStep(old(state.edges), state.spanNameIndex, batch, i);
      InFlightStep(old(state.inFlight), batch, i);
      PayloadsStep(batch, state.spanNameIndex, state.spanStartIndex, i);
      RootsStep(batch, i);
      var p := state.IngestSpan(s);
      payloads := payloads + [p];
      i := i + 1;
    }
    TakeAll(batch);
    if ClosedUnder(old(state.nodes), old(state.edges), state.spanNameIndex, Pending(batch, 0)) {
      FoldClosedAll(old(state.nodes), old(state.edges), state.spanNameIndex, batch);
    }
  }

  /**
   * The traces a run of `finalize_trace` over `roots` completes, starting
   * from the in-flight table `inFlight`: each root trace id that is in
   * flight, at its first occurrence, in the order of `roots`.
   */
  ghost function Completed(roots: seq<string>, inFlight: map<string, map<string, SpanEvent>>): seq<string>
    decreases |roots|
  {
    if |roots| == 0 then []
    else
      var n := |roots| - 1;
      var c := Completed(roots[..n], inFlight);
      if roots[n] in inFlight && roots[n] !in Elems(c) then c + [roots[n]] else c
  }

  lemma CompletedStep(roots: seq<string>, i: nat, inFlight: map<string, map<string, SpanEvent>>)
    requires i < |roots|
    ensures var c := Completed(roots[..i], inFlight);
      Completed(roots[..i + 1], inFlight) ==
        if roots[i] in inFlight && roots[i] !in Elems(c) then c + [roots[i]] else c
  {
    assert roots[..i + 1][..i] == roots[..i];
  }

  /** The completed traces are the in-flight root trace ids, each listed once. */
  lemma {:induction false} CompletedElems(roots: seq<string>, inFlight: map<string, map<string, SpanEvent>>)
    ensures Distinct(Completed(roots, inFlight))
    ensures Elems(Completed(roots, inFlight)) == Elems(roots) * inFlight.Keys
    decreases |roots|
  {
    if |roots| > 0 {
      var n := |roots| - 1;
      var c := Completed(roots[..n], inFlight);
      CompletedElems(roots[..n], inFlight);
      TakeOneMore(roots, n);
      TakeAll(roots);
      ElemsSnoc(roots[..n], roots[n]);
      if roots[n] in inFlight && roots[n] !in Elems(c) {
        ElemsSnoc(c, roots[n]);
        DistinctSnoc(c, roots[n]);
      }
    }
  }

  /**
   * The last loop of `export`: `finalize_trace` for every root trace id in
   * turn. A trace id seen twice, or already gone, changes nothing the
   * second time; `finalized` lists the traces actually completed, in order.
   */
  method FinalizeRoots(state: AppState, roots: seq<string>) returns (ghost finalized: seq<string>)
    requires state.Valid()
    modifies state`inFlight, state`totalTraces, state`spanNameIndex, state`spanStartIndex, state`sent
    ensures state.Valid()
    ensures state.nodes == old(state.nodes) && state.edges == old(state.edges)
    ensures state.totalSpans == old(state.totalSpans) && state.lastTopoMs == old(state.lastTopoMs)
    ensures finalized == Completed(roots, old(state.inFlight))
    ensures Elems(finalized) == Elems(roots) * old(state.inFlight).Keys
    ensures state.totalTraces == old(state.totalTraces) + |finalized|
    ensures state.FinalizedSince(old(state.inFlight), old(state.spanNameIndex), old(state.spanStartIndex),
                                 old(state.sent), finalized)
    ensures old(state.Closed()) ==> state.Closed()
  {
    ghost var inFlight0, sent0 := state.inFlight, state.sent;
    ghost var names0, starts0 := state.spanNameIndex, state.spanStartIndex;
    ghost var wasClosed := state.Closed();
    finalized := [];
    NothingFinalized(inFlight0, names0, starts0, sent0);
    var i := 0;
    while i < |roots|
      invariant 0 <= i <= |roots|
      invariant state.Valid()
      invariant state.FinalizedSince(inFlight0, names0, starts0, sent0, finalized)
      invariant finalized == Completed(roots[..i], inFlight0)
      invariant state.totalTraces == old(state.totalTraces) + |finalized|
      invariant wasClosed ==> state.Closed()
    {
      var t := roots[i];
      ghost var fin0, inFlight := finalized, state.inFlight;
      assert inFlight == inFlight0 - Elems(fin0);
      finalized := state.FinalizeNext(t, inFlight0, names0, starts0, sent0, finalized);
      CompletedStep(roots, i, inFlight0);
      i := i + 1;
    }
    TakeAll(roots);
    CompletedElems(roots, inFlight0);
  }

  /**
   * The point of the two passes: a span whose parent is the last span with
   * that id in the same batch leaves the edge from the parent's node, even
   * when the child comes first in the batch.
   */
  lemma ParentEdgeInBatch(edges: map<string, Edge>, names: map<string, string>, batch: seq<SpanEvent>, i: int, j: int)
    requires 0 <= i < |batch| && LastWithId(batch, j)
    requires batch[i].parentSpanId == Some(batch[j].spanId)
    requires NodeIdOf(batch[j]) != NodeIdOf(batch[i])
    ensures EdgeKey(NodeIdOf(batch[j]), NodeIdOf(batch[i])) in EdgesAfter(edges, IndexNames(names, batch), batch)
  {
    ParentResolves(names, map[], batch, i, j);
    EdgesAfterRecords(edges, IndexNames(names, batch), batch);
  }

  /** Pass 1 and pass 2 of `export`. */
  method TwoPasses(state: AppState, batch: seq<SpanEvent>)
    returns (payloads: seq<SpanArrivedPayload>, roots: seq<string>)
    requires state.Valid()
    modifies state`spanNameIndex, state`spanStartIndex, state`totalSpans, state`nodes, state`edges, state`inFlight
    ensures state.Valid()
    ensures old(state.Closed()) ==> state.Closed()
    ensures state.spanNameIndex == IndexNames(old(state.spanNameIndex), batch)
    ensures state.spanStartIndex == IndexStarts(old(state.spanStartIndex), batch)
    ensures state.totalSpans == old(state.totalSpans) + |batch|
    ensures state.nodes == NodesAfter(old(state.nodes), batch)
    ensures state.edges == EdgesAfter(old(state.edges), state.spanNameIndex, batch)
    ensures state.inFlight == InFlightAfter(old(state.inFlight), batch)
    ensures payloads == Payloads(batch, state.spanNameIndex, state.spanStartIndex)
    ensures roots == RootTraceIds(batch)
  {
    if state.Closed() {
      PreIndexClosed(state.nodes, state.edges, state.spanNameIndex, batch);
    }
    PreIndex(state, batch);
    payloads, roots := IngestBatch(state, batch);
  }

  /** The `SpansBatch` message of `export`, then its one topology check at time `nowMs`. */
  method Broadcast(state: AppState, payloads: seq<SpanArrivedPayload>, nowMs: nat)
    modifies state`sent, state`lastTopoMs
    ensures state.nodes == old(state.nodes) && state.edges == old(state.edges)
    ensures state.inFlight == old(state.inFlight) && state.totalSpans == old(state.totalSpans)
    ensures state.spanNameIndex == old(state.spanNameIndex) && state.spanStartIndex == old(state.spanStartIndex)
    ensures state.totalTraces == old(state.totalTraces)
    ensures var due := Due(old(state.lastTopoMs), nowMs);
      && (due ==> state.lastTopoMs == nowMs)
      && (!due ==> state.lastTopoMs == old(state.lastTopoMs))
      && state.sent == Announced(old(state.sent), payloads, state.nodes, state.edges, due)
  {
    if |payloads| > 0 {
      state.sent := state.sent + [SpansBatch(payloads)];
    }
    state.MaybeBroadcastTopology(nowMs);
  }

  /** The service that receives exported traces and feeds them into the shared state. */
  class OtlpTraceReceiver {
    const state: AppState

    constructor (state: AppState)
      ensures this.state == state
    {
      this.state := state;
    }

    /**
     * `export` at time `nowMs`. The batch is the request's spans in order;
     * payloads, edges and latencies are computed against the indexes filled
     * by pass 1. The new messages are the `SpansBatch` (when the batch is
     * not empty), the topology update (when the throttle is due) and then
     * one `TraceCompleted` for each trace that received a root span,
     * listed in `finalized`.
     */
    method Export(req: ExportTraceServiceRequest, nowMs: nat) returns (ghost finalized: seq<string>)
      requires state.Valid()
      modifies state
      ensures state.Valid()
      ensures old(state.Closed()) ==> state.Closed()
      ensures var batch := Batch(req.resourceSpans);
        var names := IndexNames(old(state.spanNameIndex), batch);
        var starts := IndexStarts(old(state.spanStartIndex), batch);
        var inFlight := InFlightAfter(old(state.inFlight), batch);
        var due := Due(old(state.lastTopoMs), nowMs);
        && state.totalSpans == old(state.totalSpans) + |batch|
        && state.nodes == NodesAfter(old(state.nodes), batch)
        && state.edges == EdgesAfter(old(state.edges), names, batch)
        && (due ==> state.lastTopoMs == nowMs)
        && (!due ==> state.lastTopoMs == old(state.lastTopoMs))
        && finalized == Completed(RootTraceIds(batch), inFlight)
        && Elems(finalized) == Elems(RootTraceIds(batch))
        && state.totalTraces == old(state.totalTraces) + |finalized|
        && state.FinalizedSince(inFlight, names, starts,
                                Announced(old(state.sent), Payloads(batch, names, starts),
                                          state.nodes, state.edges, due),
                                finalized)
    {
      var batch := BuildBatch(req);
      var payloads, roots := TwoPasses(state, batch);
      Broadcast(state, payloads, nowMs);
      RootsInFlight(old(state.inFlight), batch);
      finalized := FinalizeRoots(state, roots);
      assert Elems(roots) * InFlightAfter(old(state.inFlight), batch).Keys == Elems(roots);
    }

  }
}
