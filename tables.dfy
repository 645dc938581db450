/**
 * The table updates `AppState::ingest_span` performs (backend/src/state.rs),
 * as functions from the old table to the new one. The class `AppState`
 * applies them to its fields.
 */
module Tables {
  import opened Options
  import opened Shapes
  import opened Labels

  /** The node table: an upsert of `target::name`. */
  function UpsertNode(nodes: map<string, Node>, span: SpanEvent): (r: map<string, Node>)
    ensures var id := NodeIdOf(span);
      && r.Keys == nodes.Keys + {id}
      && r[id].id == (if id in nodes then nodes[id].id else id)
      && r[id].spanCount == (if id in nodes then nodes[id].spanCount + 1 else 1)
      && r[id].nodeLabel == (if id in nodes then nodes[id].nodeLabel else ShortLabel(span.name))
      && r[id].category == (if id in nodes then nodes[id].category else span.target)
      && forall k :: k in nodes && k != id ==> r[k] == nodes[k]
  {
    var id := NodeIdOf(span);
    if id in nodes then nodes[id := nodes[id].(spanCount := nodes[id].spanCount + 1)]
    else nodes[id := Node(id, ShortLabel(span.name), span.target, 1)]
  }

  /** The parent's node id, when the span has a parent and it is indexed. */
  function ResolveParent(parent: Option<string>, names: map<string, string>): (r: Option<string>)
    ensures r.Some? <==> parent.Some? && parent.value in names
    ensures r.Some? ==> r.value == names[parent.value]
  {
    match parent
    case Some(pid) => if pid in names then Some(names[pid]) else None
    case None => None
  }

  /** The delay from the parent's start to this span's start, in nanoseconds. */
  function EdgeLatency(span: SpanEvent, starts: map<string, nat>): (r: Option<nat>)
    ensures r.Some? <==> span.parentSpanId.Some? && span.parentSpanId.value in starts
    ensures r.Some? ==> var p := starts[span.parentSpanId.value];
      (span.startTimeUnixNano >= p ==> r.value + p == span.startTimeUnixNano) &&
      (span.startTimeUnixNano < p ==> r.value == 0)
  {
    match span.parentSpanId
    case Some(pid) => if pid in starts then Some(SatSub(span.startTimeUnixNano, starts[pid])) else None
    case None => None
  }

  /** The edge table: an upsert of `from=>to`, skipped without a parent or for a self-edge. */
  function RecordEdge(edges: map<string, Edge>, from: Option<string>, to: string): (r: map<string, Edge>)
    ensures from.None? || from.value == to ==> r == edges
    ensures from.Some? && from.value != to ==> var key := EdgeKey(from.value, to);
      && r.Keys == edges.Keys + {key}
      && r[key].flowCount == (if key in edges then edges[key].flowCount + 1 else 1)
      && (key !in edges ==> r[key].source == from.value && r[key].target == to)
      && (key in edges ==> r[key] == edges[key].(flowCount := edges[key].flowCount + 1))
      && forall k :: k in edges && k != key ==> r[k] == edges[k]
  {
    match from
    case None => edges
    case Some(f) =>
      if f == to then edges
      else
        var key := EdgeKey(f, to);
        if key in edges then edges[key := edges[key].(flowCount := edges[key].flowCount + 1)]
        else edges[key := Edge(f, to, 1)]
  }

  /** The in-flight table: the span is filed under its trace, replacing one with its span id. */
  function FileSpan(inFlight: map<string, map<string, SpanEvent>>, span: SpanEvent)
    : (r: map<string, map<string, SpanEvent>>)
    ensures r.Keys == inFlight.Keys + {span.traceId}
    ensures span.spanId in r[span.traceId] && r[span.traceId][span.spanId] == span
    ensures span.traceId in inFlight ==>
      r[span.traceId].Keys == inFlight[span.traceId].Keys + {span.spanId}
    ensures span.traceId !in inFlight ==> r[span.traceId].Keys == {span.spanId}
    ensures forall s :: s in r[span.traceId] && s != span.spanId ==>
      r[span.traceId][s] == inFlight[span.traceId][s]
    ensures forall t :: t in inFlight && t != span.traceId ==> r[t] == inFlight[t]
  {
    var spans := if span.traceId in inFlight then inFlight[span.traceId] else map[];
    inFlight[span.traceId := spans[span.spanId := span]]
  }

  /** The payload `ingest_span` returns for `span`, given the two span indexes. */
  function Arrive(span: SpanEvent, names: map<string, string>, starts: map<string, nat>)
    : (p: SpanArrivedPayload)
    ensures p.toNode == NodeIdOf(span)
    ensures p.fromNode == ResolveParent(span.parentSpanId, names)
    ensures p.edgeLatencyNs == EdgeLatency(span, starts)
    ensures p.traceId == span.traceId && p.spanId == span.spanId
    ensures p.parentSpanId == span.parentSpanId && p.name == span.name && p.target == span.target
    ensures p.startTimeUnixNano == span.startTimeUnixNano && p.endTimeUnixNano == span.endTimeUnixNano
    ensures p.durationNs == span.durationNs && p.status == span.status
    ensures p.serviceName == span.serviceName
  {
    SpanArrivedPayload(
      span.traceId, span.spanId, span.parentSpanId, span.name, span.target,
      span.startTimeUnixNano, span.endTimeUnixNano, span.durationNs,
      span.status, span.serviceName,
      ResolveParent(span.parentSpanId, names), NodeIdOf(span), EdgeLatency(span, starts))
  }

  // ---------------------------------------------------------------------------
  // Table invariants

  /** Every node is stored under its own id and has been seen at least once. */
  ghost predicate NodesKeyed(nodes: map<string, Node>)
  {
    forall k :: k in nodes ==> nodes[k].id == k && nodes[k].spanCount >= 1
  }

  /** Every edge is stored under `source=>target`, is no self-edge and was seen. */
  ghost predicate EdgesKeyed(edges: map<string, Edge>)
  {
    forall k :: k in edges ==>
      k == EdgeKey(edges[k].source, edges[k].target) &&
      edges[k].source != edges[k].target && edges[k].flowCount >= 1
  }

  /** Every in-flight span is filed under its own trace id and span id. */
  ghost predicate InFlightKeyed(inFlight: map<string, map<string, SpanEvent>>)
  {
    forall t, s :: t in inFlight && s in inFlight[t] ==>
      inFlight[t][s].traceId == t && inFlight[t][s].spanId == s
  }

  lemma UpsertNodeKeyed(nodes: map<string, Node>, span: SpanEvent)
    requires NodesKeyed(nodes)
    ensures NodesKeyed(UpsertNode(nodes, span))
  {
  }

  lemma RecordEdgeKeyed(edges: map<string, Edge>, from: Option<string>, to: string)
    requires EdgesKeyed(edges)
    ensures EdgesKeyed(RecordEdge(edges, from, to))
  {
  }

  lemma InFlightKeyedRemove(inFlight: map<string, map<string, SpanEvent>>, traceId: string)
    requires InFlightKeyed(inFlight)
    ensures InFlightKeyed(inFlight - {traceId})
  {
  }

  lemma FileSpanKeyed(inFlight: map<string, map<string, SpanEvent>>, span: SpanEvent)
    requires InFlightKeyed(inFlight)
    ensures InFlightKeyed(FileSpan(inFlight, span))
  {
  }

  /**
   * Every indexed span and every edge end names a known node or one of
   * `pending`, the nodes of spans still to be ingested.
   */
  ghost predicate ClosedUnder(nodes: map<string, Node>, edges: map<string, Edge>,
                              names: map<string, string>, pending: set<string>)
  {
    && (forall s :: s in names ==> names[s] in nodes || names[s] in pending)
    && (forall k :: k in edges ==>
          (edges[k].source in nodes || edges[k].source in pending) &&
          (edges[k].target in nodes || edges[k].target in pending))
  }

  lemma ClosedUnderWiden(nodes: map<string, Node>, edges: map<string, Edge>,
                         names: map<string, string>, pending: set<string>, more: set<string>)
    requires ClosedUnder(nodes, edges, names, pending)
    ensures ClosedUnder(nodes, edges, names, pending + more)
  {
  }

  /**
   * Ingesting a span makes its own node known and adds only an edge from its
   * parent's indexed node to it, so that node leaves the pending set.
   */
  lemma IngestClosed(nodes: map<string, Node>, edges: map<string, Edge>, names: map<string, string>,
                     pending: set<string>, span: SpanEvent)
    requires ClosedUnder(nodes, edges, names, pending + {NodeIdOf(span)})
    ensures ClosedUnder(UpsertNode(nodes, span),
                        RecordEdge(edges, ResolveParent(span.parentSpanId, names), NodeIdOf(span)),
                        names, pending)
  {
    var nodes' := UpsertNode(nodes, span);
    var from := ResolveParent(span.parentSpanId, names);
    var edges' := RecordEdge(edges, from, NodeIdOf(span));
    assert nodes.Keys <= nodes'.Keys && NodeIdOf(span) in nodes';
    if from.Some? && from.value != NodeIdOf(span) {
      var key := EdgeKey(from.value, NodeIdOf(span));
      forall k | k in edges'
        ensures (edges'[k].source in nodes' || edges'[k].source in pending) &&
                (edges'[k].target in nodes' || edges'[k].target in pending)
      {
        if k != key {
          assert edges'[k] == edges[k];
        }
      }
    }
  }

  /** Dropping span ids from the index keeps it closed. */
  lemma ClosedUnderPrune(nodes: map<string, Node>, edges: map<string, Edge>,
                         names: map<string, string>, pending: set<string>, gone: set<string>)
    requires ClosedUnder(nodes, edges, names, pending)
    ensures ClosedUnder(nodes, edges, names - gone, pending)
  {
  }
}
