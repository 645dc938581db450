/**
 * The data shapes of backend/src/state.rs: nodes, edges, decoded spans,
 * the per-span wire payload, a completed trace and the messages sent to
 * WebSocket clients. Times are integer nanoseconds (milliseconds for the
 * topology throttle); the `f64` millisecond fields of the source are kept
 * as the integer nanosecond values they are computed from.
 */
module Shapes {
  import opened Options

  /** A component discovered from spans, keyed by `target::name` (`label` is a Dafny keyword). */
  datatype Node = Node(id: string, nodeLabel: string, category: string, spanCount: nat)

  /** A directed edge between two components, keyed by `source=>target`. */
  datatype Edge = Edge(source: string, target: string, flowCount: nat)

  /** A span decoded from OTLP; `durationNs` stands for `duration_ms`. */
  datatype SpanEvent = SpanEvent(
    traceId: string,
    spanId: string,
    parentSpanId: Option<string>,
    name: string,
    target: string,
    startTimeUnixNano: nat,
    endTimeUnixNano: nat,
    durationNs: nat,
    attributes: seq<(string, string)>,
    status: string,
    serviceName: string)

  /** The per-span wire payload: the span without attributes, plus the edge it implies. */
  datatype SpanArrivedPayload = SpanArrivedPayload(
    traceId: string,
    spanId: string,
    parentSpanId: Option<string>,
    name: string,
    target: string,
    startTimeUnixNano: nat,
    endTimeUnixNano: nat,
    durationNs: nat,
    status: string,
    serviceName: string,
    fromNode: Option<string>,
    toNode: string,
    edgeLatencyNs: Option<nat>)

  datatype TraceComplete = TraceComplete(
    traceId: string,
    spans: seq<SpanEvent>,
    rootSpanName: string,
    durationNs: nat,
    startedAt: nat)

  /**
   * Messages broadcast to clients. The topology messages carry the node and
   * edge tables themselves: the source lists their values in the tables'
   * (unspecified) iteration order.
   */
  datatype WsMessage =
    | TopologySnapshot(nodes: map<string, Node>, edges: map<string, Edge>)
    | TraceCompleted(trace: TraceComplete)
    | TopologyUpdated(nodes: map<string, Node>, edges: map<string, Edge>)
    | Stats(totalTraces: nat, activeNodes: nat, timestamp: nat)
    | SpansBatch(spans: seq<SpanArrivedPayload>)

  /** The node id of a span: `format!("{}::{}", target, name)`. */
  function NodeId(target: string, name: string): string
  {
    target + "::" + name
  }

  function NodeIdOf(s: SpanEvent): string
  {
    NodeId(s.target, s.name)
  }

  /** The edge key: `format!("{}=>{}", from, to)`. */
  function EdgeKey(from: string, to: string): string
  {
    from + "=>" + to
  }

  /** `u64::saturating_sub`. */
  function SatSub(a: nat, b: nat): (r: nat)
    ensures a >= b ==> r + b == a
    ensures a < b ==> r == 0
  {
    if a >= b then a - b else 0
  }
}
