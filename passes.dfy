/**
 * What the two passes of `export` (backend/src/otlp.rs) do to the tables
 * of `AppState`, as functions of the batch: pass 1 indexes every span id
 * of the batch before pass 2 ingests any span, so a child that arrives
 * before its parent still finds the parent's node and start time.
 */
module Passes {
  import opened Options
  import opened Shapes
  import opened Tables

  // ---------------------------------------------------------------------------
  // pass 1: the span indexes

  /** The index after inserting `f(s)` under `s.spanId` for every span, in order. */
  function Indexed<V>(m: map<string, V>, batch: seq<SpanEvent>, f: SpanEvent -> V): map<string, V>
    decreases |batch|
  {
    if |batch| == 0 then m
    else
      var n := |batch| - 1;
      Indexed(m, batch[..n], f)[batch[n].spanId := f(batch[n])]
  }

  function IndexNames(names: map<string, string>, batch: seq<SpanEvent>): map<string, string>
  {
    Indexed(names, batch, NodeIdOf)
  }

  function StartOf(s: SpanEvent): nat
  {
    s.startTimeUnixNano
  }

  function IndexStarts(starts: map<string, nat>, batch: seq<SpanEvent>): map<string, nat>
  {
    Indexed(starts, batch, StartOf)
  }

  /** `batch[j]` is the last span of the batch with its span id. */
  predicate LastWithId(batch: seq<SpanEvent>, j: int)
  {
    0 <= j < |batch| && forall j' :: j < j' < |batch| ==> batch[j'].spanId != batch[j].spanId
  }

  predicate InBatch(batch: seq<SpanEvent>, k: string)
  {
    exists j :: 0 <= j < |batch| && batch[j].spanId == k
  }

  /** After the pass, the span ids of the batch are indexed, besides the keys already there. */
  lemma {:induction false} IndexedKeys<V>(m: map<string, V>, batch: seq<SpanEvent>, f: SpanEvent -> V, k: string)
    ensures k in Indexed(m, batch, f) <==> k in m || InBatch(batch, k)
    decreases |batch|
  {
    if |batch| > 0 {
      var n := |batch| - 1;
      var front := batch[..n];
      assert Indexed(m, batch, f) == Indexed(m, front, f)[batch[n].spanId := f(batch[n])];
      IndexedKeys(m, front, f, k);
      if InBatch(front, k) {
        var j :| 0 <= j < |front| && front[j].spanId == k;
        assert batch[j].spanId == k;
      }
      if InBatch(batch, k) && batch[n].spanId != k {
        var j :| 0 <= j < |batch| && batch[j].spanId == k;
        assert j != n;
        assert front[j].spanId == k;
      }
    }
  }

  /** A key no span of the batch has keeps its old value. */
  lemma {:induction false} IndexedUntouched<V>(m: map<string, V>, batch: seq<SpanEvent>, f: SpanEvent -> V, k: string)
    requires !InBatch(batch, k) && k in m
    ensures k in Indexed(m, batch, f) && Indexed(m, batch, f)[k] == m[k]
    decreases |batch|
  {
    if |batch| > 0 {
      var n := |batch| - 1;
      var front := batch[..n];
      assert batch[n].spanId != k;
      forall j | 0 <= j < |front| ensures front[j].spanId != k {
        assert front[j] == batch[j];
      }
      IndexedUntouched(m, front, f, k);
    }
  }

  /** A span id of the batch is indexed with the value of the last span that has it. */
  lemma {:induction false} IndexedLast<V>(m: map<string, V>, batch: seq<SpanEvent>, f: SpanEvent -> V, j: int)
    requires LastWithId(batch, j)
    ensures batch[j].spanId in Indexed(m, batch, f) && Indexed(m, batch, f)[batch[j].spanId] == f(batch[j])
    decreases |batch|
  {
    var n := |batch| - 1;
    var front := batch[..n];
    if j < n {
      assert batch[n].spanId != batch[j].spanId;
      assert LastWithId(front, j) by {
        forall j' | j < j' < |front| ensures front[j'].spanId != front[j].spanId {
          assert front[j'] == batch[j'];
        }
      }
      IndexedLast(m, front, f, j);
      assert front[j] == batch[j];
    }
  }

  /**
   * The point of the pre-index pass: a span whose parent is in the same
   * batch resolves the parent's node and measures its latency from the
   * parent's start, whatever their order in the batch.
   */
  lemma ParentResolves(names: map<string, string>, starts: map<string, nat>, batch: seq<SpanEvent>, i: int, j: int)
    requires 0 <= i < |batch| && LastWithId(batch, j)
    requires batch[i].parentSpanId == Some(batch[j].spanId)
    ensures var p := Arrive(batch[i], IndexNames(names, batch), IndexStarts(starts, batch));
      && p.fromNode == Some(NodeIdOf(batch[j]))
      && p.edgeLatencyNs == Some(SatSub(batch[i].startTimeUnixNano, batch[j].startTimeUnixNano))
  {
    IndexedLast(names, batch, NodeIdOf, j);
    IndexedLast(starts, batch, StartOf, j);
  }

  // ---------------------------------------------------------------------------
  // pass 2: ingesting the batch

  /** The node table after ingesting the batch in order. */
  function NodesAfter(nodes: map<string, Node>, batch: seq<SpanEvent>): map<string, Node>
    decreases |batch|
  {
    if |batch| == 0 then nodes
    else UpsertNode(NodesAfter(nodes, batch[..|batch| - 1]), batch[|batch| - 1])
  }

  /** The edge table after ingesting the batch in order, against fixed span indexes. */
  function EdgesAfter(edges: map<string, Edge>, names: map<string, string>, batch: seq<SpanEvent>): map<string, Edge>
    decreases |batch|
  {
    if |batch| == 0 then edges
    else
      var s := batch[|batch| - 1];
      RecordEdge(EdgesAfter(edges, names, batch[..|batch| - 1]), ResolveParent(s.parentSpanId, names), NodeIdOf(s))
  }

  /** The in-flight table after ingesting the batch in order. */
  function InFlightAfter(inFlight: map<string, map<string, SpanEvent>>, batch: seq<SpanEvent>)
    : map<string, map<string, SpanEvent>>
    decreases |batch|
  {
    if |batch| == 0 then inFlight
    else FileSpan(InFlightAfter(inFlight, batch[..|batch| - 1]), batch[|batch| - 1])
  }

  /** The payloads of the batch, against fixed span indexes. */
  function Payloads(batch: seq<SpanEvent>, names: map<string, string>, starts: map<string, nat>)
    : seq<SpanArrivedPayload>
  {
    seq(|batch|, i requires 0 <= i < |batch| => Arrive(batch[i], names, starts))
  }

  /** The trace ids of the root spans of the batch, in batch order (repeats kept). */
  function RootTraceIds(batch: seq<SpanEvent>): seq<string>
    decreases |batch|
  {
    if |batch| == 0 then []
    else
      var s := batch[|batch| - 1];
      RootTraceIds(batch[..|batch| - 1]) + (if s.parentSpanId.None? then [s.traceId] else [])
  }

  // The folds of pass 2 taken one span further.

  lemma NodesStep(nodes: map<string, Node>, batch: seq<SpanEvent>, i: nat)
    requires i < |batch|
    ensures NodesAfter(nodes, batch[..i + 1]) == UpsertNode(NodesAfter(nodes, batch[..i]), batch[i])
  {
    assert batch[..i + 1][..i] == batch[..i];
  }

  lemma EdgesStep(edges: map<string, Edge>, names: map<string, string>, batch: seq<SpanEvent>, i: nat)
    requires i < |batch|
    ensures EdgesAfter(edges, names, batch[..i + 1]) ==
      RecordEdge(EdgesAfter(edges, names, batch[..i]), ResolveParent(batch[i].parentSpanId, names), NodeIdOf(batch[i]))
  {
    assert batch[..i + 1][..i] == batch[..i];
  }

  lemma InFlightStep(inFlight: map<string, map<string, SpanEvent>>, batch: seq<SpanEvent>, i: nat)
    requires i < |batch|
    ensures InFlightAfter(inFlight, batch[..i + 1]) == FileSpan(InFlightAfter(inFlight, batch[..i]), batch[i])
  {
    assert batch[..i + 1][..i] == batch[..i];
  }

  lemma PayloadsStep(batch: seq<SpanEvent>, names: map<string, string>, starts: map<string, nat>, i: nat)
    requires i < |batch|
    ensures Payloads(batch[..i + 1], names, starts) == Payloads(batch[..i], names, starts) + [Arrive(batch[i], names, starts)]
  {
  }

  lemma RootsStep(batch: seq<SpanEvent>, i: nat)
    requires i < |batch|
    ensures RootTraceIds(batch[..i + 1]) ==
      RootTraceIds(batch[..i]) + (if batch[i].parentSpanId.None? then [batch[i].traceId] else [])
  {
    assert batch[..i + 1][..i] == batch[..i];
  }

  /** The node ids of the spans from position `i` of the batch on. */
  ghost function Pending(batch: seq<SpanEvent>, i: nat): set<string>
  {
    set j | i <= j < |batch| :: NodeIdOf(batch[j])
  }

  lemma PendingStep(batch: seq<SpanEvent>, i: nat)
    requires i < |batch|
    ensures Pending(batch, i) == Pending(batch, i + 1) + {NodeIdOf(batch[i])}
  {
  }

  /**
   * Pass 2 keeps the tables closed: once every index value and every edge
   * end is a known node or the node of a span still to come, ingesting the
   * first `i` spans leaves only the nodes of the later spans pending.
   */
  lemma {:induction false} FoldClosed(nodes: map<string, Node>, edges: map<string, Edge>,
                                      names: map<string, string>, batch: seq<SpanEvent>, i: nat)
    requires i <= |batch|
    requires ClosedUnder(nodes, edges, names, Pending(batch, 0))
    ensures ClosedUnder(NodesAfter(nodes, batch[..i]), EdgesAfter(edges, names, batch[..i]), names, Pending(batch, i))
    decreases i
  {
    if i > 0 {
      var s := batch[i - 1];
      var n0, e0 := NodesAfter(nodes, batch[..i - 1]), EdgesAfter(edges, names, batch[..i - 1]);
      FoldClosed(nodes, edges, names, batch, i - 1);
      PendingStep(batch, i - 1);
      IngestClosed(n0, e0, names, Pending(batch, i), s);
      NodesStep(nodes, batch, i - 1);
      EdgesStep(edges, names, batch, i - 1);
    } else {
      assert batch[..0] == [];
    }
  }

  /** Ingesting the whole batch closes the tables over the indexes of pass 1. */
  lemma FoldClosedAll(nodes: map<string, Node>, edges: map<string, Edge>,
                      names: map<string, string>, batch: seq<SpanEvent>)
    requires ClosedUnder(nodes, edges, names, Pending(batch, 0))
    ensures ClosedUnder(NodesAfter(nodes, batch), EdgesAfter(edges, names, batch), names, {})
  {
    FoldClosed(nodes, edges, names, batch, |batch|);
    assert batch[..|batch|] == batch;
    assert Pending(batch, |batch|) == {};
  }

  /** The number of spans of the batch with node id `id`. */
  function CountNode(batch: seq<SpanEvent>, id: string): nat
    decreases |batch|
  {
    if |batch| == 0 then 0
    else CountNode(batch[..|batch| - 1], id) + (if NodeIdOf(batch[|batch| - 1]) == id then 1 else 0)
  }

  predicate NodeInBatch(batch: seq<SpanEvent>, id: string)
  {
    exists j :: 0 <= j < |batch| && NodeIdOf(batch[j]) == id
  }

  /**
   * A node exists after the batch exactly when it existed before or some
   * span of the batch has its id, and its span count grows by the number
   * of such spans.
   */
  lemma NodesAfterCount(nodes: map<string, Node>, batch: seq<SpanEvent>, id: string)
    ensures id in NodesAfter(nodes, batch) <==> id in nodes || NodeInBatch(batch, id)
    ensures id in NodesAfter(nodes, batch) ==>
      NodesAfter(nodes, batch)[id].spanCount == (if id in nodes then nodes[id].spanCount else 0) + CountNode(batch, id)
    ensures id in nodes ==> NodesAfter(nodes, batch)[id].nodeLabel == nodes[id].nodeLabel
  {
    NodesAfterMembers(nodes, batch, id);
    NodesAfterSpanCount(nodes, batch, id);
    NodesAfterLabel(nodes, batch, id);
  }

  lemma NodesLast(nodes: map<string, Node>, batch: seq<SpanEvent>)
    requires |batch| > 0
    ensures var n := |batch| - 1; NodesAfter(nodes, batch) == UpsertNode(NodesAfter(nodes, batch[..n]), batch[n])
  {
  }

  lemma NodeInBatchStep(batch: seq<SpanEvent>, id: string)
    requires |batch| > 0
    ensures var n := |batch| - 1;
      NodeInBatch(batch, id) <==> NodeInBatch(batch[..n], id) || NodeIdOf(batch[n]) == id
  {
    var n := |batch| - 1;
    var front := batch[..n];
    if NodeInBatch(front, id) {
      var j :| 0 <= j < |front| && NodeIdOf(front[j]) == id;
      assert NodeIdOf(batch[j]) == id;
    }
    if NodeInBatch(batch, id) && NodeIdOf(batch[n]) != id {
      var j :| 0 <= j < |batch| && NodeIdOf(batch[j]) == id;
      assert j != n;
      assert NodeIdOf(front[j]) == id;
    }
  }

  lemma {:induction false} NodesAfterMembers(nodes: map<string, Node>, batch: seq<SpanEvent>, id: string)
    ensures id in NodesAfter(nodes, batch) <==> id in nodes || NodeInBatch(batch, id)
    decreases |batch|
  {
    if |batch| > 0 {
      var n := |batch| - 1;
      var front := batch[..n];
      NodesLast(nodes, batch);
      NodesAfterMembers(nodes, front, id);
      NodeInBatchStep(batch, id);
    }
  }

  lemma {:induction false} NodesAfterSpanCount(nodes: map<string, Node>, batch: seq<SpanEvent>, id: string)
    ensures id in NodesAfter(nodes, batch) ==>
      NodesAfter(nodes, batch)[id].spanCount == (if id in nodes then nodes[id].spanCount else 0) + CountNode(batch, id)
    decreases |batch|
  {
    if |batch| > 0 {
      var n := |batch| - 1;
      var front := batch[..n];
      var before := NodesAfter(nodes, front);
      NodesLast(nodes, batch);
      assert CountNode(batch, id) == CountNode(front, id) + (if NodeIdOf(batch[n]) == id then 1 else 0);
      NodesAfterSpanCount(nodes, front, id);
      if id !in before && NodeIdOf(batch[n]) == id {
        NodesAfterMembers(nodes, front, id);
        CountNodeAbsent(front, id);
      }
    }
  }

  lemma {:induction false} NodesAfterLabel(nodes: map<string, Node>, batch: seq<SpanEvent>, id: string)
    ensures id in nodes ==> id in NodesAfter(nodes, batch) && NodesAfter(nodes, batch)[id].nodeLabel == nodes[id].nodeLabel
    decreases |batch|
  {
    if |batch| > 0 {
      var n := |batch| - 1;
      var front := batch[..n];
      NodesLast(nodes, batch);
      NodesAfterLabel(nodes, front, id);
    }
  }

  lemma {:induction false} CountNodeAbsent(batch: seq<SpanEvent>, id: string)
    requires !NodeInBatch(batch, id)
    ensures CountNode(batch, id) == 0
    decreases |batch|
  {
    if |batch| > 0 {
      var n := |batch| - 1;
      assert NodeIdOf(batch[n]) != id;
      forall j | 0 <= j < n ensures NodeIdOf(batch[..n][j]) != id {
        assert batch[..n][j] == batch[j];
      }
      CountNodeAbsent(batch[..n], id);
    }
  }

  /**
   * Every span of the batch whose parent resolves to another node leaves
   * the edge from that node to its own; edges already known stay.
   */
  lemma {:induction false} EdgesAfterRecords(edges: map<string, Edge>, names: map<string, string>, batch: seq<SpanEvent>)
    ensures edges.Keys <= EdgesAfter(edges, names, batch).Keys
    ensures forall i :: 0 <= i < |batch| ==>
      var from := ResolveParent(batch[i].parentSpanId, names);
      from.Some? && from.value != NodeIdOf(batch[i]) ==>
        EdgeKey(from.value, NodeIdOf(batch[i])) in EdgesAfter(edges, names, batch)
    decreases |batch|
  {
    if |batch| > 0 {
      var n := |batch| - 1;
      var front := batch[..n];
      EdgesAfterRecords(edges, names, front);
      forall i | 0 <= i < n
        ensures var from := ResolveParent(batch[i].parentSpanId, names);
          from.Some? && from.value != NodeIdOf(batch[i]) ==>
            EdgeKey(from.value, NodeIdOf(batch[i])) in EdgesAfter(edges, names, batch)
      {
        assert front[i] == batch[i];
      }
    }
  }

  /** The roots of the batch are the trace ids of its spans without a parent. */
  lemma {:induction false} RootTraceIdsMembers(batch: seq<SpanEvent>, t: string)
    ensures t in RootTraceIds(batch) <==>
      exists j :: 0 <= j < |batch| && batch[j].parentSpanId.None? && batch[j].traceId == t
    decreases |batch|
  {
    if |batch| > 0 {
      var n := |batch| - 1;
      var front := batch[..n];
      RootTraceIdsMembers(front, t);
      if t in RootTraceIds(front) {
        var j :| 0 <= j < |front| && front[j].parentSpanId.None? && front[j].traceId == t;
        assert batch[j] == front[j];
      }
      if exists j :: 0 <= j < |batch| && batch[j].parentSpanId.None? && batch[j].traceId == t {
        var j :| 0 <= j < |batch| && batch[j].parentSpanId.None? && batch[j].traceId == t;
        if j < n {
          assert front[j] == batch[j];
        } else {
          assert j == n;
        }
      }
    }
  }

  /** Every span of the batch is filed under its trace, so every trace of the batch is in flight. */
  lemma {:induction false} InFlightAfterHolds(inFlight: map<string, map<string, SpanEvent>>, batch: seq<SpanEvent>)
    ensures inFlight.Keys <= InFlightAfter(inFlight, batch).Keys
    ensures forall j :: 0 <= j < |batch| ==> batch[j].traceId in InFlightAfter(inFlight, batch)
    decreases |batch|
  {
    if |batch| > 0 {
      var n := |batch| - 1;
      var front := batch[..n];
      InFlightAfterHolds(inFlight, front);
      forall j | 0 <= j < n ensures batch[j].traceId in InFlightAfter(inFlight, batch) {
        assert front[j] == batch[j];
      }
    }
  }
}
