/**
 * `AppState` (backend/src/state.rs): the node and edge tables, the two
 * per-span indexes, the in-flight traces, the counters and the topology
 * throttle. The broadcast channel is the sequence `sent` of every message
 * sent so far; the clock is a parameter of the methods that read it.
 */
module State {
  import opened Options
  import opened Shapes
  import opened Tables
  import opened Summaries
  import opened Throttle
  import opened Seqs

  /** Every span of the trace started before `cutoff` (true of an empty trace). */
  ghost predicate AllStartedBefore(spans: map<string, SpanEvent>, cutoff: nat)
  {
    forall k :: k in spans ==> spans[k].startTimeUnixNano < cutoff
  }

  /** The trace is empty or some span of it started before `cutoff`. */
  ghost predicate SomeStartedBefore(spans: map<string, SpanEvent>, cutoff: nat)
  {
    |spans| == 0 || exists k :: k in spans && spans[k].startTimeUnixNano < cutoff
  }

  /**
   * The selection step of `cleanup_stale_traces`: a trace is stale when it
   * is empty or when one of its spans, whichever the map yields first,
   * started before the cutoff. Traces whose spans all started earlier are
   * always selected; a selected trace always has an early span.
   */
  method SelectStale(inFlight: map<string, map<string, SpanEvent>>, cutoff: nat)
    returns (stale: seq<string>)
    ensures Elems(stale) <= inFlight.Keys
    ensures Distinct(stale)
    ensures forall t :: t in inFlight && AllStartedBefore(inFlight[t], cutoff) ==> t in stale
    ensures forall i :: 0 <= i < |stale| ==> SomeStartedBefore(inFlight[stale[i]], cutoff)
  {
    stale := [];
    var rest := inFlight.Keys;
    while rest != {}
      invariant rest <= inFlight.Keys
      invariant forall i :: 0 <= i < |stale| ==> stale[i] in inFlight && stale[i] !in rest
      invariant forall i, j :: 0 <= i < j < |stale| ==> stale[i] != stale[j]
      invariant forall t :: t in inFlight && t !in rest && AllStartedBefore(inFlight[t], cutoff) ==> t in stale
      invariant forall i :: 0 <= i < |stale| ==> SomeStartedBefore(inFlight[stale[i]], cutoff)
      decreases rest
    {
      var t :| t in rest;
      var spans := inFlight[t];
      var isStale: bool;
      if |spans| == 0 {
        isStale := true;
      } else {
        assert spans.Keys != {};
        var k :| k in spans;
        isStale := spans[k].startTimeUnixNano < cutoff;
      }
      if isStale {
        stale := stale + [t];
      }
      rest := rest - {t};
    }
  }

  /** The span ids of the traces `ids`, as filed in `inFlight`. */
  ghost function SpanIdsOf(inFlight: map<string, map<string, SpanEvent>>, ids: seq<string>): set<string>
  {
    set i, s | 0 <= i < |ids| && ids[i] in inFlight && s in inFlight[ids[i]] :: s
  }

  class AppState {
    var nodes: map<string, Node>
    var edges: map<string, Edge>
    var inFlight: map<string, map<string, SpanEvent>>
    var totalTraces: nat
    var totalSpans: nat
    /** span id -> node id `target::name` of that span, for parent-edge discovery */
    var spanNameIndex: map<string, string>
    /** span id -> start time in nanoseconds, for edge latency */
    var spanStartIndex: map<string, nat>
    /** time in milliseconds of the last topology broadcast */
    var lastTopoMs: nat
    /** every message sent on the broadcast channel, oldest first */
    var sent: seq<WsMessage>

    /** The tables are keyed as `ingest_span` keys them. */
    ghost predicate Valid()
      reads this
    {
      NodesKeyed(nodes) && EdgesKeyed(edges) && InFlightKeyed(inFlight)
    }

    /** Every indexed span and every edge end names a known node. */
    ghost predicate Closed()
      reads this
    {
      ClosedUnder(nodes, edges, spanNameIndex, {})
    }

    /** `AppState::new`. */
    constructor ()
      ensures Valid() && Closed()
      ensures nodes == map[] && edges == map[] && inFlight == map[]
      ensures spanNameIndex == map[] && spanStartIndex == map[]
      ensures totalTraces == 0 && totalSpans == 0 && lastTopoMs == 0 && sent == []
    {
      nodes, edges, inFlight := map[], map[], map[];
      spanNameIndex, spanStartIndex := map[], map[];
      totalTraces, totalSpans, lastTopoMs := 0, 0, 0;
      sent := [];
    }

    /**
     * `ingest_span`: counts the span, upserts its node, records the edge from
     * its parent's node, files it under its trace and returns its payload.
     */
    method IngestSpan(span: SpanEvent) returns (p: SpanArrivedPayload)
      requires Valid()
      modifies this`totalSpans, this`nodes, this`edges, this`inFlight
      ensures Valid()
      ensures totalSpans == old(totalSpans) + 1
      ensures nodes == UpsertNode(old(nodes), span)
      ensures edges == RecordEdge(old(edges), ResolveParent(span.parentSpanId, spanNameIndex), NodeIdOf(span))
      ensures inFlight == FileSpan(old(inFlight), span)
      ensures p == Arrive(span, spanNameIndex, spanStartIndex)
      ensures old(Closed()) ==> Closed()
    {
      if Closed() {
        ClosedUnderWiden(nodes, edges, spanNameIndex, {}, {NodeIdOf(span)});
        IngestClosed(nodes, edges, spanNameIndex, {}, span);
      }
      totalSpans := totalSpans + 1;
      UpsertNodeKeyed(nodes, span);
      nodes := UpsertNode(nodes, span);
      var fromNode := ResolveParent(span.parentSpanId, spanNameIndex);
      RecordEdgeKeyed(edges, fromNode, NodeIdOf(span));
      edges := RecordEdge(edges, fromNode, NodeIdOf(span));
      p := Arrive(span, spanNameIndex, spanStartIndex);
      FileSpanKeyed(inFlight, span);
      inFlight := FileSpan(inFlight, span);
    }

    /** `maybe_broadcast_topology` at time `nowMs`. */
    method MaybeBroadcastTopology(nowMs: nat)
      modifies this`lastTopoMs, this`sent
      ensures Due(old(lastTopoMs), nowMs) ==>
        lastTopoMs == nowMs && sent == old(sent) + [TopologyUpdated(nodes, edges)]
      ensures !Due(old(lastTopoMs), nowMs) ==> lastTopoMs == old(lastTopoMs) && sent == old(sent)
    {
      if SatSub(nowMs, lastTopoMs) >= TopologyIntervalMs {
        lastTopoMs := nowMs;
        sent := sent + [TopologyUpdated(nodes, edges)];
      }
    }

    /**
     * `finalize_trace`: a known trace leaves the in-flight table, its span
     * ids leave both indexes, and its spans go out sorted by start time in
     * a `TraceCompleted` message. An unknown trace id changes nothing.
     */
    method FinalizeTrace(traceId: string)
      requires Valid()
      modifies this`inFlight, this`totalTraces, this`spanNameIndex, this`spanStartIndex, this`sent
      ensures Valid()
      ensures traceId !in old(inFlight) ==>
        && inFlight == old(inFlight) && totalTraces == old(totalTraces)
        && spanNameIndex == old(spanNameIndex) && spanStartIndex == old(spanStartIndex)
        && sent == old(sent)
      ensures traceId in old(inFlight) ==> var m := old(inFlight)[traceId];
        && inFlight == old(inFlight) - {traceId}
        && totalTraces == old(totalTraces) + 1
        && spanNameIndex == old(spanNameIndex) - m.Keys
        && spanStartIndex == old(spanStartIndex) - m.Keys
        && |sent| == |old(sent)| + 1 && sent[..|old(sent)|] == old(sent)
        && Completes(sent[|old(sent)|], traceId, m)
      ensures old(Closed()) ==> Closed()
    {
      if traceId in inFlight {
        var spansMap := inFlight[traceId];
        if Closed() {
          ClosedUnderPrune(nodes, edges, spanNameIndex, {}, spansMap.Keys);
        }
        InFlightKeyedRemove(inFlight, traceId);
        inFlight := inFlight - {traceId};
        totalTraces := totalTraces + 1;
        var spans := CollectValues(spansMap);
        SpanIdsAreKeys(spansMap, spans);
        PruneIndexes(spans);
        var trace := SummarizeTrace(traceId, spansMap, spans);
        sent := sent + [TraceCompleted(trace)];
      }
    }

    /** The loop of `finalize_trace` that drops each span id from both indexes. */
    method PruneIndexes(spans: seq<SpanEvent>)
      modifies this`spanNameIndex, this`spanStartIndex
      ensures spanStartIndex == old(spanStartIndex) - (set j | 0 <= j < |spans| :: spans[j].spanId)
      ensures spanNameIndex == old(spanNameIndex) - (set j | 0 <= j < |spans| :: spans[j].spanId)
    {
      var i := 0;
      while i < |spans|
        invariant 0 <= i <= |spans|
        invariant spanStartIndex == old(spanStartIndex) - (set j | 0 <= j < i :: spans[j].spanId)
        invariant spanNameIndex == old(spanNameIndex) - (set j | 0 <= j < i :: spans[j].spanId)
      {
        spanStartIndex := spanStartIndex - {spans[i].spanId};
        spanNameIndex := spanNameIndex - {spans[i].spanId};
        assert (set j | 0 <= j < i + 1 :: spans[j].spanId) ==
          (set j | 0 <= j < i :: spans[j].spanId) + {spans[i].spanId};
        i := i + 1;
      }
    }

    /**
     * Since the tables were `inFlight0`, `names0`, `starts0` and the
     * messages were `sent0`, exactly the traces `fin` have been finalised,
     * once each and in that order.
     */
    ghost predicate FinalizedSince(inFlight0: map<string, map<string, SpanEvent>>, names0: map<string, string>,
                                   starts0: map<string, nat>, sent0: seq<WsMessage>, fin: seq<string>)
      reads this
    {
      FinalizedFrom(inFlight, spanNameIndex, spanStartIndex, sent, inFlight0, names0, starts0, sent0, fin)
    }

    /** `finalize_trace(t)` inside a loop that keeps the record of what it has finalised. */
    method FinalizeNext(t: string, ghost inFlight0: map<string, map<string, SpanEvent>>,
                        ghost names0: map<string, string>, ghost starts0: map<string, nat>,
                        ghost sent0: seq<WsMessage>, ghost fin: seq<string>)
      returns (ghost fin': seq<string>)
      requires Valid()
      requires FinalizedSince(inFlight0, names0, starts0, sent0, fin)
      modifies this`inFlight, this`totalTraces, this`spanNameIndex, this`spanStartIndex, this`sent
      ensures Valid()
      ensures FinalizedSince(inFlight0, names0, starts0, sent0, fin')
      ensures t in old(inFlight) ==> fin' == fin + [t] && totalTraces == old(totalTraces) + 1
      ensures t !in old(inFlight) ==> fin' == fin && totalTraces == old(totalTraces)
      ensures old(Closed()) ==> Closed()
    {
      ghost var present := t in inFlight;
      ghost var inFlight1, sent1 := inFlight, sent;
      ghost var names1, starts1 := spanNameIndex, spanStartIndex;
      FinalizeTrace(t);
      if present {
        FinalizedStep(inFlight1, names1, starts1, sent1, inFlight, spanNameIndex, spanStartIndex, sent,
                      inFlight0, names0, starts0, sent0, fin, t);
        fin' := fin + [t];
      } else {
        fin' := fin;
      }
    }

    /** The loop of `cleanup_stale_traces` that finalises each selected trace in turn. */
    method FinalizeAll(ids: seq<string>)
      requires Valid()
      requires Elems(ids) <= inFlight.Keys
      requires Distinct(ids)
      modifies this`inFlight, this`totalTraces, this`spanNameIndex, this`spanStartIndex, this`sent
      ensures Valid()
      ensures totalTraces == old(totalTraces) + |ids|
      ensures FinalizedSince(old(inFlight), old(spanNameIndex), old(spanStartIndex), old(sent), ids)
      ensures old(Closed()) ==> Closed()
    {
      ghost var inFlight0, sent0 := inFlight, sent;
      ghost var names0, starts0 := spanNameIndex, spanStartIndex;
      ghost var wasClosed := Closed();
      NothingFinalized(inFlight, spanNameIndex, spanStartIndex, sent);
      var i := 0;
      while i < |ids|
        invariant 0 <= i <= |ids|
        invariant Valid()
        invariant FinalizedSince(inFlight0, names0, starts0, sent0, ids[..i])
        invariant totalTraces == old(totalTraces) + i
        invariant wasClosed ==> Closed()
      {
        NextPending(ids, i, inFlight0);
        ghost var fin := FinalizeNext(ids[i], inFlight0, names0, starts0, sent0, ids[..i]);
        TakeOneMore(ids, i);
        i := i + 1;
      }
      TakeAll(ids);
    }

    /**
     * `cleanup_stale_traces` at time `nowNs` with `maxAgeNs`: finalises
     * every trace `SelectStale` picks against `now - max_age` (saturating).
     * `evicted` names them, in the order they were finalised.
     */
    method CleanupStaleTraces(nowNs: nat, maxAgeNs: nat) returns (ghost evicted: seq<string>)
      requires Valid()
      modifies this`inFlight, this`totalTraces, this`spanNameIndex, this`spanStartIndex, this`sent
      ensures Valid()
      ensures var cutoff := SatSub(nowNs, maxAgeNs);
        && (forall i :: 0 <= i < |evicted| ==>
              evicted[i] in old(inFlight) && SomeStartedBefore(old(inFlight)[evicted[i]], cutoff))
        && (forall t :: t in old(inFlight) && AllStartedBefore(old(inFlight)[t], cutoff) ==> t in evicted)
      ensures totalTraces == old(totalTraces) + |evicted|
      ensures FinalizedSince(old(inFlight), old(spanNameIndex), old(spanStartIndex), old(sent), evicted)
      ensures old(Closed()) ==> Closed()
    {
      var cutoff := SatSub(nowNs, maxAgeNs);
      var stale := SelectStale(inFlight, cutoff);
      FinalizeAll(stale);
      evicted := stale;
    }
  }

  /** `msg` is the `TraceCompleted` message `finalize_trace` sends for the spans `m`. */
  ghost predicate Completes(msg: WsMessage, traceId: string, m: map<string, SpanEvent>)
  {
    msg.TraceCompleted? && IsSummaryOf(msg.trace, traceId, m)
  }

  /** One round of the `FinalizeAll` loop keeps its bookkeeping of removed traces and span ids. */
  lemma RemovalStep<V>(inFlight0: map<string, map<string, SpanEvent>>, ids: seq<string>, i: nat,
                       inFlight: map<string, map<string, SpanEvent>>,
                       index0: map<string, V>, index: map<string, V>, index': map<string, V>)
    requires i < |ids| && ids[i] in inFlight0
    requires ids[i] !in (set j | 0 <= j < i :: ids[j])
    requires inFlight == inFlight0 - (set j | 0 <= j < i :: ids[j])
    requires index == index0 - SpanIdsOf(inFlight0, ids[..i])
    requires index' == index - inFlight[ids[i]].Keys
    ensures inFlight - {ids[i]} == inFlight0 - (set j | 0 <= j < i + 1 :: ids[j])
    ensures index' == index0 - SpanIdsOf(inFlight0, ids[..i + 1])
  {
    assert (set j | 0 <= j < i + 1 :: ids[j]) == (set j | 0 <= j < i :: ids[j]) + {ids[i]};
    assert inFlight[ids[i]] == inFlight0[ids[i]];
    SpanIdsOfSnoc(inFlight0, ids, i);
  }

  /**
   * `msgs` are the `TraceCompleted` messages for the traces `ids`, one each
   * and in order, as `finalize_trace` sends them for the spans in `inFlight`.
   */
  ghost predicate AllComplete(msgs: seq<WsMessage>, ids: seq<string>,
                              inFlight: map<string, map<string, SpanEvent>>)
    decreases |ids|
  {
    && |msgs| == |ids|
    && (|ids| > 0 ==>
          var n := |ids| - 1;
          && ids[n] in inFlight
          && Completes(msgs[n], ids[n], inFlight[ids[n]])
          && AllComplete(msgs[..n], ids[..n], inFlight))
  }

  /** The `k`-th message of such a run is the one for the `k`-th trace. */
  lemma {:induction false} AllCompleteAt(msgs: seq<WsMessage>, ids: seq<string>,
                                         inFlight: map<string, map<string, SpanEvent>>, k: nat)
    requires AllComplete(msgs, ids, inFlight) && k < |ids|
    ensures ids[k] in inFlight && Completes(msgs[k], ids[k], inFlight[ids[k]])
    decreases |ids|
  {
    var n := |ids| - 1;
    if k < n {
      AllCompleteAt(msgs[..n], ids[..n], inFlight, k);
    }
  }

  /** One round of the `FinalizeAll` loop keeps its record of the messages sent. */
  lemma CompletesStep(inFlight0: map<string, map<string, SpanEvent>>, ids: seq<string>, i: nat,
                      msgs0: seq<WsMessage>, msgs: seq<WsMessage>)
    requires i < |ids| && ids[i] in inFlight0
    requires |msgs| == |msgs0| + 1 && msgs[..|msgs0|] == msgs0
    requires AllComplete(msgs0, ids[..i], inFlight0)
    requires Completes(msgs[|msgs0|], ids[i], inFlight0[ids[i]])
    ensures AllComplete(msgs, ids[..i + 1], inFlight0)
  {
    var a := ids[..i + 1];
    assert a[..i] == ids[..i];
    assert a[i] == ids[i];
    assert |msgs0| == i;
    assert msgs[..i] == msgs0;
    assert AllComplete(msgs[..i], a[..i], inFlight0);
  }

  /** The span ids removed from the indexes are the keys of the trace's span map. */
  lemma SpanIdsAreKeys(m: map<string, SpanEvent>, spans: seq<SpanEvent>)
    requires forall k :: k in m ==> m[k].spanId == k
    requires multiset(spans) == multiset(m.Values)
    ensures (set j | 0 <= j < |spans| :: spans[j].spanId) == m.Keys
  {
    forall k | k in m ensures k in (set j | 0 <= j < |spans| :: spans[j].spanId) {
      assert m[k] in multiset(spans);
      var j :| 0 <= j < |spans| && spans[j] == m[k];
    }
    forall j | 0 <= j < |spans| ensures spans[j].spanId in m {
      assert spans[j] in multiset(m.Values);
    }
  }

  lemma SpanIdsOfSnoc(inFlight: map<string, map<string, SpanEvent>>, ids: seq<string>, i: nat)
    requires i < |ids| && ids[i] in inFlight
    ensures SpanIdsOf(inFlight, ids[..i + 1]) == SpanIdsOf(inFlight, ids[..i]) + inFlight[ids[i]].Keys
  {
    var a, b := ids[..i + 1], ids[..i];
    forall s | s in SpanIdsOf(inFlight, a)
      ensures s in SpanIdsOf(inFlight, b) + inFlight[ids[i]].Keys
    {
      var j :| 0 <= j < |a| && a[j] in inFlight && s in inFlight[a[j]];
      if j < i { assert a[j] == b[j]; }
    }
    forall s | s in SpanIdsOf(inFlight, b) + inFlight[ids[i]].Keys
      ensures s in SpanIdsOf(inFlight, a)
    {
      if s in inFlight[ids[i]] {
        assert a[i] == ids[i];
      } else {
        var j :| 0 <= j < |b| && b[j] in inFlight && s in inFlight[b[j]];
        assert a[j] == b[j];
      }
    }
  }

  /** The set of the elements of a sequence. */
  ghost function Elems(s: seq<string>): set<string>
  {
    set j | 0 <= j < |s| :: s[j]
  }

  /** No element is listed twice. */
  ghost predicate Distinct(s: seq<string>)
  {
    forall a, b :: 0 <= a < b < |s| ==> s[a] != s[b]
  }

  lemma ElemsSnoc(s: seq<string>, x: string)
    ensures Elems(s + [x]) == Elems(s) + {x}
  {
    var s' := s + [x];
    forall y | y in Elems(s') ensures y in Elems(s) + {x} {
      var j :| 0 <= j < |s'| && s'[j] == y;
      if j < |s| { assert s[j] == y; }
    }
    forall y | y in Elems(s) + {x} ensures y in Elems(s') {
      if y in Elems(s) {
        var j :| 0 <= j < |s| && s[j] == y;
        assert s'[j] == y;
      } else {
        assert s'[|s|] == y;
      }
    }
  }

  lemma DistinctSnoc(s: seq<string>, x: string)
    requires Distinct(s) && x !in Elems(s)
    ensures Distinct(s + [x])
  {
    forall a, b | 0 <= a < b < |s + [x]| ensures (s + [x])[a] != (s + [x])[b] {
      if b == |s| {
        assert s[a] in Elems(s);
      }
    }
  }

  /**
   * What a run of `finalize_trace` calls has done, against the tables
   * `inFlight0`, `names0`, `starts0` and messages `sent0` it started from:
   * the traces `fin`, each once, have left the in-flight table and their
   * span ids the indexes, and one `TraceCompleted` per trace has been
   * appended, in the order of `fin`.
   */
  ghost predicate FinalizedFrom(inFlight: map<string, map<string, SpanEvent>>, names: map<string, string>,
                                starts: map<string, nat>, sent: seq<WsMessage>,
                                inFlight0: map<string, map<string, SpanEvent>>, names0: map<string, string>,
                                starts0: map<string, nat>, sent0: seq<WsMessage>, fin: seq<string>)
  {
    && Distinct(fin)
    && Elems(fin) <= inFlight0.Keys
    && inFlight == inFlight0 - Elems(fin)
    && names == names0 - SpanIdsOf(inFlight0, fin)
    && starts == starts0 - SpanIdsOf(inFlight0, fin)
    && |sent| == |sent0| + |fin| && sent[..|sent0|] == sent0
    && AllComplete(sent[|sent0|..], fin, inFlight0)
  }

  /** Before the first call nothing has been finalised. */
  lemma NothingFinalized(inFlight: map<string, map<string, SpanEvent>>, names: map<string, string>,
                         starts: map<string, nat>, sent: seq<WsMessage>)
    ensures FinalizedFrom(inFlight, names, starts, sent, inFlight, names, starts, sent, [])
  {
    assert Elems([]) == {};
    assert SpanIdsOf(inFlight, []) == {};
    assert sent[|sent|..] == [];
  }

  /** The next trace of a list of distinct in-flight traces is still in flight. */
  lemma NextPending(ids: seq<string>, i: nat, inFlight0: map<string, map<string, SpanEvent>>)
    requires i < |ids| && Distinct(ids) && Elems(ids) <= inFlight0.Keys
    ensures ids[i] in inFlight0 - Elems(ids[..i])
  {
    assert ids[i] in Elems(ids);
    forall j | 0 <= j < i ensures ids[..i][j] != ids[i] {
      assert ids[..i][j] == ids[j];
    }
  }

  /** Completing one more trace `t` that is still in flight extends the record by `t`. */
  lemma FinalizedStep(inFlight: map<string, map<string, SpanEvent>>, names: map<string, string>,
                      starts: map<string, nat>, sent: seq<WsMessage>,
                      inFlight': map<string, map<string, SpanEvent>>, names': map<string, string>,
                      starts': map<string, nat>, sent': seq<WsMessage>,
                      inFlight0: map<string, map<string, SpanEvent>>, names0: map<string, string>,
                      starts0: map<string, nat>, sent0: seq<WsMessage>, fin: seq<string>, t: string)
    requires FinalizedFrom(inFlight, names, starts, sent, inFlight0, names0, starts0, sent0, fin)
    requires t in inFlight
    requires inFlight' == inFlight - {t}
    requires names' == names - inFlight[t].Keys && starts' == starts - inFlight[t].Keys
    requires |sent'| == |sent| + 1 && sent'[..|sent|] == sent
    requires Completes(sent'[|sent|], t, inFlight[t])
    ensures FinalizedFrom(inFlight', names', starts', sent', inFlight0, names0, starts0, sent0, fin + [t])
  {
    RemovedStep(inFlight, names, starts, inFlight', names', starts', inFlight0, names0, starts0, fin, t);
    assert inFlight[t] == inFlight0[t];
    SentStep(sent, sent', sent0, inFlight0, fin, t);
  }

  lemma RemovedStep(inFlight: map<string, map<string, SpanEvent>>, names: map<string, string>,
                    starts: map<string, nat>,
                    inFlight': map<string, map<string, SpanEvent>>, names': map<string, string>,
                    starts': map<string, nat>,
                    inFlight0: map<string, map<string, SpanEvent>>, names0: map<string, string>,
                    starts0: map<string, nat>, fin: seq<string>, t: string)
    requires Distinct(fin) && Elems(fin) <= inFlight0.Keys
    requires inFlight == inFlight0 - Elems(fin)
    requires names == names0 - SpanIdsOf(inFlight0, fin)
    requires starts == starts0 - SpanIdsOf(inFlight0, fin)
    requires t in inFlight
    requires inFlight' == inFlight - {t}
    requires names' == names - inFlight[t].Keys && starts' == starts - inFlight[t].Keys
    ensures var fin' := fin + [t];
      && Distinct(fin') && Elems(fin') <= inFlight0.Keys
      && inFlight' == inFlight0 - Elems(fin')
      && names' == names0 - SpanIdsOf(inFlight0, fin')
      && starts' == starts0 - SpanIdsOf(inFlight0, fin')
  {
    var fin' := fin + [t];
    var n := |fin|;
    assert fin'[..n] == fin;
    assert t !in Elems(fin);
    DistinctSnoc(fin, t);
    ElemsSnoc(fin, t);
    assert Elems(fin'[..n]) == (set j | 0 <= j < n :: fin'[j]);
    assert Elems(fin') == (set j | 0 <= j < n + 1 :: fin'[j]);
    assert fin'[..n + 1] == fin';
    RemovalStep(inFlight0, fin', n, inFlight, names0, names, names');
    RemovalStep(inFlight0, fin', n, inFlight, starts0, starts, starts');
  }

  lemma SentStep(sent: seq<WsMessage>, sent': seq<WsMessage>, sent0: seq<WsMessage>,
                 inFlight0: map<string, map<string, SpanEvent>>, fin: seq<string>, t: string)
    requires |sent| == |sent0| + |fin| && sent[..|sent0|] == sent0
    requires AllComplete(sent[|sent0|..], fin, inFlight0)
    requires t in inFlight0
    requires |sent'| == |sent| + 1 && sent'[..|sent|] == sent
    requires Completes(sent'[|sent|], t, inFlight0[t])
    ensures |sent'| == |sent0| + |fin + [t]| && sent'[..|sent0|] == sent0
    ensures AllComplete(sent'[|sent0|..], fin + [t], inFlight0)
  {
    var fin' := fin + [t];
    var n := |fin|;
    assert fin'[..n] == fin && fin'[..n + 1] == fin';
    var msgs0, msgs := sent[|sent0|..], sent'[|sent0|..];
    assert sent'[..|sent0|] == sent'[..|sent|][..|sent0|];
    assert msgs[..|msgs0|] == msgs0;
    assert msgs[|msgs0|] == sent'[|sent|];
    CompletesStep(inFlight0, fin', n, msgs0, msgs);
  }
}
