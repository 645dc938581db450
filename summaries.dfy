/**
 * What `AppState::finalize_trace` (backend/src/state.rs) computes from the
 * spans of one trace: the spans in start-time order and the summary
 * fields of the `TraceComplete` message.
 */
module Summaries {
  import opened Options
  import opened Shapes

  predicate SortedByStart(s: seq<SpanEvent>)
  {
    forall p, q :: 0 <= p < q < |s| ==> s[p].startTimeUnixNano <= s[q].startTimeUnixNano
  }

  /** The spans of a map, for the permutation statements. */
  ghost function Image(m: map<string, SpanEvent>, keys: set<string>): set<SpanEvent>
  {
    set k | k in keys && k in m :: m[k]
  }

  /**
   * `spans_map.into_values().collect()`: the stored spans, one per span id,
   * in an order the map does not fix. Spans are stored under their own span
   * id, so no two keys hold the same span.
   */
  method CollectValues(m: map<string, SpanEvent>) returns (spans: seq<SpanEvent>)
    requires forall k :: k in m ==> m[k].spanId == k
    ensures multiset(spans) == multiset(m.Values)
  {
    spans := [];
    var rest := m.Keys;
    while rest != {}
      invariant rest <= m.Keys
      invariant multiset(spans) == multiset(Image(m, m.Keys - rest))
      decreases rest
    {
      var k :| k in rest;
      ghost var done := m.Keys - rest;
      assert m[k] !in Image(m, done);
      assert Image(m, done + {k}) == Image(m, done) + {m[k]};
      spans := spans + [m[k]];
      rest := rest - {k};
      assert m.Keys - rest == done + {k};
    }
    assert Image(m, m.Keys - rest) == m.Values;
  }

  /** Exchanges two neighbouring elements. */
  method SwapDown(a: array<SpanEvent>, j: nat)
    requires 0 < j < a.Length
    modifies a
    ensures a[j - 1] == old(a[j]) && a[j] == old(a[j - 1])
    ensures forall k :: 0 <= k < a.Length && k != j && k != j - 1 ==> a[k] == old(a[k])
    ensures multiset(a[..]) == multiset(old(a[..]))
  {
    a[j - 1], a[j] := a[j], a[j - 1];
  }

  /** The first `n` elements of `a` are in order of start time. */
  ghost predicate SortedPrefix(a: array<SpanEvent>, n: nat)
    reads a
  {
    forall p, q :: 0 <= p < q < n && q < a.Length ==> a[p].startTimeUnixNano <= a[q].startTimeUnixNano
  }

  /**
   * The state of `Sink` with the moving element at `j`: `a[..i + 1]` is in
   * order except around `j`, and the moving element starts no later than
   * anything after it.
   */
  ghost predicate Sinking(a: array<SpanEvent>, i: nat, j: nat)
    reads a
  {
    && j <= i < a.Length
    && (forall p, q :: 0 <= p < q <= i && p != j && q != j ==>
          a[p].startTimeUnixNano <= a[q].startTimeUnixNano)
    && (forall q :: j < q <= i ==> a[j].startTimeUnixNano <= a[q].startTimeUnixNano)
  }

  /** One exchange of `Sink`: the moving element goes one place left. */
  method SinkStep(a: array<SpanEvent>, i: nat, j: nat)
    requires 0 < j && Sinking(a, i, j)
    requires a[j - 1].startTimeUnixNano > a[j].startTimeUnixNano
    modifies a
    ensures Sinking(a, i, j - 1)
    ensures forall k :: i < k < a.Length ==> a[k] == old(a[k])
    ensures multiset(a[..]) == multiset(old(a[..]))
  {
    SwapDown(a, j);
  }

  /** Moves `a[i]` left past every larger start time; `a[..i]` was sorted. */
  method Sink(a: array<SpanEvent>, i: nat)
    requires i < a.Length
    requires SortedPrefix(a, i)
    modifies a
    ensures SortedPrefix(a, i + 1)
    ensures forall k :: i < k < a.Length ==> a[k] == old(a[k])
    ensures multiset(a[..]) == multiset(old(a[..]))
  {
    var j := i;
    while j > 0 && a[j - 1].startTimeUnixNano > a[j].startTimeUnixNano
      invariant 0 <= j <= i
      invariant Sinking(a, i, j)
      invariant forall k :: i < k < a.Length ==> a[k] == old(a[k])
      invariant multiset(a[..]) == multiset(old(a[..]))
    {
      SinkStep(a, i, j);
      j := j - 1;
    }
  }

  /** `spans.sort_by_key(|s| s.start_time_unix_nano)`, as a stable insertion sort. */
  method SortByStart(a: array<SpanEvent>)
    modifies a
    ensures SortedByStart(a[..])
    ensures multiset(a[..]) == multiset(old(a[..]))
  {
    var i := 0;
    while i < a.Length
      invariant 0 <= i <= a.Length
      invariant SortedPrefix(a, i)
      invariant multiset(a[..]) == multiset(old(a[..]))
    {
      Sink(a, i);
      i := i + 1;
    }
  }

  /** `spans.sort_by_key(|s| s.start_time_unix_nano)` on a vector of spans. */
  method SortSpans(spans: seq<SpanEvent>) returns (sorted: seq<SpanEvent>)
    ensures SortedByStart(sorted)
    ensures multiset(sorted) == multiset(spans)
  {
    var a := new SpanEvent[|spans|](j requires 0 <= j < |spans| => spans[j]);
    assert a[..] == spans;
    SortByStart(a);
    sorted := a[..];
  }

  /** The latest end time, or 0 for no spans. */
  function MaxEnd(spans: seq<SpanEvent>): nat
  {
    if |spans| == 0 then 0
    else
      var rest := MaxEnd(spans[1..]);
      if spans[0].endTimeUnixNano >= rest then spans[0].endTimeUnixNano else rest
  }

  /** `MaxEnd` is an upper bound of the end times that one of the spans attains. */
  lemma {:induction false} MaxEndIsMax(spans: seq<SpanEvent>)
    ensures forall i :: 0 <= i < |spans| ==> spans[i].endTimeUnixNano <= MaxEnd(spans)
    ensures |spans| == 0 ==> MaxEnd(spans) == 0
    ensures |spans| > 0 ==> exists i :: 0 <= i < |spans| && MaxEnd(spans) == spans[i].endTimeUnixNano
  {
    if |spans| > 0 {
      var rest := spans[1..];
      MaxEndIsMax(rest);
      forall i | 1 <= i < |spans| ensures spans[i].endTimeUnixNano <= MaxEnd(spans) {
        assert spans[i] == rest[i - 1];
      }
      if |rest| > 0 && spans[0].endTimeUnixNano < MaxEnd(rest) {
        var i :| 0 <= i < |rest| && MaxEnd(rest) == rest[i].endTimeUnixNano;
        assert rest[i] == spans[i + 1];
      }
    }
  }

  /** The name of the first span without a parent, or "" when every span has one. */
  function FirstRootName(spans: seq<SpanEvent>): string
  {
    if |spans| == 0 then ""
    else if spans[0].parentSpanId.None? then spans[0].name
    else FirstRootName(spans[1..])
  }

  /** `FirstRootName` is empty without a root, and otherwise the name of the first root. */
  lemma {:induction false} FirstRootNameIsFirst(spans: seq<SpanEvent>)
    ensures (forall i :: 0 <= i < |spans| ==> spans[i].parentSpanId.Some?) ==> FirstRootName(spans) == ""
    ensures (exists i :: 0 <= i < |spans| && spans[i].parentSpanId.None?) ==>
      exists i :: 0 <= i < |spans| && spans[i].parentSpanId.None? && FirstRootName(spans) == spans[i].name &&
        forall j :: 0 <= j < i ==> spans[j].parentSpanId.Some?
  {
    if |spans| > 0 && spans[0].parentSpanId.Some? {
      var rest := spans[1..];
      FirstRootNameIsFirst(rest);
      if forall i :: 0 <= i < |spans| ==> spans[i].parentSpanId.Some? {
        forall i | 0 <= i < |rest| ensures rest[i].parentSpanId.Some? {
          assert rest[i] == spans[i + 1];
        }
      } else {
        var i :| 0 <= i < |spans| && spans[i].parentSpanId.None?;
        assert rest[i - 1] == spans[i];
        var k :| 0 <= k < |rest| && rest[k].parentSpanId.None? && FirstRootName(rest) == rest[k].name &&
          forall j :: 0 <= j < k ==> rest[j].parentSpanId.Some?;
        assert spans[k + 1] == rest[k];
        forall j | 0 <= j < k + 1 ensures spans[j].parentSpanId.Some? {
          if j > 0 { assert spans[j] == rest[j - 1]; }
        }
      }
    }
  }

  /** The `TraceComplete` for spans already sorted by start time; all zero and empty without spans. */
  function Summarize(traceId: string, spans: seq<SpanEvent>): (t: TraceComplete)
    ensures t.traceId == traceId && t.spans == spans
    ensures |spans| == 0 ==> t.startedAt == 0 && t.durationNs == 0 && t.rootSpanName == ""
  {
    var startedAt := if |spans| > 0 then spans[0].startTimeUnixNano else 0;
    TraceComplete(traceId, spans, FirstRootName(spans), SatSub(MaxEnd(spans), startedAt), startedAt)
  }

  /**
   * A summary lists the spans and the trace id; for sorted spans it starts
   * at the earliest start, lasts until the latest end (0 when that is
   * earlier), and is named after the first root span.
   */
  lemma {:induction false} SummarizeMeaning(traceId: string, spans: seq<SpanEvent>)
    ensures var t := Summarize(traceId, spans);
      && t.traceId == traceId && t.spans == spans
      && (|spans| == 0 ==> t.startedAt == 0 && t.durationNs == 0 && t.rootSpanName == "")
      && (SortedByStart(spans) && |spans| > 0 ==>
            (forall i :: 0 <= i < |spans| ==> t.startedAt <= spans[i].startTimeUnixNano) &&
            exists i :: 0 <= i < |spans| && t.startedAt == spans[i].startTimeUnixNano)
      && t.durationNs == SatSub(MaxEnd(spans), t.startedAt)
      && (forall i :: 0 <= i < |spans| ==> spans[i].endTimeUnixNano <= MaxEnd(spans))
      && t.rootSpanName == FirstRootName(spans)
  {
    MaxEndIsMax(spans);
    FirstRootNameIsFirst(spans);
  }

  /** The summary `finalize_trace` builds from `spans`, the values of the trace's span map `m`. */
  method SummarizeTrace(traceId: string, m: map<string, SpanEvent>, spans: seq<SpanEvent>)
    returns (t: TraceComplete)
    requires multiset(spans) == multiset(m.Values)
    ensures IsSummaryOf(t, traceId, m)
  {
    var sorted := SortSpans(spans);
    t := Summarize(traceId, sorted);
  }

  /** `t` is what `finalize_trace` emits for the spans stored as `m`. */
  ghost predicate IsSummaryOf(t: TraceComplete, traceId: string, m: map<string, SpanEvent>)
  {
    && SortedByStart(t.spans)
    && multiset(t.spans) == multiset(m.Values)
    && t == Summarize(traceId, t.spans)
  }
}
