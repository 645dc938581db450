/**
 * The first stage of `export` (backend/src/otlp.rs): every span of the
 * request becomes a `SpanEvent`, in request order, carrying the service
 * name of its resource and the target of its scope or its attributes.
 */
module Convert {
  import opened Options
  import opened Text
  import opened Shapes
  import opened Proto
  import opened Seqs

  // ---------------------------------------------------------------------------
  // service name

  /** The first attribute with key `key`, when there is one. */
  function FindKey(kvs: seq<KeyValue>, key: string): (r: Option<KeyValue>)
    ensures r.None? <==> forall i :: 0 <= i < |kvs| ==> kvs[i].key != key
    ensures r.Some? ==> exists i :: (0 <= i < |kvs| && kvs[i] == r.value && kvs[i].key == key &&
      forall j :: 0 <= j < i ==> kvs[j].key != key)
  {
    if |kvs| == 0 then None
    else if kvs[0].key == key then
      assert kvs[0] == kvs[0];
      Some(kvs[0])
    else
      var r := FindKey(kvs[1..], key);
      assert forall i :: 1 <= i < |kvs| ==> kvs[i] == kvs[1..][i - 1];
      r
  }

  /** Index `i` holds the first attribute with key `key`. */
  predicate FirstWithKey(kvs: seq<KeyValue>, key: string, i: int)
  {
    0 <= i < |kvs| && kvs[i].key == key && forall j :: 0 <= j < i ==> kvs[j].key != key
  }

  lemma FirstWithKeyUnique(kvs: seq<KeyValue>, key: string, i: int, i': int)
    requires FirstWithKey(kvs, key, i) && FirstWithKey(kvs, key, i')
    ensures i == i'
  {
  }

  /** The string value of an attribute, if its value is a string. */
  function StringOf(kv: KeyValue): Option<string>
  {
    match kv.value
    case Some(AnyValue(Some(StringValue(s)))) => Some(s)
    case _ => None
  }

  /**
   * The resource's service name: the first `service.name` attribute when
   * its value is a string; `"unknown"` without a resource, without such an
   * attribute, or when the first one holds another kind of value.
   */
  function ServiceNameOf(resource: Option<Resource>): (r: string)
    ensures resource.None? ==> r == "unknown"
    ensures resource.Some? ==> var kvs := resource.value.attributes;
      (forall i :: 0 <= i < |kvs| ==> kvs[i].key != "service.name") ==> r == "unknown"
    ensures r != "unknown" ==>
      && resource.Some?
      && exists i :: FirstWithKey(resource.value.attributes, "service.name", i) &&
           StringOf(resource.value.attributes[i]) == Some(r)
  {
    var found := if resource.Some? then FindKey(resource.value.attributes, "service.name") else None;
    if found.Some? && StringOf(found.value).Some? then StringOf(found.value).value else "unknown"
  }

  lemma ServiceNameRules(resource: Option<Resource>)
    ensures resource.None? ==> ServiceNameOf(resource) == "unknown"
    ensures resource.Some? ==> var kvs := resource.value.attributes;
      && ((forall i :: 0 <= i < |kvs| ==> kvs[i].key != "service.name") ==> ServiceNameOf(resource) == "unknown")
      && (forall i :: FirstWithKey(kvs, "service.name", i) ==>
            ServiceNameOf(resource) == (if StringOf(kvs[i]).Some? then StringOf(kvs[i]).value else "unknown"))
  {
    if resource.Some? {
      var kvs := resource.value.attributes;
      var found := FindKey(kvs, "service.name");
      forall i | FirstWithKey(kvs, "service.name", i)
        ensures ServiceNameOf(resource) == (if StringOf(kvs[i]).Some? then StringOf(kvs[i]).value else "unknown")
      {
        var i' :| 0 <= i' < |kvs| && kvs[i'] == found.value && kvs[i'].key == "service.name" &&
          forall j :: 0 <= j < i' ==> kvs[j].key != "service.name";
        assert FirstWithKey(kvs, "service.name", i');
        FirstWithKeyUnique(kvs, "service.name", i, i');
      }
    }
  }

  // ---------------------------------------------------------------------------
  // target, attributes, status, ids

  /** The scope's name, or empty text without a scope. */
  function ScopeTarget(scope: Option<InstrumentationScope>): string
  {
    if scope.Some? then scope.value.name else ""
  }

  predicate IsTargetKey(key: string)
  {
    key == "target" || key == "code.namespace"
  }

  /** The rendered value of the last `target` or `code.namespace` attribute. */
  function TargetOverride(kvs: seq<KeyValue>): Option<string>
    decreases |kvs|
  {
    if |kvs| == 0 then None
    else
      var n := |kvs| - 1;
      if IsTargetKey(kvs[n].key) then Some(KvToString(kvs[n].value))
      else TargetOverride(kvs[..n])
  }

  lemma TargetOverrideStep(kvs: seq<KeyValue>)
    requires |kvs| > 0
    ensures var n := |kvs| - 1;
      TargetOverride(kvs) == if IsTargetKey(kvs[n].key) then Some(KvToString(kvs[n].value)) else TargetOverride(kvs[..n])
  {
  }

  /** `i` is the position of the last target attribute. */
  predicate LastTarget(kvs: seq<KeyValue>, i: int)
  {
    0 <= i < |kvs| && IsTargetKey(kvs[i].key) && forall j :: i < j < |kvs| ==> !IsTargetKey(kvs[j].key)
  }

  /** There is no override exactly when no attribute has a target key. */
  lemma {:induction false} TargetOverrideNone(kvs: seq<KeyValue>)
    ensures TargetOverride(kvs).None? <==> forall i :: 0 <= i < |kvs| ==> !IsTargetKey(kvs[i].key)
    decreases |kvs|
  {
    if |kvs| > 0 {
      var n := |kvs| - 1;
      var front := kvs[..n];
      TargetOverrideStep(kvs);
      if !IsTargetKey(kvs[n].key) {
        TargetOverrideNone(front);
        if TargetOverride(front).None? {
          forall j | 0 <= j < |kvs| ensures !IsTargetKey(kvs[j].key) {
            if j < n { assert kvs[j] == front[j]; }
          }
        } else {
          var j :| 0 <= j < n && IsTargetKey(front[j].key);
          assert kvs[j] == front[j];
        }
      }
    }
  }

  /** An override is the value of the last attribute with a target key. */
  lemma {:induction false} TargetOverrideLast(kvs: seq<KeyValue>)
    ensures TargetOverride(kvs).Some? ==>
      exists i :: LastTarget(kvs, i) && TargetOverride(kvs).value == KvToString(kvs[i].value)
    decreases |kvs|
  {
    if |kvs| > 0 {
      var n := |kvs| - 1;
      TargetOverrideStep(kvs);
      if IsTargetKey(kvs[n].key) {
        assert LastTarget(kvs, n);
      } else {
        var front := kvs[..n];
        TargetOverrideLast(front);
        if TargetOverride(front).Some? {
          var i :| LastTarget(front, i) && TargetOverride(front).value == KvToString(front[i].value);
          forall j | i < j < |kvs| ensures !IsTargetKey(kvs[j].key) {
            if j < n { assert kvs[j] == front[j]; }
          }
          assert kvs[i] == front[i];
          assert LastTarget(kvs, i);
        }
      }
    }
  }

  /** The span's target: the override, else the scope's name; the span name when that is empty. */
  function SpanTarget(scopeTarget: string, span: Span): (r: string)
    ensures r != "" || span.name == ""
  {
    var o := TargetOverride(span.attributes);
    var t := if o.Some? then o.value else scopeTarget;
    if t == "" then span.name else t
  }

  /** Every attribute with its value rendered, in order. */
  function RenderedAttributes(kvs: seq<KeyValue>): (r: seq<(string, string)>)
    ensures |r| == |kvs|
    ensures forall i :: 0 <= i < |kvs| ==> r[i].0 == kvs[i].key && r[i].1 == KvToString(kvs[i].value)
  {
    seq(|kvs|, i requires 0 <= i < |kvs| => (kvs[i].key, KvToString(kvs[i].value)))
  }

  /** The status text: code 2 is `error`, code 1 is `ok`, anything else `unset`. */
  function StatusText(status: Option<Status>): (r: string)
    ensures r == "error" <==> status.Some? && status.value.code == 2
    ensures r == "ok" <==> status.Some? && status.value.code == 1
    ensures r == "unset" <==> status.None? || (status.value.code != 1 && status.value.code != 2)
  {
    match status
    case Some(Status(2)) => "error"
    case Some(Status(1)) => "ok"
    case _ => "unset"
  }

  /** The parent id: none for an empty byte string, otherwise its hex text. */
  function ParentId(bytes: seq<byte>): (r: Option<string>)
    ensures r.None? <==> |bytes| == 0
    ensures r.Some? ==> |r.value| == 2 * |bytes| && Unhex(r.value) == bytes
  {
    if |bytes| == 0 then None
    else
      UnhexHex(bytes);
      Some(Hex(bytes))
  }

  /**
   * One exported span as a `SpanEvent`. What it keeps of the exported one:
   * the ids decode back to the exported bytes, name and times are copied,
   * the duration is the saturating difference of the times, and it is a
   * root exactly when the exported parent id is empty.
   */
  function ConvertSpan(serviceName: string, scopeTarget: string, span: Span): (e: SpanEvent)
    ensures Unhex(e.traceId) == span.traceId && Unhex(e.spanId) == span.spanId
    ensures e.parentSpanId.None? <==> |span.parentSpanId| == 0
    ensures e.parentSpanId.Some? ==> Unhex(e.parentSpanId.value) == span.parentSpanId
    ensures e.name == span.name && e.serviceName == serviceName
    ensures e.startTimeUnixNano == span.startTimeUnixNano && e.endTimeUnixNano == span.endTimeUnixNano
    ensures span.endTimeUnixNano >= span.startTimeUnixNano ==>
      e.durationNs + span.startTimeUnixNano == span.endTimeUnixNano
    ensures span.endTimeUnixNano < span.startTimeUnixNano ==> e.durationNs == 0
  {
    UnhexHex(span.traceId);
    UnhexHex(span.spanId);
    SpanEvent(
      Hex(span.traceId), Hex(span.spanId), ParentId(span.parentSpanId),
      span.name, SpanTarget(scopeTarget, span),
      span.startTimeUnixNano, span.endTimeUnixNano,
      SatSub(span.endTimeUnixNano, span.startTimeUnixNano),
      RenderedAttributes(span.attributes), StatusText(span.status), serviceName)
  }

  /** Two spans of a batch that share a span id were exported with the same span id bytes. */
  lemma SpanIdsDistinguish(s1: string, t1: string, a: Span, s2: string, t2: string, b: Span)
    ensures ConvertSpan(s1, t1, a).spanId == ConvertSpan(s2, t2, b).spanId <==> a.spanId == b.spanId
  {
    HexInjective(a.spanId, b.spanId);
  }

  // ---------------------------------------------------------------------------
  // the batch

  /** The spans of one scope, converted in order. */
  function ScopeBatch(serviceName: string, ss: ScopeSpans): seq<SpanEvent>
  {
    seq(|ss.spans|, k requires 0 <= k < |ss.spans| => ConvertSpan(serviceName, ScopeTarget(ss.scope), ss.spans[k]))
  }

  function ScopesBatch(serviceName: string, scopes: seq<ScopeSpans>): seq<SpanEvent>
    decreases |scopes|
  {
    if |scopes| == 0 then []
    else ScopesBatch(serviceName, scopes[..|scopes| - 1]) + ScopeBatch(serviceName, scopes[|scopes| - 1])
  }

  function ResourceBatch(rs: ResourceSpans): seq<SpanEvent>
  {
    ScopesBatch(ServiceNameOf(rs.resource), rs.scopeSpans)
  }

  /** The batch of a request: every span of every scope of every resource, in order. */
  function Batch(resources: seq<ResourceSpans>): seq<SpanEvent>
    decreases |resources|
  {
    if |resources| == 0 then []
    else Batch(resources[..|resources| - 1]) + ResourceBatch(resources[|resources| - 1])
  }

  /** `s` is the conversion of some span of some scope of `rs`. */
  ghost predicate FromResource(rs: ResourceSpans, s: SpanEvent)
  {
    exists c, k :: 0 <= c < |rs.scopeSpans| && 0 <= k < |rs.scopeSpans[c].spans| &&
      s == ConvertSpan(ServiceNameOf(rs.resource), ScopeTarget(rs.scopeSpans[c].scope), rs.scopeSpans[c].spans[k])
  }

  /** `s` is the conversion of some span of the request. */
  ghost predicate FromRequest(resources: seq<ResourceSpans>, s: SpanEvent)
  {
    exists r :: 0 <= r < |resources| && FromResource(resources[r], s)
  }

  lemma ScopesBatchStep(serviceName: string, scopes: seq<ScopeSpans>, c: nat)
    requires c < |scopes|
    ensures ScopesBatch(serviceName, scopes[..c + 1]) == ScopesBatch(serviceName, scopes[..c]) + ScopeBatch(serviceName, scopes[c])
  {
    assert scopes[..c + 1][..c] == scopes[..c];
  }

  lemma BatchStep(resources: seq<ResourceSpans>, r: nat)
    requires r < |resources|
    ensures Batch(resources[..r + 1]) == Batch(resources[..r]) + ResourceBatch(resources[r])
  {
    assert resources[..r + 1][..r] == resources[..r];
  }

  /** A scope contributes exactly the conversions of its spans. */
  lemma ScopeBatchMembers(serviceName: string, ss: ScopeSpans, s: SpanEvent)
    ensures s in ScopeBatch(serviceName, ss) <==>
      exists k :: 0 <= k < |ss.spans| && s == ConvertSpan(serviceName, ScopeTarget(ss.scope), ss.spans[k])
  {
    var b := ScopeBatch(serviceName, ss);
    var t := ScopeTarget(ss.scope);
    if s in b {
      var k :| 0 <= k < |b| && b[k] == s;
      assert s == ConvertSpan(serviceName, t, ss.spans[k]);
    }
    if exists k :: 0 <= k < |ss.spans| && s == ConvertSpan(serviceName, t, ss.spans[k]) {
      var k :| 0 <= k < |ss.spans| && s == ConvertSpan(serviceName, t, ss.spans[k]);
      assert b[k] == s;
    }
  }

  lemma {:induction false} ScopesBatchByScope(serviceName: string, scopes: seq<ScopeSpans>, s: SpanEvent)
    ensures s in ScopesBatch(serviceName, scopes) <==>
      exists c :: 0 <= c < |scopes| && s in ScopeBatch(serviceName, scopes[c])
    decreases |scopes|
  {
    if |scopes| > 0 {
      var n := |scopes| - 1;
      var front := scopes[..n];
      var a, b := ScopesBatch(serviceName, front), ScopeBatch(serviceName, scopes[n]);
      assert ScopesBatch(serviceName, scopes) == a + b;
      ScopesBatchByScope(serviceName, front, s);
      if s in a {
        var c :| 0 <= c < |front| && s in ScopeBatch(serviceName, front[c]);
        assert front[c] == scopes[c];
      } else if s in b {
        assert s in ScopeBatch(serviceName, scopes[n]);
      }
      if exists c :: 0 <= c < |scopes| && s in ScopeBatch(serviceName, scopes[c]) {
        var c :| 0 <= c < |scopes| && s in ScopeBatch(serviceName, scopes[c]);
        if c < n {
          assert front[c] == scopes[c];
          assert s in a;
        } else {
          assert c == n;
        }
      }
    }
  }

  lemma ScopesBatchMembers(serviceName: string, scopes: seq<ScopeSpans>, s: SpanEvent)
    ensures s in ScopesBatch(serviceName, scopes) <==>
      exists c, k :: 0 <= c < |scopes| && 0 <= k < |scopes[c].spans| &&
        s == ConvertSpan(serviceName, ScopeTarget(scopes[c].scope), scopes[c].spans[k])
  {
    ScopesBatchByScope(serviceName, scopes, s);
    forall c | 0 <= c < |scopes|
      ensures s in ScopeBatch(serviceName, scopes[c]) <==>
        exists k :: 0 <= k < |scopes[c].spans| && s == ConvertSpan(serviceName, ScopeTarget(scopes[c].scope), scopes[c].spans[k])
    {
      ScopeBatchMembers(serviceName, scopes[c], s);
    }
  }

  /** A resource contributes exactly the converted spans of its scopes. */
  lemma ResourceBatchMembers(rs: ResourceSpans, s: SpanEvent)
    ensures s in ResourceBatch(rs) <==> FromResource(rs, s)
  {
    ScopesBatchMembers(ServiceNameOf(rs.resource), rs.scopeSpans, s);
  }

  lemma {:induction false} BatchByResource(resources: seq<ResourceSpans>, s: SpanEvent)
    ensures s in Batch(resources) <==> exists r :: 0 <= r < |resources| && s in ResourceBatch(resources[r])
    decreases |resources|
  {
    if |resources| > 0 {
      var n := |resources| - 1;
      var front := resources[..n];
      var a, b := Batch(front), ResourceBatch(resources[n]);
      assert Batch(resources) == a + b;
      BatchByResource(front, s);
      if s in a {
        var r :| 0 <= r < |front| && s in ResourceBatch(front[r]);
        assert front[r] == resources[r];
      } else if s in b {
        assert s in ResourceBatch(resources[n]);
      }
      if exists r :: 0 <= r < |resources| && s in ResourceBatch(resources[r]) {
        var r :| 0 <= r < |resources| && s in ResourceBatch(resources[r]);
        if r < n {
          assert front[r] == resources[r];
          assert s in a;
        } else {
          assert r == n;
        }
      }
    }
  }

  /** The batch holds exactly the converted spans of the request. */
  lemma BatchMembers(resources: seq<ResourceSpans>, s: SpanEvent)
    ensures s in Batch(resources) <==> FromRequest(resources, s)
  {
    BatchByResource(resources, s);
    forall r | 0 <= r < |resources|
      ensures s in ResourceBatch(resources[r]) <==> FromResource(resources[r], s)
    {
      ResourceBatchMembers(resources[r], s);
    }
  }

  // ---------------------------------------------------------------------------
  // the loops of `export` that build the batch

  /**
   * The attribute loop of one span: renders every attribute and picks the
   * target the last `target`/`code.namespace` attribute names, starting
   * from the scope's name.
   */
  method ScanAttributes(kvs: seq<KeyValue>, scopeTarget: string)
    returns (attributes: seq<(string, string)>, target: string)
    ensures attributes == RenderedAttributes(kvs)
    ensures target == (var o := TargetOverride(kvs); if o.Some? then o.value else scopeTarget)
  {
    attributes := [];
    target := scopeTarget;
    var i := 0;
    while i < |kvs|
      invariant 0 <= i <= |kvs|
      invariant attributes == RenderedAttributes(kvs[..i])
      invariant target == (var o := TargetOverride(kvs[..i]); if o.Some? then o.value else scopeTarget)
    {
      var val := KvToString(kvs[i].value);
      if kvs[i].key == "target" || kvs[i].key == "code.namespace" {
        target := val;
      }
      attributes := attributes + [(kvs[i].key, val)];
      ScanStep(kvs, i);
      i := i + 1;
    }
    TakeAll(kvs);
  }

  /** One more attribute: it is rendered, and it becomes the override if its key names a target. */
  lemma ScanStep(kvs: seq<KeyValue>, i: nat)
    requires i < |kvs|
    ensures RenderedAttributes(kvs[..i + 1]) == RenderedAttributes(kvs[..i]) + [(kvs[i].key, KvToString(kvs[i].value))]
    ensures TargetOverride(kvs[..i + 1]) ==
      if IsTargetKey(kvs[i].key) then Some(KvToString(kvs[i].value)) else TargetOverride(kvs[..i])
  {
    assert kvs[..i + 1][..i] == kvs[..i];
    assert kvs[..i + 1][i] == kvs[i];
  }

  /** The body of the innermost loop: one span converted. */
  method BuildSpan(serviceName: string, scopeTarget: string, span: Span) returns (e: SpanEvent)
    ensures e == ConvertSpan(serviceName, scopeTarget, span)
  {
    var parentSpanId := if |span.parentSpanId| == 0 then None else Some(Hex(span.parentSpanId));
    var attributes, target := ScanAttributes(span.attributes, scopeTarget);
    if target == "" {
      target := span.name;
    }
    var status := StatusText(span.status);
    e := SpanEvent(Hex(span.traceId), Hex(span.spanId), parentSpanId, span.name, target,
                   span.startTimeUnixNano, span.endTimeUnixNano,
                   SatSub(span.endTimeUnixNano, span.startTimeUnixNano),
                   attributes, status, serviceName);
  }

  /** The innermost loop: the spans of one scope, converted in order. */
  method BuildScope(serviceName: string, ss: ScopeSpans) returns (out: seq<SpanEvent>)
    ensures out == ScopeBatch(serviceName, ss)
  {
    var scopeTarget := ScopeTarget(ss.scope);
    out := [];
    var k := 0;
    while k < |ss.spans|
      invariant 0 <= k <= |ss.spans|
      invariant out == ScopeBatch(serviceName, ss)[..k]
    {
      var e := BuildSpan(serviceName, scopeTarget, ss.spans[k]);
      TakeOneMore(ScopeBatch(serviceName, ss), k);
      out := out + [e];
      k := k + 1;
    }
    TakeAll(ScopeBatch(serviceName, ss));
  }

  /** The middle loop: the scopes of one resource, under its service name. */
  method BuildResource(rs: ResourceSpans) returns (out: seq<SpanEvent>)
    ensures out == ResourceBatch(rs)
  {
    var serviceName := ServiceNameOf(rs.resource);
    var scopes := rs.scopeSpans;
    out := [];
    var c := 0;
    while c < |scopes|
      invariant 0 <= c <= |scopes|
      invariant out == ScopesBatch(serviceName, scopes[..c])
    {
      var part := BuildScope(serviceName, scopes[c]);
      ScopesBatchStep(serviceName, scopes, c);
      out := out + part;
      c := c + 1;
    }
    TakeAll(scopes);
  }

  /** The outer loop over the resources of a request. */
  method BuildBatch(req: ExportTraceServiceRequest) returns (batch: seq<SpanEvent>)
    ensures batch == Batch(req.resourceSpans)
  {
    var resources := req.resourceSpans;
    batch := [];
    var r := 0;
    while r < |resources|
      invariant 0 <= r <= |resources|
      invariant batch == Batch(resources[..r])
    {
      var part := BuildResource(resources[r]);
      BatchStep(resources, r);
      batch := batch + part;
      r := r + 1;
    }
    TakeAll(resources);
  }
}
