/**
 * The OTLP trace-export request as the receiver in backend/src/otlp.rs
 * reads it (the `opentelemetry_proto` messages, reduced to the fields it
 * uses), and `kv_to_string`, which renders an attribute value as text.
 */
module Proto {
  import opened Options
  import opened Text

  /** `AnyValue`: a value whose `oneof` may be unset. */
  datatype AnyValue = AnyValue(value: Option<ValueKind>)

  /**
   * The `oneof` of `AnyValue`. A double is kept as the text Rust's
   * `f64::to_string` gives it; integers are the `i64` payload.
   */
  datatype ValueKind =
    | StringValue(s: string)
    | BoolValue(b: bool)
    | IntValue(i: int)
    | DoubleValue(rendered: string)
    | BytesValue(bytes: seq<byte>)
    | ArrayValue(values: seq<AnyValue>)
    | KvlistValue(entries: seq<KeyValue>)

  datatype KeyValue = KeyValue(key: string, value: Option<AnyValue>)

  datatype Resource = Resource(attributes: seq<KeyValue>)

  datatype InstrumentationScope = InstrumentationScope(name: string)

  datatype Status = Status(code: int)

  /** A span as exported: raw id bytes (empty parent = root) and times in nanoseconds. */
  datatype Span = Span(
    traceId: seq<byte>,
    spanId: seq<byte>,
    parentSpanId: seq<byte>,
    name: string,
    startTimeUnixNano: nat,
    endTimeUnixNano: nat,
    attributes: seq<KeyValue>,
    status: Option<Status>)

  datatype ScopeSpans = ScopeSpans(scope: Option<InstrumentationScope>, spans: seq<Span>)

  datatype ResourceSpans = ResourceSpans(resource: Option<Resource>, scopeSpans: seq<ScopeSpans>)

  datatype ExportTraceServiceRequest = ExportTraceServiceRequest(resourceSpans: seq<ResourceSpans>)

  /** `bool::to_string`. */
  function BoolToString(b: bool): (r: string)
    ensures r == "true" <==> b
  {
    if b then "true" else "false"
  }

  /**
   * `kv_to_string`: an absent value or an unset `oneof` is empty text;
   * scalars are rendered as Rust renders them (bytes in lower-case hex);
   * arrays are `[a, b]` and key-value lists `{k=v, k=v}`, recursively.
   */
  function KvToString(value: Option<AnyValue>): (r: string)
    ensures value.None? || value.value.value.None? ==> r == ""
    ensures value.Some? && value.value.value.Some? ==> r == Render(value.value.value.value)
  {
    match value
    case None => ""
    case Some(v) =>
      match v.value
      case None => ""
      case Some(kind) => Render(kind)
  }

  /** The rendering of a set `oneof`. */
  function Render(kind: ValueKind): (r: string)
    ensures kind.StringValue? ==> r == kind.s
    ensures kind.BoolValue? ==> (r == "true" <==> kind.b) && (r == "false" <==> !kind.b)
    ensures kind.IntValue? ==> r == IntToString(kind.i)
    ensures kind.DoubleValue? ==> r == kind.rendered
    ensures kind.BytesValue? ==> |r| == 2 * |kind.bytes|
    ensures kind.ArrayValue? || kind.KvlistValue? ==> |r| >= 2
    ensures kind.ArrayValue? ==> r[0] == '[' && r[|r| - 1] == ']'
    ensures kind.KvlistValue? ==> r[0] == '{' && r[|r| - 1] == '}'
  {
    match kind
    case StringValue(s) => s
    case BoolValue(b) => BoolToString(b)
    case IntValue(i) => IntToString(i)
    case DoubleValue(d) => d
    case BytesValue(b) => Hex(b)
    case ArrayValue(vs) =>
      "[" + Join(seq(|vs|, j requires 0 <= j < |vs| => RenderAny(vs[j])), ", ") + "]"
    case KvlistValue(kvs) =>
      "{" + Join(seq(|kvs|, j requires 0 <= j < |kvs| => RenderEntry(kvs[j])), ", ") + "}"
  }

  /** `kv_to_string(&Some(v))`, for an element of an array. */
  function RenderAny(v: AnyValue): string
  {
    match v.value
    case None => ""
    case Some(kind) => Render(kind)
  }

  /** `format!("{}={}", kv.key, kv_to_string(&kv.value))`, for an entry of a key-value list. */
  function RenderEntry(kv: KeyValue): string
  {
    kv.key + "=" + (match kv.value case None => "" case Some(v) => RenderAny(v))
  }

  /** The text of an integer or a byte string reads back as that integer or those bytes. */
  lemma RenderRoundTrip(kind: ValueKind)
    ensures kind.IntValue? ==> ParseInt(Render(kind)) == kind.i
    ensures kind.BytesValue? ==> Unhex(Render(kind)) == kind.bytes
  {
    if kind.IntValue? {
      ParseIntToString(kind.i);
    } else if kind.BytesValue? {
      UnhexHex(kind.bytes);
    }
  }

  /** The `kv_to_string` texts of the elements of an array, in order. */
  function ElementTexts(vs: seq<AnyValue>): (r: seq<string>)
    ensures |r| == |vs|
  {
    seq(|vs|, j requires 0 <= j < |vs| => RenderAny(vs[j]))
  }

  /** The `key=value` texts of the entries of a key-value list, in order. */
  function EntryTexts(kvs: seq<KeyValue>): (r: seq<string>)
    ensures |r| == |kvs|
  {
    seq(|kvs|, j requires 0 <= j < |kvs| => RenderEntry(kvs[j]))
  }

  lemma RenderArrayJoin(vs: seq<AnyValue>)
    ensures Render(ArrayValue(vs)) == "[" + Join(ElementTexts(vs), ", ") + "]"
  {
  }

  lemma RenderKvlistJoin(kvs: seq<KeyValue>)
    ensures Render(KvlistValue(kvs)) == "{" + Join(EntryTexts(kvs), ", ") + "}"
  {
  }

  lemma ElementTextsSnoc(vs: seq<AnyValue>, v: AnyValue)
    ensures ElementTexts(vs + [v]) == ElementTexts(vs) + [KvToString(Some(v))]
  {
    var ws := vs + [v];
    assert forall j :: 0 <= j < |vs| ==> ws[j] == vs[j];
  }

  lemma EntryTextsSnoc(kvs: seq<KeyValue>, kv: KeyValue)
    ensures EntryTexts(kvs + [kv]) == EntryTexts(kvs) + [kv.key + "=" + KvToString(kv.value)]
  {
    var ws := kvs + [kv];
    assert forall j :: 0 <= j < |kvs| ==> ws[j] == kvs[j];
    assert RenderEntry(kv) == kv.key + "=" + KvToString(kv.value);
  }

  /**
   * The empty array is `[]`; with one more element the element's `kv_to_string` text goes
   * before the closing bracket, after `, ` when the array was not empty.
   */
  lemma RenderArraySnoc(vs: seq<AnyValue>, v: AnyValue)
    ensures Render(ArrayValue([])) == "[]"
    ensures |vs| == 0 ==> Render(ArrayValue(vs + [v])) == "[" + KvToString(Some(v)) + "]"
    ensures |vs| > 0 ==> var r := Render(ArrayValue(vs));
      Render(ArrayValue(vs + [v])) == r[..|r| - 1] + ", " + KvToString(Some(v)) + "]"
  {
    var parts := ElementTexts(vs);
    RenderArrayJoin(vs);
    RenderArrayJoin(vs + [v]);
    ElementTextsSnoc(vs, v);
    JoinAppend(parts, KvToString(Some(v)), ", ");
    BracketedSnoc("[", Join(parts, ", "), ", ", KvToString(Some(v)), "]");
  }

  /**
   * The empty key-value list is `{}`; with one more entry `key=value`, the value rendered by
   * `kv_to_string`, goes before the closing brace, after `, ` when the list
   * was not empty.
   */
  lemma RenderKvlistSnoc(kvs: seq<KeyValue>, kv: KeyValue)
    ensures Render(KvlistValue([])) == "{}"
    ensures |kvs| == 0 ==> Render(KvlistValue(kvs + [kv])) == "{" + (kv.key + "=" + KvToString(kv.value)) + "}"
    ensures |kvs| > 0 ==> var r := Render(KvlistValue(kvs));
      Render(KvlistValue(kvs + [kv])) == r[..|r| - 1] + ", " + (kv.key + "=" + KvToString(kv.value)) + "}"
  {
    var parts := EntryTexts(kvs);
    RenderKvlistJoin(kvs);
    RenderKvlistJoin(kvs + [kv]);
    EntryTextsSnoc(kvs, kv);
    var e := kv.key + "=" + KvToString(kv.value);
    JoinAppend(parts, e, ", ");
    BracketedSnoc("{", Join(parts, ", "), ", ", e, "}");
  }

  /** Joining one more part: alone it is the join, otherwise it follows the separator. */
  lemma JoinAppend(parts: seq<string>, x: string, sep: string)
    ensures |parts| == 0 ==> Join(parts + [x], sep) == x
    ensures |parts| > 0 ==> Join(parts + [x], sep) == Join(parts, sep) + sep + x
  {
    var all := parts + [x];
    if |parts| == 0 {
      assert all == [x];
    } else {
      JoinSnoc(all, sep);
      assert all[..|all| - 1] == parts;
    }
  }

  /** Appending after the last part of a bracketed text, before its closing bracket. */
  lemma BracketedSnoc(open: string, inner: string, sep: string, x: string, close: string)
    requires |close| == 1
    ensures var r := open + inner + close; open + (inner + sep + x) + close == r[..|r| - 1] + sep + x + close
  {
    var r := open + inner + close;
    assert r[..|r| - 1] == open + inner;
  }
}
