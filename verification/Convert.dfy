/**
 The parse contract: one decoded export request becomes a batch of spans, or is rejected as empty.
 A span with a malformed id is counted and dropped; it never takes the batch down with it.
 */
module Converting {
  import opened Types
  import opened Batches

  // The decoded request --------------------------------------------------------------------------

  datatype PbValue =
    | StringValue(text: string)
    | IntValue(number: int)
    | DoubleValue(double: Double)
    | BoolValue(flag: bool)
    | ArrayValue
    | KvlistValue
    | BytesValue
    | StringValueStrindex

  datatype AnyValue = AnyValue(value: Option<PbValue>)

  datatype KeyValue = KeyValue(key: string, value: Option<AnyValue>)

  datatype PbStatus = PbStatus(message: string, code: int)

  datatype PbSpan = PbSpan(
    traceId: seq<Byte>,
    spanId: seq<Byte>,
    parentSpanId: seq<Byte>,
    name: string,
    startTime: nat,
    endTime: nat,
    attributes: seq<KeyValue>,
    status: Option<PbStatus>)

  datatype ScopeSpans = ScopeSpans(spans: seq<PbSpan>)

  datatype ResourceSpans = ResourceSpans(resource: Option<seq<KeyValue>>, scopeSpans: seq<ScopeSpans>)

  datatype Request = Request(resourceSpans: seq<ResourceSpans>)

  datatype RejectReason = EmptyPayload | DecodeError(message: string)

  datatype Conversion = Converted(batch: SpanBatch) | Rejected(reason: RejectReason)

  // Field by field ---------------------------------------------------------------------------------

  function TraceIdOf(bytes: seq<Byte>): Option<TraceId> {
    if |bytes| == 16 then Some(TraceId(bytes)) else None
  }

  function SpanIdOf(bytes: seq<Byte>): Option<SpanId> {
    if |bytes| == 8 then Some(SpanId(bytes)) else None
  }

  function ValueOf(kv: KeyValue): Option<PbValue> {
    if kv.value.Some? then kv.value.value.value else None
  }

  // The first `service.name` that carries a string; others are passed over.
  function ServiceNameIn(attributes: seq<KeyValue>): Option<string> {
    if attributes == [] then None
    else if attributes[0].key == "service.name" && ValueOf(attributes[0]).Some?
            && ValueOf(attributes[0]).value.StringValue?
    then Some(ValueOf(attributes[0]).value.text)
    else ServiceNameIn(attributes[1..])
  }

  predicate NamesService(kv: KeyValue) {
    kv.key == "service.name" && ValueOf(kv).Some? && ValueOf(kv).value.StringValue?
  }

  predicate FirstNamed(attributes: seq<KeyValue>, i: nat) {
    && i < |attributes|
    && NamesService(attributes[i])
    && forall j | 0 <= j < i :: !NamesService(attributes[j])
  }

  /** The service is the first `service.name` with a string value; there is none when no attribute is one. */
  lemma {:induction false} ServiceIsFirstNamed(attributes: seq<KeyValue>)
    ensures forall i: nat | FirstNamed(attributes, i) ::
              ServiceNameIn(attributes) == Some(ValueOf(attributes[i]).value.text)
    ensures ServiceNameIn(attributes).Some? <==> exists i: nat :: FirstNamed(attributes, i)
  {
    if attributes != [] {
      var rest := attributes[1..];
      ServiceIsFirstNamed(rest);
      if NamesService(attributes[0]) {
        assert FirstNamed(attributes, 0);
      } else {
        forall i: nat
          ensures FirstNamed(rest, i) ==> FirstNamed(attributes, i + 1)
          ensures FirstNamed(attributes, i) ==> i > 0 && FirstNamed(rest, i - 1)
        {
          if FirstNamed(rest, i) {
            assert forall j | 0 < j < i + 1 :: attributes[j] == rest[j - 1];
          }
          if FirstNamed(attributes, i) {
            assert forall j | 0 <= j < i - 1 :: rest[j] == attributes[j + 1];
          }
        }
        if i: nat :| FirstNamed(rest, i) {
          assert FirstNamed(attributes, i + 1);
        }
      }
    }
  }

  function ServiceNameOf(rs: ResourceSpans): Option<string> {
    if rs.resource.Some? then ServiceNameIn(rs.resource.value) else None
  }

  function AttrOf(kv: KeyValue): Option<Attribute> {
    match ValueOf(kv)
    case Some(StringValue(s)) => Some((kv.key, Str(s)))
    case Some(IntValue(i)) => Some((kv.key, Int(i)))
    case Some(DoubleValue(d)) => Some((kv.key, Float(d)))
    case Some(BoolValue(b)) => Some((kv.key, Bool(b)))
    case _ => None
  }

  function AttrsOf(kvs: seq<KeyValue>): seq<Attribute> {
    if kvs == [] then [] else
      (if AttrOf(kvs[0]).Some? then [AttrOf(kvs[0]).value] else []) + AttrsOf(kvs[1..])
  }

  // A span together with the service its resource names.
  type Sourced = (Option<string>, PbSpan)

  function ConvertSpan(sourced: Sourced): Option<TracedSpan> {
    var (service, span) := sourced;
    var traceId, spanId := TraceIdOf(span.traceId), SpanIdOf(span.spanId);
    if traceId.None? || spanId.None? then None else
      Some((traceId.value,
            NewSpan(spanId.value, SpanIdOf(span.parentSpanId), span.name, span.startTime, span.endTime,
                    if span.status.Some? then span.status.value.message else "",
                    if span.status.Some? then span.status.value.code else 0,
                    service.None?, service, AttrsOf(span.attributes))))
  }

  // The reference: flatten the request, then convert span by span -------------------------------------

  function ScopeSources(service: Option<string>, spans: seq<PbSpan>): seq<Sourced> {
    seq(|spans|, i requires 0 <= i < |spans| => (service, spans[i]))
  }

  function ResourceSources(service: Option<string>, scopes: seq<ScopeSpans>): seq<Sourced> {
    if scopes == [] then [] else
      ResourceSources(service, scopes[..|scopes| - 1]) + ScopeSources(service, scopes[|scopes| - 1].spans)
  }

  function Sources(resources: seq<ResourceSpans>): seq<Sourced> {
    if resources == [] then [] else
      var last := resources[|resources| - 1];
      Sources(resources[..|resources| - 1]) + ResourceSources(ServiceNameOf(last), last.scopeSpans)
  }

  function ConvertAll(sources: seq<Sourced>): seq<TracedSpan> {
    if sources == [] then [] else
      var one := ConvertSpan(sources[|sources| - 1]);
      ConvertAll(sources[..|sources| - 1]) + if one.Some? then [one.value] else []
  }

  function MalformedAmong(sources: seq<Sourced>): nat {
    if sources == [] then 0 else
      MalformedAmong(sources[..|sources| - 1]) + if ConvertSpan(sources[|sources| - 1]).None? then 1 else 0
  }

  function ConvertRequest(request: Request): Conversion {
    var sources := Sources(request.resourceSpans);
    if sources == [] then Rejected(EmptyPayload) else
      var malformed := MalformedAmong(sources);
      Converted(SpanBatch(ConvertAll(sources), malformed > 0, malformed))
  }

  // Counting from the request alone ----------------------------------------------------------------------

  function SpansInScopes(scopes: seq<ScopeSpans>): nat {
    if scopes == [] then 0 else SpansInScopes(scopes[..|scopes| - 1]) + |scopes[|scopes| - 1].spans|
  }

  function SpansInResources(resources: seq<ResourceSpans>): nat {
    if resources == [] then 0 else
      SpansInResources(resources[..|resources| - 1]) + SpansInScopes(resources[|resources| - 1].scopeSpans)
  }

  function SpansInRequest(request: Request): nat {
    SpansInResources(request.resourceSpans)
  }

  // Both ids have the width the protocol gives them.
  predicate WellSized(span: PbSpan) {
    |span.traceId| == 16 && |span.spanId| == 8
  }

  function KeptInScope(spans: seq<PbSpan>): nat {
    if spans == [] then 0 else
      KeptInScope(spans[..|spans| - 1]) + if WellSized(spans[|spans| - 1]) then 1 else 0
  }

  function KeptInScopes(scopes: seq<ScopeSpans>): nat {
    if scopes == [] then 0 else KeptInScopes(scopes[..|scopes| - 1]) + KeptInScope(scopes[|scopes| - 1].spans)
  }

  function KeptInResources(resources: seq<ResourceSpans>): nat {
    if resources == [] then 0 else
      KeptInResources(resources[..|resources| - 1]) + KeptInScopes(resources[|resources| - 1].scopeSpans)
  }

  lemma {:induction false} ScopeCounts(service: Option<string>, spans: seq<PbSpan>)
    ensures |ScopeSources(service, spans)| == |spans|
    ensures |ConvertAll(ScopeSources(service, spans))| == KeptInScope(spans)
  {
    if spans != [] {
      var n := |spans| - 1;
      assert ScopeSources(service, spans)[..n] == ScopeSources(service, spans[..n]);
      ScopeCounts(service, spans[..n]);
    }
  }

  lemma {:induction false} ScopesCount(service: Option<string>, scopes: seq<ScopeSpans>)
    ensures |ResourceSources(service, scopes)| == SpansInScopes(scopes)
    ensures |ConvertAll(ResourceSources(service, scopes))| == KeptInScopes(scopes)
  {
    hide ConvertAll, KeptInScope;
    if scopes == [] {
      NothingToConvert([]);
    } else {
      var n := |scopes| - 1;
      ScopesCount(service, scopes[..n]);
      ScopeCounts(service, scopes[n].spans);
      ConvertAllConcat(ResourceSources(service, scopes[..n]), ScopeSources(service, scopes[n].spans));
    }
  }

  lemma {:induction false} SourcesCount(resources: seq<ResourceSpans>)
    ensures |Sources(resources)| == SpansInResources(resources)
    ensures |ConvertAll(Sources(resources))| == KeptInResources(resources)
  {
    hide ConvertAll, KeptInScopes, SpansInScopes;
    if resources == [] {
      NothingToConvert([]);
    } else {
      var n := |resources| - 1;
      var service, scopes := ServiceNameOf(resources[n]), resources[n].scopeSpans;
      SourcesCount(resources[..n]);
      ScopesCount(service, scopes);
      ConvertAllConcat(Sources(resources[..n]), ResourceSources(service, scopes));
    }
  }

  lemma {:induction false} EverySpanConvertedOrCounted(sources: seq<Sourced>)
    ensures |ConvertAll(sources)| + MalformedAmong(sources) == |sources|
  {
    if sources != [] {
      EverySpanConvertedOrCounted(sources[..|sources| - 1]);
    }
  }

  /**
   A request is rejected exactly when it holds no span; otherwise the batch holds the spans whose
   ids are well sized, and all the others are counted.
   */
  lemma ConversionLosesNothing(request: Request)
    ensures ConvertRequest(request).Rejected? <==> SpansInRequest(request) == 0
    ensures ConvertRequest(request).Converted? ==>
              var batch := ConvertRequest(request).batch;
              && |batch.spans| == KeptInResources(request.resourceSpans)
              && |batch.spans| + batch.malformedSpanCount == SpansInRequest(request)
              && (batch.partial <==> |batch.spans| < SpansInRequest(request))
  {
    EverySpanConvertedOrCounted(Sources(request.resourceSpans));
    SourcesCount(request.resourceSpans);
  }

  // The span at every position of the batch is the conversion of one of the request's spans, and the
  // order of the request is kept.
  lemma {:induction false} ConvertAllConcat(a: seq<Sourced>, b: seq<Sourced>)
    ensures ConvertAll(a + b) == ConvertAll(a) + ConvertAll(b)
    ensures MalformedAmong(a + b) == MalformedAmong(a) + MalformedAmong(b)
  {
    if b == [] {
      assert a + b == a;
    } else {
      var n := |b| - 1;
      assert (a + b)[..|a + b| - 1] == a + b[..n];
      ConvertAllConcat(a, b[..n]);
    }
  }

  // Where each span lands ------------------------------------------------------------------------------

  lemma {:induction false} ResourceSourcesConcat(service: Option<string>, a: seq<ScopeSpans>, b: seq<ScopeSpans>)
    ensures ResourceSources(service, a + b) == ResourceSources(service, a) + ResourceSources(service, b)
  {
    hide ScopeSources;
    if b == [] {
      assert a + b == a;
    } else {
      var front, last := b[..|b| - 1], ScopeSources(service, b[|b| - 1].spans);
      assert (a + b)[..|a + b| - 1] == a + front;
      ResourceSourcesConcat(service, a, front);
      Assoc(ResourceSources(service, a), ResourceSources(service, front), last);
    }
  }

  lemma {:induction false} SourcesConcat(a: seq<ResourceSpans>, b: seq<ResourceSpans>)
    ensures Sources(a + b) == Sources(a) + Sources(b)
  {
    hide ResourceSources;
    if b == [] {
      assert a + b == a;
    } else {
      var front, last := b[..|b| - 1], b[|b| - 1];
      assert (a + b)[..|a + b| - 1] == a + front;
      SourcesConcat(a, front);
      Assoc(Sources(a), Sources(front), ResourceSources(ServiceNameOf(last), last.scopeSpans));
    }
  }

  predicate Addresses(request: Request, r: nat, c: nat, k: nat) {
    && r < |request.resourceSpans|
    && c < |request.resourceSpans[r].scopeSpans|
    && k < |request.resourceSpans[r].scopeSpans[c].spans|
  }

  function SpanAt(request: Request, r: nat, c: nat, k: nat): PbSpan
    requires Addresses(request, r, c, k)
  {
    request.resourceSpans[r].scopeSpans[c].spans[k]
  }

  // The spans that come before the addressed one in the request ...
  function SourcesBefore(request: Request, r: nat, c: nat, k: nat): seq<Sourced>
    requires Addresses(request, r, c, k)
  {
    var resource := request.resourceSpans[r];
    var service := ServiceNameOf(resource);
    Sources(request.resourceSpans[..r]) + ResourceSources(service, resource.scopeSpans[..c])
    + ScopeSources(service, resource.scopeSpans[c].spans[..k])
  }

  // ... and how many of those are well sized.
  function KeptBefore(request: Request, r: nat, c: nat, k: nat): nat
    requires Addresses(request, r, c, k)
  {
    var resource := request.resourceSpans[r];
    KeptInResources(request.resourceSpans[..r]) + KeptInScopes(resource.scopeSpans[..c])
    + KeptInScope(resource.scopeSpans[c].spans[..k])
  }

  lemma ScopeSplits(service: Option<string>, spans: seq<PbSpan>, k: nat)
    requires k < |spans|
    ensures ScopeSources(service, spans)
         == ScopeSources(service, spans[..k]) + [(service, spans[k])] + ScopeSources(service, spans[k + 1..])
  {
  }

  lemma ScopesSplit(service: Option<string>, scopes: seq<ScopeSpans>, c: nat)
    requires c < |scopes|
    ensures ResourceSources(service, scopes)
         == ResourceSources(service, scopes[..c]) + ScopeSources(service, scopes[c].spans)
            + ResourceSources(service, scopes[c + 1..])
  {
    hide ScopeSources, ResourceSources;
    var front, rest := scopes[..c], scopes[c + 1..];
    Around(scopes, c);
    ResourceSourcesConcat(service, front + [scopes[c]], rest);
    ResourceSourcesSnoc(service, front, scopes[c]);
  }

  lemma ResourceSourcesSnoc(service: Option<string>, front: seq<ScopeSpans>, last: ScopeSpans)
    ensures ResourceSources(service, front + [last])
         == ResourceSources(service, front) + ScopeSources(service, last.spans)
  {
    hide ScopeSources;
    assert (front + [last])[..|front|] == front;
  }

  lemma ResourcesSplit(resources: seq<ResourceSpans>, r: nat)
    requires r < |resources|
    ensures Sources(resources)
         == Sources(resources[..r]) + ResourceSources(ServiceNameOf(resources[r]), resources[r].scopeSpans)
            + Sources(resources[r + 1..])
  {
    hide Sources, ResourceSources, ServiceNameOf;
    var front, rest := resources[..r], resources[r + 1..];
    Around(resources, r);
    SourcesConcat(front + [resources[r]], rest);
    SourcesSnoc(front, resources[r]);
  }

  lemma SourcesSnoc(front: seq<ResourceSpans>, last: ResourceSpans)
    ensures Sources(front + [last]) == Sources(front) + ResourceSources(ServiceNameOf(last), last.scopeSpans)
  {
    hide ResourceSources, ServiceNameOf;
    assert (front + [last])[..|front|] == front;
  }

  // The addressed span stands after exactly the spans before it.
  lemma SourcesSplit(request: Request, r: nat, c: nat, k: nat) returns (after: seq<Sourced>)
    requires Addresses(request, r, c, k)
    ensures Sources(request.resourceSpans)
         == SourcesBefore(request, r, c, k)
            + [(ServiceNameOf(request.resourceSpans[r]), SpanAt(request, r, c, k))] + after
    ensures |ConvertAll(SourcesBefore(request, r, c, k))| == KeptBefore(request, r, c, k)
  {
    hide ResourceSources, ScopeSources, Sources, ConvertAll, KeptInScope, KeptInScopes, KeptInResources;
    var resource := request.resourceSpans[r];
    var service, scopes := ServiceNameOf(resource), resource.scopeSpans;
    var spans := scopes[c].spans;
    ResourcesSplit(request.resourceSpans, r);
    ScopesSplit(service, scopes, c);
    ScopeSplits(service, spans, k);
    var s1, r1, p1 := ScopeSources(service, spans[k + 1..]), ResourceSources(service, scopes[c + 1..]),
                      Sources(request.resourceSpans[r + 1..]);
    after := s1 + r1 + p1;
    Regroup(Sources(request.resourceSpans[..r]), ResourceSources(service, scopes[..c]),
            ScopeSources(service, spans[..k]), (service, spans[k]), s1, r1, p1);
    KeptIsConverted(request, r, c, k);
  }

  lemma Regroup<T>(p0: seq<T>, r0: seq<T>, s0: seq<T>, x: T, s1: seq<T>, r1: seq<T>, p1: seq<T>)
    ensures p0 + (r0 + (s0 + [x] + s1) + r1) + p1 == (p0 + r0 + s0) + [x] + (s1 + r1 + p1)
  {
  }

  lemma KeptIsConverted(request: Request, r: nat, c: nat, k: nat)
    requires Addresses(request, r, c, k)
    ensures |ConvertAll(SourcesBefore(request, r, c, k))| == KeptBefore(request, r, c, k)
  {
    hide ResourceSources, ScopeSources, Sources, ConvertAll, KeptInScope, KeptInScopes, KeptInResources;
    var resource := request.resourceSpans[r];
    var service, scopes, spans := ServiceNameOf(resource), resource.scopeSpans, resource.scopeSpans[c].spans;
    SourcesCount(request.resourceSpans[..r]);
    ScopesCount(service, scopes[..c]);
    ScopeCounts(service, spans[..k]);
    var before, within := Sources(request.resourceSpans[..r]), ResourceSources(service, scopes[..c]);
    ConvertAllConcat(before, within);
    ConvertAllConcat(before + within, ScopeSources(service, spans[..k]));
  }

  // A span of the batch, field by field against the request.
  predicate Carries(traced: TracedSpan, span: PbSpan, service: Option<string>) {
    && traced.0 == TraceId(span.traceId)
    && traced.1.spanId == SpanId(span.spanId)
    && traced.1.parentSpanId == (if |span.parentSpanId| == 8 then Some(SpanId(span.parentSpanId)) else None)
    && traced.1.name == span.name
    && traced.1.startTime == span.startTime
    && traced.1.endTime == span.endTime
    && (span.status.Some? ==>
          && traced.1.statusMessage == span.status.value.message
          && traced.1.statusCode == span.status.value.code)
    && (span.status.None? ==> traced.1.statusMessage == "" && traced.1.statusCode == 0)
    && traced.1.serviceName == service
    && (traced.1.unknownService <==> service == None)
    && traced.1.attributes == AttrsOf(span.attributes)
  }

  /**
   Every span of the request, whatever scope and resource it stands in: if its ids are well sized
   it is in the batch, after exactly the well-sized spans that come before it in the request, with
   its own fields and its resource's service; if they are not, the batch goes on without it.
   */
  lemma EverySpanLands(request: Request, r: nat, c: nat, k: nat)
    requires Addresses(request, r, c, k)
    ensures ConvertRequest(request).Converted?
    ensures
      var spans, place := ConvertRequest(request).batch.spans, KeptBefore(request, r, c, k);
      && place <= |spans|
      && (WellSized(SpanAt(request, r, c, k)) ==>
            && place < |spans|
            && Carries(spans[place], SpanAt(request, r, c, k), ServiceNameOf(request.resourceSpans[r])))
  {
    hide ConvertAll, Sources, MalformedAmong, KeptBefore, SourcesBefore;
    var sourced := (ServiceNameOf(request.resourceSpans[r]), SpanAt(request, r, c, k));
    var before, all := SourcesBefore(request, r, c, k), Sources(request.resourceSpans);
    var after := SourcesSplit(request, r, c, k);
    assert all == before + [sourced] + after;
    assert |all| >= 1;
    ConvertAllConcat(before, [sourced]);
    ConvertAllConcat(before + [sourced], after);
    ConvertOne(sourced);
  }

  lemma ConvertOne(sourced: Sourced)
    ensures ConvertAll([sourced]) == if ConvertSpan(sourced).Some? then [ConvertSpan(sourced).value] else []
  {
    assert [sourced][..0] == [];
    assert ConvertAll([]) == [];
  }

  // The scalar an attribute carries, if it carries one.
  predicate IsScalar(kv: KeyValue, value: AttrValue) {
    match kv.value
    case Some(AnyValue(Some(StringValue(s)))) => value == Str(s)
    case Some(AnyValue(Some(IntValue(n)))) => value == Int(n)
    case Some(AnyValue(Some(DoubleValue(d)))) => value == Float(d)
    case Some(AnyValue(Some(BoolValue(b)))) => value == Bool(b)
    case _ => false
  }

  lemma {:induction false} AttrsConcat(a: seq<KeyValue>, b: seq<KeyValue>)
    ensures AttrsOf(a + b) == AttrsOf(a) + AttrsOf(b)
  {
    hide AttrOf;
    if a == [] {
      assert a + b == b;
    } else {
      assert (a + b)[1..] == a[1..] + b;
      AttrsConcat(a[1..], b);
      Assoc(if AttrOf(a[0]).Some? then [AttrOf(a[0]).value] else [], AttrsOf(a[1..]), AttrsOf(b));
    }
  }

  /** An attribute is kept in its place, under its key, if it carries a scalar; any other kind is dropped. */
  lemma ScalarsAreKept(before: seq<KeyValue>, kv: KeyValue, after: seq<KeyValue>)
    ensures forall value | IsScalar(kv, value) ::
              AttrsOf(before + [kv] + after) == AttrsOf(before) + [(kv.key, value)] + AttrsOf(after)
    ensures (forall value :: !IsScalar(kv, value)) ==>
              AttrsOf(before + [kv] + after) == AttrsOf(before) + AttrsOf(after)
    ensures AttrsOf([]) == []
  {
    hide AttrsOf;
    AttrsConcat(before, [kv]);
    AttrsConcat(before + [kv], after);
    OneAttr(kv);
    if AttrOf(kv).Some? {
      assert IsScalar(kv, AttrOf(kv).value.1);
    }
  }

  lemma OneAttr(kv: KeyValue)
    ensures AttrsOf([kv]) == if AttrOf(kv).Some? then [AttrOf(kv).value] else []
    ensures AttrsOf([]) == []
  {
    hide AttrOf;
    assert [kv][1..] == [];
  }

  // The way back: an exporter's view of spans that are already in store form -----------------------------

  function ExportAttr(attr: Attribute): KeyValue {
    KeyValue(attr.0, Some(AnyValue(Some(
      match attr.1
      case Str(s) => StringValue(s)
      case Int(n) => IntValue(n)
      case Float(d) => DoubleValue(d)
      case Bool(b) => BoolValue(b)))))
  }

  function ExportAttrs(attrs: seq<Attribute>): seq<KeyValue> {
    if attrs == [] then [] else [ExportAttr(attrs[0])] + ExportAttrs(attrs[1..])
  }

  function ExportSpan(traced: TracedSpan): PbSpan {
    var (traceId, span) := traced;
    PbSpan(traceId.bytes, span.spanId.bytes, if span.parentSpanId.Some? then span.parentSpanId.value.bytes else [],
           span.name, span.startTime, span.endTime, ExportAttrs(span.attributes),
           Some(PbStatus(span.statusMessage, span.statusCode)))
  }

  // One resource per span, naming its service if it has one.
  function ExportResource(traced: TracedSpan): ResourceSpans {
    var service := traced.1.serviceName;
    ResourceSpans(if service.Some? then Some([ExportAttr(("service.name", Str(service.value)))]) else None,
                  [ScopeSpans([ExportSpan(traced)])])
  }

  function Export(spans: seq<TracedSpan>): Request {
    Request(seq(|spans|, i requires 0 <= i < |spans| => ExportResource(spans[i])))
  }

  // Ids of the width the protocol gives them; the service is known or flagged.
  predicate IsExportable(traced: TracedSpan) {
    && |traced.0.bytes| == 16
    && |traced.1.spanId.bytes| == 8
    && (traced.1.parentSpanId.Some? ==> |traced.1.parentSpanId.value.bytes| == 8)
    && traced.1.unknownService == traced.1.serviceName.None?
  }

  lemma {:induction false} AttrsRoundTrip(attrs: seq<Attribute>)
    ensures AttrsOf(ExportAttrs(attrs)) == attrs
  {
    if attrs != [] {
      AttrsRoundTrip(attrs[1..]);
      assert ExportAttrs(attrs)[1..] == ExportAttrs(attrs[1..]);
    }
  }

  lemma SpanRoundTrip(traced: TracedSpan)
    requires IsExportable(traced)
    ensures ConvertSpan((traced.1.serviceName, ExportSpan(traced))) == Some(traced)
  {
    AttrsRoundTrip(traced.1.attributes);
  }

  lemma ResourceRoundTrip(traced: TracedSpan)
    ensures
      var rs := ExportResource(traced);
      ResourceSources(ServiceNameOf(rs), rs.scopeSpans) == [(traced.1.serviceName, ExportSpan(traced))]
  {
    var rs := ExportResource(traced);
    assert rs.scopeSpans[..0] == [];
    assert ServiceNameOf(rs) == traced.1.serviceName;
  }

  lemma {:induction false} SourcesRoundTrip(spans: seq<TracedSpan>)
    requires forall i | 0 <= i < |spans| :: IsExportable(spans[i])
    ensures
      var sources := Sources(Export(spans).resourceSpans);
      |sources| == |spans| && ConvertAll(sources) == spans && MalformedAmong(sources) == 0
  {
    hide ConvertSpan, ExportResource, ExportSpan, ResourceSources, IsExportable;
    if spans != [] {
      var n := |spans| - 1;
      var resources := Export(spans).resourceSpans;
      assert resources[..n] == Export(spans[..n]).resourceSpans;
      SourcesRoundTrip(spans[..n]);
      ResourceRoundTrip(spans[n]);
      SpanRoundTrip(spans[n]);
      var before, one := Sources(resources[..n]), (spans[n].1.serviceName, ExportSpan(spans[n]));
      assert (before + [one])[..n] == before;
      assert spans == spans[..n] + [spans[n]];
    }
  }

  /** Exporting spans and converting the request gives back exactly those spans, in order. */
  lemma ConvertRoundTrip(spans: seq<TracedSpan>)
    requires spans != []
    requires forall i | 0 <= i < |spans| :: IsExportable(spans[i])
    ensures ConvertRequest(Export(spans)) == Converted(SpanBatch(spans, false, 0))
  {
    SourcesRoundTrip(spans);
  }

  // One scope's spans, added to what has been collected so far.
  method ConvertScope(service: Option<string>, pbSpans: seq<PbSpan>, spans: seq<TracedSpan>, malformed: nat)
    returns (spans': seq<TracedSpan>, malformed': nat)
    ensures spans' == spans + ConvertAll(ScopeSources(service, pbSpans))
    ensures malformed' == malformed + MalformedAmong(ScopeSources(service, pbSpans))
  {
    spans', malformed' := spans, malformed;
    ghost var all := ScopeSources(service, pbSpans);
    for k := 0 to |pbSpans|
      invariant spans' == spans + ConvertAll(all[..k])
      invariant malformed' == malformed + MalformedAmong(all[..k])
    {
      assert all[..k + 1][..k] == all[..k];
      var one := ConvertSpan((service, pbSpans[k]));
      if one.None? {
        malformed' := malformed' + 1;
      } else {
        spans' := spans' + [one.value];
      }
    }
    assert all[..|all|] == all;
  }

  // One resource's spans, scope by scope.
  method ConvertResource(service: Option<string>, scopes: seq<ScopeSpans>, spans: seq<TracedSpan>, malformed: nat)
    returns (spans': seq<TracedSpan>, malformed': nat, sawAnySpan: bool)
    ensures spans' == spans + ConvertAll(ResourceSources(service, scopes))
    ensures malformed' == malformed + MalformedAmong(ResourceSources(service, scopes))
    ensures sawAnySpan <==> ResourceSources(service, scopes) != []
  {
    hide ConvertAll, MalformedAmong;
    spans', malformed', sawAnySpan := spans, malformed, false;
    NothingToConvert(spans);
    for j := 0 to |scopes|
      invariant spans' == spans + ConvertAll(ResourceSources(service, scopes[..j]))
      invariant malformed' == malformed + MalformedAmong(ResourceSources(service, scopes[..j]))
      invariant sawAnySpan <==> ResourceSources(service, scopes[..j]) != []
    {
      assert scopes[..j + 1][..j] == scopes[..j];
      ConvertAllConcat(ResourceSources(service, scopes[..j]), ScopeSources(service, scopes[j].spans));
      sawAnySpan := sawAnySpan || scopes[j].spans != [];
      spans', malformed' := ConvertScope(service, scopes[j].spans, spans', malformed');
    }
    assert scopes[..|scopes|] == scopes;
  }

  lemma NothingToConvert(spans: seq<TracedSpan>)
    ensures spans + ConvertAll([]) == spans && MalformedAmong([]) == 0
  {
  }

  method Convert(request: Request) returns (conversion: Conversion)
    ensures conversion == ConvertRequest(request)
  {
    hide ConvertAll, MalformedAmong, ResourceSources;
    var resources := request.resourceSpans;
    var spans, malformed, sawAnySpan := [], 0, false;
    NothingToConvert([]);
    for i := 0 to |resources|
      invariant spans == ConvertAll(Sources(resources[..i]))
      invariant malformed == MalformedAmong(Sources(resources[..i]))
      invariant sawAnySpan <==> Sources(resources[..i]) != []
    {
      var service, scopes := ServiceNameOf(resources[i]), resources[i].scopeSpans;
      assert resources[..i + 1][..i] == resources[..i];
      ConvertAllConcat(Sources(resources[..i]), ResourceSources(service, scopes));
      var saw;
      spans, malformed, saw := ConvertResource(service, scopes, spans, malformed);
      sawAnySpan := sawAnySpan || saw;
    }
    assert resources[..|resources|] == resources;
    if !sawAnySpan {
      return Rejected(EmptyPayload);
    }
    conversion := Converted(SpanBatch(spans, malformed > 0, malformed));
  }
}
