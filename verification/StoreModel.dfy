/**
 The store as a value, and its life as a sequence of events: a span arrives, malformed spans are
 counted, or the oldest trace is evicted. Ties for the oldest are broken arbitrarily, so an
 eviction event carries the choice that was made.
 */
module StoreModel {
  import opened Types
  import opened Interners
  import opened Rows
  import opened Sums

  datatype TraceState = TraceState(rows: seq<Row>, generation: nat, lastActivity: nat)

  datatype Counters = Counters(
    duplicateSpan: nat,
    attributeKeyCapHit: nat,
    lateSpanAfterEviction: nat,
    evictedTraces: nat,
    malformedSpan: nat)

  datatype StoreState = StoreState(
    traces: map<TraceId, TraceState>,
    keys: Table,
    services: Table,
    budget: nat,
    evicted: map<TraceId, nat>,
    counters: Counters)

  datatype Event =
    | Insert(traceId: TraceId, span: NewSpan, now: nat)
    | Malformed(count: nat)
    | Evict(traceId: TraceId)

  function NewStore(budget: nat, cap: nat): StoreState {
    StoreState(map[], Table([], cap, 0), Table([], cap, 0), budget, map[], Counters(0, 0, 0, 0, 0))
  }

  // The trace a span for `id` is put into: the resident one, or a new one that carries on the
  // 32-bit generation of the trace evicted under the same id.
  function Opened(s: StoreState, id: TraceId, now: nat): TraceState {
    if id in s.traces then s.traces[id]
    else TraceState([], if id in s.evicted then AsU32(s.evicted[id] + 1) else 0, now)
  }

  ghost function NewRow(s: StoreState, span: NewSpan): Row {
    RowOf(span,
          EncodeService(AdmitService(s.services, span.serviceName), span.serviceName),
          Encode(AdmitKeys(s.keys, span.attributes), span.attributes))
  }

  ghost predicate IsDuplicate(s: StoreState, id: TraceId, span: NewSpan) {
    id in s.traces && SlotOf(s.traces[id].rows, span.spanId).Some?
  }

  predicate IsLate(s: StoreState, id: TraceId) {
    id !in s.traces && id in s.evicted
  }

  ghost function InsertSpan(s: StoreState, id: TraceId, span: NewSpan, now: nat): StoreState {
    var trace := Opened(s, id, now);
    var keys := AdmitKeys(s.keys, span.attributes);
    s.(traces := s.traces[id := TraceState(PutRow(trace.rows, NewRow(s, span)), trace.generation, now)],
       keys := keys,
       services := AdmitService(s.services, span.serviceName),
       evicted := if id in s.traces then s.evicted else s.evicted - {id},
       counters := s.counters.(
         duplicateSpan := s.counters.duplicateSpan + (if IsDuplicate(s, id, span) then 1 else 0),
         lateSpanAfterEviction := s.counters.lateSpanAfterEviction + (if IsLate(s, id) then 1 else 0),
         attributeKeyCapHit := keys.refusals))
  }

  function Sizes(traces: map<TraceId, TraceState>): map<TraceId, nat> {
    map id | id in traces :: RowsBytes(traces[id].rows)
  }

  function SpanCounts(traces: map<TraceId, TraceState>): map<TraceId, nat> {
    map id | id in traces :: |traces[id].rows|
  }

  ghost function TotalBytes(traces: map<TraceId, TraceState>): nat {
    Total(traces.Keys, Sizes(traces))
  }

  ghost function ResidentSpans(traces: map<TraceId, TraceState>): nat {
    Total(traces.Keys, SpanCounts(traces))
  }

  // The guard of the eviction loop.
  ghost predicate MustEvict(s: StoreState) {
    TotalBytes(s.traces) > s.budget && |s.traces| > 1
  }

  ghost predicate IsOldest(traces: map<TraceId, TraceState>, id: TraceId) {
    && id in traces
    && forall other | other in traces :: traces[id].lastActivity <= traces[other].lastActivity
  }

  function EvictTrace(s: StoreState, id: TraceId): StoreState {
    if id !in s.traces then s else
      s.(traces := s.traces - {id},
         evicted := s.evicted[id := s.traces[id].generation],
         counters := s.counters.(evictedTraces := s.counters.evictedTraces + 1))
  }

  ghost function Apply(s: StoreState, e: Event): StoreState {
    match e
    case Insert(id, span, now) => InsertSpan(s, id, span, now)
    case Malformed(count) => s.(counters := s.counters.(malformedSpan := s.counters.malformedSpan + count))
    case Evict(id) => EvictTrace(s, id)
  }

  ghost predicate Enabled(s: StoreState, e: Event) {
    e.Evict? ==> MustEvict(s) && IsOldest(s.traces, e.traceId)
  }

  ghost function Run(s: StoreState, es: seq<Event>): StoreState {
    if es == [] then s else Apply(Run(s, es[..|es| - 1]), es[|es| - 1])
  }

  ghost predicate ValidRun(s: StoreState, es: seq<Event>) {
    es == [] || (ValidRun(s, es[..|es| - 1]) && Enabled(Run(s, es[..|es| - 1]), es[|es| - 1]))
  }

  lemma {:induction false} RunConcat(s: StoreState, a: seq<Event>, b: seq<Event>)
    ensures Run(s, a + b) == Run(Run(s, a), b)
    ensures ValidRun(s, a + b) <==> ValidRun(s, a) && ValidRun(Run(s, a), b)
  {
    if b == [] {
      assert a + b == a;
    } else {
      var front := b[..|b| - 1];
      assert (a + b)[..|a + b| - 1] == a + front;
      RunConcat(s, a, front);
    }
  }

  // What every event keeps -------------------------------------------------------------------------

  ghost predicate IdsInRange(s: StoreState, row: Row) {
    && (row.serviceId.Some? ==> row.serviceId.value < |s.services.strings|)
    && forall k | 0 <= k < |row.attrs| :: row.attrs[k].0 < |s.keys.strings|
  }

  ghost predicate TraceOk(s: StoreState, trace: TraceState) {
    && DistinctIds(trace.rows)
    && forall i | 0 <= i < |trace.rows| :: IdsInRange(s, trace.rows[i])
  }

  ghost predicate Consistent(s: StoreState) {
    && Sound(s.keys)
    && Sound(s.services)
    && s.traces.Keys !! s.evicted.Keys
    && forall id | id in s.traces :: TraceOk(s, s.traces[id])
  }

  lemma NewRowInRange(s: StoreState, id: TraceId, span: NewSpan, now: nat)
    requires Consistent(s)
    ensures IdsInRange(InsertSpan(s, id, span, now), NewRow(s, span))
  {
    EncodeInRange(AdmitKeys(s.keys, span.attributes), span.attributes);
  }

  lemma TraceOkGrows(s: StoreState, s': StoreState, trace: TraceState)
    requires TraceOk(s, trace)
    requires |s.keys.strings| <= |s'.keys.strings| && |s.services.strings| <= |s'.services.strings|
    ensures TraceOk(s', trace)
  {
  }

  lemma TraceOkPut(s: StoreState, trace: TraceState, row: Row, now: nat)
    requires TraceOk(s, trace)
    requires IdsInRange(s, row)
    ensures TraceOk(s, TraceState(PutRow(trace.rows, row), trace.generation, now))
  {
  }

  lemma ConsistentInsert(s: StoreState, id: TraceId, span: NewSpan, now: nat)
    requires Consistent(s)
    ensures Consistent(InsertSpan(s, id, span, now))
  {
    var s' := InsertSpan(s, id, span, now);
    NewRowInRange(s, id, span, now);
    assert Grows(s.keys, s'.keys) && Grows(s.services, s'.services);
    forall other | other in s'.traces
      ensures TraceOk(s', s'.traces[other])
    {
      if other == id {
        TraceOkGrows(s, s', Opened(s, id, now));
        TraceOkPut(s', Opened(s, id, now), NewRow(s, span), now);
      } else {
        TraceOkGrows(s, s', s.traces[other]);
      }
    }
  }

  lemma ConsistentApply(s: StoreState, e: Event)
    requires Consistent(s)
    ensures Consistent(Apply(s, e))
  {
    match e {
      case Insert(id, span, now) =>
        ConsistentInsert(s, id, span, now);
      case Malformed(_) =>
        forall id | id in s.traces ensures TraceOk(Apply(s, e), s.traces[id]) {
          TraceOkGrows(s, Apply(s, e), s.traces[id]);
        }
      case Evict(_) =>
        forall id | id in Apply(s, e).traces ensures TraceOk(Apply(s, e), s.traces[id]) {
          TraceOkGrows(s, Apply(s, e), s.traces[id]);
        }
    }
  }

  lemma {:induction false} ConsistentRun(s: StoreState, es: seq<Event>)
    requires Consistent(s)
    ensures Consistent(Run(s, es))
  {
    if es != [] {
      ConsistentRun(s, es[..|es| - 1]);
      ConsistentApply(Run(s, es[..|es| - 1]), es[|es| - 1]);
    }
  }
}
