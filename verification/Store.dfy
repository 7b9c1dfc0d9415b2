/**
 The store the writer mutates: resident traces, two interners, the memory of evicted generations,
 counters, and the eviction loop. Its value is `State()`; each method says which event, or which
 stretch of a run, takes the old value to the new one.
 */
module Stores {
  import opened Types
  import opened Interners
  import opened Rows
  import opened Csr
  import opened Bytes
  import opened Traces
  import opened Sums
  import opened StoreModel
  import opened Sweeps

  const GLOBAL_INTERNER_CAP: nat := 100_000

  // Every slice of every resident trace can be read; the sweep's byte count panics otherwise.
  predicate Readable(s: StoreState) {
    forall id | id in s.traces :: |Flat(s.traces[id].rows)| < U32_LIMIT
  }

  // Every trace stays readable when `n` more attributes land in it.
  predicate AllHaveRoom(s: StoreState, n: nat) {
    n < U32_LIMIT && forall id | id in s.traces :: |Flat(s.traces[id].rows)| + n < U32_LIMIT
  }

  lemma RoomAfterInsert(s: StoreState, id: TraceId, span: NewSpan, now: nat, n: nat)
    requires AllHaveRoom(s, |span.attributes| + n)
    ensures AllHaveRoom(InsertSpan(s, id, span, now), n)
  {
    hide Flat, Encode, AdmitKeys, PutRow, AdmitService, EncodeService, IsDuplicate, Opened;
    var s', trace := InsertSpan(s, id, span, now), Opened(s, id, now);
    EncodeInRange(AdmitKeys(s.keys, span.attributes), span.attributes);
    PutRowLength(trace.rows, NewRow(s, span));
    RoomToOpen(s, id, |span.attributes| + n, now);
    forall other | other in s'.traces
      ensures |Flat(s'.traces[other].rows)| + n < U32_LIMIT
    {
      if other == id {
        assert s'.traces[other].rows == PutRow(trace.rows, NewRow(s, span));
      } else {
        assert s'.traces[other] == s.traces[other];
      }
    }
  }

  lemma SameOpened(s: StoreState, s': StoreState, id: TraceId, now: nat)
    requires s'.traces == s.traces && s'.evicted == s.evicted
    ensures Opened(s', id, now) == Opened(s, id, now)
  {
  }

  lemma RoomToOpen(s: StoreState, id: TraceId, n: nat, now: nat)
    requires AllHaveRoom(s, n)
    ensures |Flat(Opened(s, id, now).rows)| + n < U32_LIMIT
  {
  }

  // The trace an insertion leaves is among those that stay readable.
  lemma InsertedIsReadable(s: StoreState, id: TraceId, span: NewSpan, now: nat)
    requires Readable(InsertSpan(s, id, span, now))
    ensures
      var service := EncodeService(AdmitService(s.services, span.serviceName), span.serviceName);
      var attrs := Encode(AdmitKeys(s.keys, span.attributes), span.attributes);
      |Flat(PutRow(Opened(s, id, now).rows, RowOf(span, service, attrs)))| < U32_LIMIT
  {
    hide Flat, PutRow, Opened, RowOf;
    var s' := InsertSpan(s, id, span, now);
    assert id in s'.traces;
  }

  // The pieces an insertion is put together from.
  lemma InsertSpanPieces(s: StoreState, id: TraceId, span: NewSpan, now: nat, trace: TraceState, row: Row,
                         states: map<TraceId, TraceState>, keys: Table, services: Table)
    requires trace == Opened(s, id, now)
    requires keys == AdmitKeys(s.keys, span.attributes) && services == AdmitService(s.services, span.serviceName)
    requires row == RowOf(span, EncodeService(services, span.serviceName), Encode(keys, span.attributes))
    requires states == s.traces[id := trace][id := TraceState(PutRow(trace.rows, row), trace.generation, now)]
    ensures IsDuplicate(s, id, span) == SlotOf(trace.rows, span.spanId).Some?
    ensures InsertSpan(s, id, span, now) ==
            StoreState(
              states, keys, services, s.budget,
              if id in s.traces then s.evicted else s.evicted - {id},
              s.counters.(
                duplicateSpan := s.counters.duplicateSpan + (if SlotOf(trace.rows, span.spanId).Some? then 1 else 0),
                lateSpanAfterEviction := s.counters.lateSpanAfterEviction + (if IsLate(s, id) then 1 else 0),
                attributeKeyCapHit := keys.refusals))
  {
    hide PutRow, Encode, AdmitKeys, AdmitService;
  }

  lemma OldestIsResident(traces: map<TraceId, TraceState>, id: TraceId)
    requires IsOldest(traces, id)
    ensures id in traces
  {
  }

  class Store {
    var traces: map<TraceId, Trace>
    const keyInterner: Interner
    const serviceInterner: Interner
    const maxMemoryBytes: nat
    var evictedGenerations: map<TraceId, nat>
    var counters: Counters

    ghost predicate Valid()
      reads this, traces.Values, keyInterner, serviceInterner
    {
      && keyInterner != serviceInterner
      && keyInterner.Valid()
      && serviceInterner.Valid()
      && (forall id | id in traces :: traces[id].traceId == id && traces[id].Valid())
    }

    ghost function TraceStates(): (states: map<TraceId, TraceState>)
      reads this, traces.Values
      ensures states.Keys == traces.Keys
    {
      map id | id in traces :: TraceState(traces[id].rows, traces[id].generation, traces[id].lastActivity)
    }

    ghost function State(): StoreState
      reads this, traces.Values, keyInterner, serviceInterner
    {
      StoreState(TraceStates(), keyInterner.State(), serviceInterner.State(), maxMemoryBytes,
                 evictedGenerations, counters)
    }

    constructor (maxMemoryBytes: nat)
      ensures Valid()
      ensures State() == NewStore(maxMemoryBytes, 100_000)
      ensures fresh(keyInterner) && fresh(serviceInterner) && fresh(traces.Values)
    {
      var keys := new Interner(GLOBAL_INTERNER_CAP);
      var services := new Interner(GLOBAL_INTERNER_CAP);
      keyInterner, serviceInterner := keys, services;
      this.maxMemoryBytes := maxMemoryBytes;
      traces, evictedGenerations := map[], map[];
      counters := Counters(0, 0, 0, 0, 0);
    }

    method InsertSpanNoEvict(id: TraceId, span: NewSpan, now: nat)
      returns (localIdx: nat, isDuplicate: bool, resurrected: bool)
      requires Valid()
      requires Readable(StoreModel.InsertSpan(State(), id, span, now))
      modifies this, traces.Values, keyInterner, serviceInterner
      ensures Valid()
      ensures fresh(traces.Values - old(traces.Values))
      ensures State() == StoreModel.InsertSpan(old(State()), id, span, now)
      ensures isDuplicate == IsDuplicate(old(State()), id, span)
      ensures resurrected == IsLate(old(State()), id)
      ensures id in traces && SlotOf(traces[id].rows, span.spanId) == Some(localIdx)
    {
      hide TraceStates, Valid, Trace.Valid, Trace.WellFormed, Interner.State, Interner.Valid, Readable;
      hide StoreModel.InsertSpan, Opened, PutRow, RowOf, SlotOf, Encode, EncodeService, AdmitKeys, AdmitService, Flat;
      ghost var s, trace := State(), Opened(State(), id, now);
      InsertedIsReadable(State(), id, span, now);
      var serviceId;
      serviceId, resurrected := Prepare(id, span.serviceName, now);
      localIdx, isDuplicate := InsertInto(id, span, serviceId, now);
      Count(isDuplicate, resurrected);
      ghost var row := RowOf(span, serviceId, Encode(keyInterner.State(), span.attributes));
      InsertSpanPieces(s, id, span, now, trace, row, TraceStates(), keyInterner.State(), serviceInterner.State());
    }

    // The service is interned first, then the trace is found or created.
    method Prepare(id: TraceId, serviceName: Option<string>, now: nat)
      returns (serviceId: Option<nat>, resurrected: bool)
      requires Valid()
      modifies this, serviceInterner
      ensures Valid()
      ensures id in traces
      ensures fresh(traces.Values - old(traces.Values))
      ensures keyInterner.State() == old(keyInterner.State()) && counters == old(counters)
      ensures serviceInterner.State() == AdmitService(old(serviceInterner.State()), serviceName)
      ensures serviceId == EncodeService(serviceInterner.State(), serviceName)
      ensures resurrected == IsLate(old(State()), id)
      ensures TraceStates() == old(TraceStates())[id := Opened(old(State()), id, now)]
      ensures evictedGenerations ==
              if id in old(traces) then old(evictedGenerations) else old(evictedGenerations) - {id}
    {
      hide TraceStates, Valid, Trace.Valid, Trace.WellFormed, Interner.State, Interner.Valid;
      hide Opened, EncodeService, AdmitService;
      serviceId := InternService(serviceName);
      SameOpened(old(State()), State(), id, now);
      resurrected := id !in traces && id in evictedGenerations;
      OpenTrace(id, now);
    }

    method Count(isDuplicate: bool, resurrected: bool)
      requires Valid()
      modifies this`counters
      ensures Valid()
      ensures TraceStates() == old(TraceStates())
      ensures counters == old(counters).(
                duplicateSpan := old(counters).duplicateSpan + (if isDuplicate then 1 else 0),
                lateSpanAfterEviction := old(counters).lateSpanAfterEviction + (if resurrected then 1 else 0),
                attributeKeyCapHit := keyInterner.State().refusals)
    {
      hide Trace.Valid, Trace.WellFormed, Interner.Valid;
      if isDuplicate {
        counters := counters.(duplicateSpan := counters.duplicateSpan + 1);
      }
      if resurrected {
        counters := counters.(lateSpanAfterEviction := counters.lateSpanAfterEviction + 1);
      }
      counters := counters.(attributeKeyCapHit := keyInterner.capHitCount);
    }

    method InsertInto(id: TraceId, span: NewSpan, serviceId: Option<nat>, now: nat)
      returns (localIdx: nat, isDuplicate: bool)
      requires Valid()
      requires id in traces
      requires
        var attrs := Encode(AdmitKeys(keyInterner.State(), span.attributes), span.attributes);
        |Flat(PutRow(TraceStates()[id].rows, RowOf(span, serviceId, attrs)))| < U32_LIMIT
      modifies traces[id], keyInterner
      ensures Valid()
      ensures keyInterner.State() == AdmitKeys(old(keyInterner.State()), span.attributes)
      ensures serviceInterner.State() == old(serviceInterner.State())
      ensures TraceStates() == old(TraceStates())[id :=
                TraceState(PutRow(old(TraceStates())[id].rows,
                                  RowOf(span, serviceId, Encode(keyInterner.State(), span.attributes))),
                           old(TraceStates())[id].generation, now)]
      ensures SlotOf(traces[id].rows, span.spanId) == Some(localIdx)
      ensures isDuplicate == SlotOf(old(TraceStates())[id].rows, span.spanId).Some?
    {
      hide PutRow, SlotOf, Encode, AdmitKeys, Flat, Trace.WellFormed, Interner.Valid, Interner.State;
      hide SplicedAt, Trace.FieldsMatch, Trace.LinksMatch, Trace.Spliceable, Trace.SplicesOwn, Trace.Arrays;
      traces[id].RoomToSplice(span.spanId);
      localIdx, isDuplicate := traces[id].Insert(span, serviceId, keyInterner, now);
    }

    method CountMalformed(count: nat)
      requires Valid()
      modifies this`counters
      ensures Valid()
      ensures State() == Apply(old(State()), Malformed(count))
    {
      hide Trace.Valid, Trace.WellFormed, Interner.Valid, Interner.State;
      counters := counters.(malformedSpan := counters.malformedSpan + count);
    }

    method InternService(name: Option<string>) returns (id: Option<nat>)
      requires Valid()
      modifies serviceInterner
      ensures Valid()
      ensures TraceStates() == old(TraceStates()) && keyInterner.State() == old(keyInterner.State())
      ensures serviceInterner.State() == AdmitService(old(serviceInterner.State()), name)
      ensures id == EncodeService(serviceInterner.State(), name)
    {
      hide Trace.Valid, Trace.WellFormed;
      id := None;
      if name.Some? {
        id := serviceInterner.Intern(name.value);
      }
    }

    // The resident trace, or a new one that continues the generation of the evicted one.
    method OpenTrace(id: TraceId, now: nat)
      requires Valid()
      modifies this
      ensures Valid()
      ensures id in traces
      ensures fresh(traces.Values - old(traces.Values))
      ensures counters == old(counters)
      ensures TraceStates() == old(TraceStates())[id := Opened(old(State()), id, now)]
      ensures evictedGenerations ==
              if id in old(traces) then old(evictedGenerations) else old(evictedGenerations) - {id}
    {
      hide Trace.Valid, Trace.WellFormed, Interner.Valid, Interner.State;
      if id !in traces {
        var generation := if id in evictedGenerations then AsU32(evictedGenerations[id] + 1) else 0;
        evictedGenerations := evictedGenerations - {id};
        var trace := new Trace(id, now);
        trace.Resume(generation);
        traces := traces[id := trace];
      }
    }

    static method ApproxBytes(trace: Trace) returns (total: nat)
      requires trace.Valid()
      ensures total == RowsBytes(trace.rows)
      ensures total == 64 * |trace.rows| + 24 * |trace.attrKeys| + NameBytes(trace.rows)
    {
      total := 0;
      for idx := 0 to trace.SpanCount()
        invariant total == RowsBytes(trace.rows[..idx])
      {
        assert trace.rows[..idx + 1][..idx] == trace.rows[..idx];
        total := total + SPAN_FIXED_BYTES;
        total := total + Utf8Len(trace.names[idx]);
        total := total + |trace.Attributes(idx)| * ATTR_FIXED_BYTES;
      }
      assert trace.rows[..|trace.rows|] == trace.rows;
      TraceBytes(trace.rows);
    }

    method TotalApproxBytes() returns (total: nat)
      requires Valid()
      ensures total == TotalBytes(TraceStates())
    {
      hide Trace.Valid, Trace.WellFormed, Interner.Valid, Interner.State;
      ghost var sizes := Sizes(TraceStates());
      total := 0;
      var rest := traces.Keys;
      while rest != {}
        invariant rest <= traces.Keys
        invariant total + Total(rest, sizes) == Total(traces.Keys, sizes)
        decreases rest
      {
        var id :| id in rest;
        TotalSplit(rest, sizes, id);
        var bytes := ApproxBytes(traces[id]);
        total := total + bytes;
        rest := rest - {id};
      }
    }

    // Any trace with the oldest activity: iteration order over the map is not specified.
    method OldestTrace() returns (oldest: TraceId)
      requires |traces| > 0
      ensures IsOldest(TraceStates(), oldest)
    {
      var rest := traces.Keys;
      assert rest != {};
      oldest :| oldest in rest;
      rest := rest - {oldest};
      while rest != {}
        invariant rest <= traces.Keys && oldest in traces
        invariant forall id | id in traces && id !in rest :: traces[oldest].lastActivity <= traces[id].lastActivity
        decreases rest
      {
        var id :| id in rest;
        if traces[id].lastActivity < traces[oldest].lastActivity {
          oldest := id;
        }
        rest := rest - {id};
      }
    }

    // The guard of the eviction loop.
    method OverBudget() returns (over: bool)
      requires Valid()
      ensures over == MustEvict(State())
    {
      var total := TotalApproxBytes();
      assert |traces| == |traces.Keys| == |TraceStates().Keys| == |TraceStates()|;
      over := total > maxMemoryBytes && |traces| > 1;
    }

    method EvictOverBudget() returns (ghost ids: seq<TraceId>)
      requires Valid()
      modifies this
      ensures Valid()
      ensures traces.Values <= old(traces.Values)
      ensures IsSweep(old(State()), ids)
      ensures State() == After(old(State()), ids)
    {
      hide State, Valid, MustEvict, IsOldest, After, LegalEvictions, EvictTrace;
      ids := [];
      NoEvictions(State());
      var over := OverBudget();
      while over
        invariant Valid()
        invariant traces.Values <= old(traces.Values)
        invariant over == MustEvict(State())
        invariant LegalEvictions(old(State()), ids)
        invariant State() == After(old(State()), ids)
        decreases |traces|
      {
        var id := EvictOldest();
        EvictionsSnoc(old(State()), ids, id);
        ids := ids + [id];
        over := OverBudget();
      }
    }

    method EvictOldest() returns (id: TraceId)
      requires Valid()
      requires MustEvict(State())
      modifies this
      ensures Valid()
      ensures traces.Values <= old(traces.Values)
      ensures |traces| < |old(traces)|
      ensures IsOldest(old(State()).traces, id)
      ensures State() == EvictTrace(old(State()), id)
    {
      hide EvictTrace, IsOldest, Total, Sizes, Trace.Valid, Trace.WellFormed, Interner.Valid, Interner.State;
      assert |traces| == |traces.Keys| == |TraceStates().Keys| == |TraceStates()|;
      id := OldestTrace();
      OldestIsResident(State().traces, id);
      Evict(id);
    }

    method Evict(id: TraceId)
      requires Valid()
      requires id in traces
      modifies this
      ensures Valid()
      ensures traces.Values <= old(traces.Values)
      ensures |traces| < |old(traces)|
      ensures State() == EvictTrace(old(State()), id)
    {
      hide Trace.Valid, Trace.WellFormed, Interner.Valid, Interner.State;
      var trace := traces[id];
      traces := traces - {id};
      evictedGenerations := evictedGenerations[id := trace.generation];
      counters := counters.(evictedTraces := counters.evictedTraces + 1);
      assert traces.Keys == old(traces).Keys - {id};
      assert |traces| == |traces.Keys| && |old(traces)| == |old(traces).Keys|;
      assert TraceStates() == old(TraceStates()) - {id};
    }

    method InsertSpan(id: TraceId, span: NewSpan, now: nat)
      returns (localIdx: nat, isDuplicate: bool, resurrected: bool, ghost ids: seq<TraceId>)
      requires Valid()
      requires Readable(StoreModel.InsertSpan(State(), id, span, now))
      modifies this, traces.Values, keyInterner, serviceInterner
      ensures Valid()
      ensures fresh(traces.Values - old(traces.Values))
      ensures IsSweep(StoreModel.InsertSpan(old(State()), id, span, now), ids)
      ensures State() == After(StoreModel.InsertSpan(old(State()), id, span, now), ids)
      ensures isDuplicate == IsDuplicate(old(State()), id, span)
      ensures resurrected == IsLate(old(State()), id)
    {
      localIdx, isDuplicate, resurrected := InsertSpanNoEvict(id, span, now);
      ids := EvictOverBudget();
    }
  }
}
