/** The two read routes on a store: a trace's payload and a trace's filter, or nothing for an unknown trace. */
module Api {
  import opened Types
  import opened Interners
  import opened Traces
  import opened StoreModel
  import opened Stores
  import opened Scanner
  import opened Query
  import opened Filter
  import opened Payloads

  // In a consistent store every id a resident trace holds can be looked up.
  lemma ResidentIdsResolve(store: Store, id: TraceId)
    requires store.Valid() && Consistent(store.State()) && id in store.traces
    ensures IdsResolve(store.traces[id], store.keyInterner, store.serviceInterner)
    ensures ServicesResolve(store.traces[id].rows, store.serviceInterner.State())
  {
    hide Trace.Valid, Interner.Valid;
    var s, rows := store.State(), store.traces[id].rows;
    assert TraceOk(s, s.traces[id]);
    assert forall i | 0 <= i < |rows| :: IdsInRange(s, rows[i]);
  }

  method FilterTrace(f: FloatOps, store: Store, id: TraceId, q: string)
    returns (found: Option<(seq<nat>, seq<string>)>)
    requires store.Valid() && Consistent(store.State())
    ensures found.Some? <==> id in store.traces
    ensures found.Some? ==>
              var (indices, dropped) := found.value;
              var trace, keys, services := store.traces[id], store.keyInterner.State(), store.serviceInterner.State();
              && dropped == DroppedOf(Tokens(q))
              && (forall a, b | 0 <= a < b < |indices| :: indices[a] < indices[b])
              && IdsResolve(trace, store.keyInterner, store.serviceInterner)
              && forall i: nat :: i in indices <==>
                   && i < |trace.rows|
                   && PlainMatchesAll(f, keys.strings, TermsOf(Tokens(q)), PlainOf(trace.rows[i], keys, services))
  {
    hide Trace.Valid, Interner.Valid, PlainMatchesAll, TermsOf, DroppedOf, Tokens;
    if id !in store.traces {
      return None;
    }
    ResidentIdsResolve(store, id);
    var indices, dropped := GetFilter(f, q, store.traces[id], store.keyInterner, store.serviceInterner);
    found := Some((indices, dropped));
  }

  method ShowTrace(store: Store, id: TraceId) returns (found: Option<Payload>)
    requires store.Valid() && Consistent(store.State())
    ensures found.Some? <==> id in store.traces
    ensures found.Some? ==>
              var payload, trace := found.value, store.traces[id];
              && payload.generation == trace.generation
              && HasColumns(payload, |trace.rows|)
              && NoRepeats(payload.stringTable)
              && ServicesResolve(trace.rows, store.serviceInterner.State())
              && HoldsExactly(payload.stringTable, TraceStrings(trace.rows, store.serviceInterner.State()))
              && (RebuildsAll(payload, trace.rows, store.serviceInterner.State())
                  <==> |TraceStrings(trace.rows, store.serviceInterner.State())| <= U32_LIMIT)
  {
    hide Trace.Valid, Interner.Valid, RebuildsAll, TraceStrings, HoldsExactly, NoRepeats, Consistent;
    if id !in store.traces {
      return None;
    }
    ResidentIdsResolve(store, id);
    var payload := GetTrace(store.traces[id], store.serviceInterner);
    found := Some(payload);
  }
}
