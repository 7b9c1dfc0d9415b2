/**
 Deferred eviction equals eager eviction: a batch of new spans for one trace, inserted back to back
 and swept once, leaves the store exactly as sweeping after every span would.
 */
module Deferred {
  import opened Types
  import opened Rows
  import opened Sums
  import opened StoreModel
  import opened Sweeps

  // `insert_span_no_evict` for each span in turn.
  ghost function InsertAll(s: StoreState, id: TraceId, spans: seq<NewSpan>, now: nat): StoreState {
    if spans == [] then s else
      InsertSpan(InsertAll(s, id, spans[..|spans| - 1], now), id, spans[|spans| - 1], now)
  }

  // `insert_span` for each span in turn, the k-th insertion followed by the k-th sweep.
  ghost function InsertEach(s: StoreState, id: TraceId, spans: seq<NewSpan>, now: nat,
                            sweeps: seq<seq<TraceId>>): StoreState
    requires |sweeps| == |spans|
  {
    if spans == [] then s else
      var n := |spans| - 1;
      After(InsertSpan(InsertEach(s, id, spans[..n], now, sweeps[..n]), id, spans[n], now), sweeps[n])
  }

  ghost predicate SweptEach(s: StoreState, id: TraceId, spans: seq<NewSpan>, now: nat, sweeps: seq<seq<TraceId>>) {
    && |sweeps| == |spans|
    && (spans != [] ==>
          var n := |spans| - 1;
          && SweptEach(s, id, spans[..n], now, sweeps[..n])
          && IsSweep(InsertSpan(InsertEach(s, id, spans[..n], now, sweeps[..n]), id, spans[n], now), sweeps[n]))
  }

  function Flatten<T>(xss: seq<seq<T>>): seq<T> {
    if xss == [] then [] else Flatten(xss[..|xss| - 1]) + xss[|xss| - 1]
  }

  // No span of the batch is in the trace yet, and no two have the same id.
  ghost predicate AllNew(s: StoreState, id: TraceId, spans: seq<NewSpan>) {
    && (forall k | 0 <= k < |spans| :: !IsDuplicate(s, id, spans[k]))
    && (forall j, k | 0 <= j < k < |spans| :: spans[j].spanId != spans[k].spanId)
  }

  // `now` is newer than the activity of every other trace, and those differ from each other.
  ghost predicate StrictlyNewest(s: StoreState, id: TraceId, now: nat) {
    && (forall other | other in s.traces && other != id :: s.traces[other].lastActivity < now)
    && (forall a, b | a in s.traces && b in s.traces && a != b && a != id && b != id ::
          s.traces[a].lastActivity != s.traces[b].lastActivity)
  }

  // The trace has just received a span.
  ghost predicate Receiving(s: StoreState, id: TraceId, now: nat) {
    && id in s.traces
    && s.traces[id].lastActivity == now
    && StrictlyNewest(s, id, now)
  }

  lemma ReceivingIsDistinct(s: StoreState, id: TraceId, now: nat)
    requires Receiving(s, id, now)
    ensures DistinctActivity(s.traces)
  {
  }

  lemma ReceivingAfterInsert(s: StoreState, id: TraceId, span: NewSpan, now: nat)
    requires StrictlyNewest(s, id, now)
    ensures Receiving(InsertSpan(s, id, span, now), id, now)
  {
  }

  lemma {:induction false} ReceivingAfterAll(s: StoreState, id: TraceId, spans: seq<NewSpan>, now: nat)
    requires StrictlyNewest(s, id, now)
    requires spans != []
    ensures Receiving(InsertAll(s, id, spans, now), id, now)
  {
    var front := spans[..|spans| - 1];
    if front != [] {
      ReceivingAfterAll(s, id, front, now);
    }
    ReceivingAfterInsert(InsertAll(s, id, front, now), id, spans[|spans| - 1], now);
  }

  // Evicting another trace commutes with inserting into this one.
  lemma EvictCommutes(s: StoreState, id: TraceId, span: NewSpan, now: nat, other: TraceId)
    requires id in s.traces && other in s.traces && other != id
    ensures EvictTrace(InsertSpan(s, id, span, now), other) == InsertSpan(EvictTrace(s, other), id, span, now)
  {
    var left := EvictTrace(InsertSpan(s, id, span, now), other);
    var right := InsertSpan(EvictTrace(s, other), id, span, now);
    assert left.traces == right.traces;
    assert left.evicted == right.evicted;
  }

  lemma NewSpanAppends(s: StoreState, id: TraceId, span: NewSpan, now: nat)
    requires id in s.traces && !IsDuplicate(s, id, span)
    ensures InsertSpan(s, id, span, now).traces
         == s.traces[id := TraceState(s.traces[id].rows + [NewRow(s, span)], s.traces[id].generation, now)]
    ensures InsertSpan(s, id, span, now).budget == s.budget
  {
  }

  lemma BytesOfAppend(rows: seq<Row>, row: Row)
    ensures RowsBytes(rows + [row]) == RowsBytes(rows) + RowBytes(row)
  {
    assert (rows + [row])[..|rows|] == rows;
  }

  lemma BytesGrow(s: StoreState, id: TraceId, span: NewSpan, now: nat)
    requires id in s.traces && !IsDuplicate(s, id, span)
    ensures TotalBytes(InsertSpan(s, id, span, now).traces) >= TotalBytes(s.traces)
  {
    hide InsertSpan, NewRow, RowsBytes, IsDuplicate;
    var s' := InsertSpan(s, id, span, now);
    NewSpanAppends(s, id, span, now);
    BytesOfAppend(s.traces[id].rows, NewRow(s, span));
    TotalUpdate(Sizes(s.traces), Sizes(s'.traces), id);
    assert Sizes(s.traces).Keys == s.traces.Keys && Sizes(s'.traces).Keys == s'.traces.Keys;
  }

  // An eviction that was due before a new span arrives is still due after it.
  lemma StillDue(s: StoreState, id: TraceId, span: NewSpan, now: nat, other: TraceId)
    requires Receiving(s, id, now)
    requires !IsDuplicate(s, id, span)
    requires Enabled(s, Evict(other))
    ensures other != id
    ensures Enabled(InsertSpan(s, id, span, now), Evict(other))
  {
    hide InsertSpan, NewRow, RowsBytes, IsDuplicate, TotalBytes;
    NewestIsNotOldest(s, id);
    BytesGrow(s, id, span, now);
    NewSpanAppends(s, id, span, now);
    var s' := InsertSpan(s, id, span, now);
    assert s'.traces.Keys == s.traces.Keys;
    assert |s'.traces| == |s'.traces.Keys| == |s.traces.Keys| == |s.traces|;
  }

  lemma ReceivingAfterEvict(s: StoreState, id: TraceId, now: nat, other: TraceId)
    requires Receiving(s, id, now)
    requires other != id
    ensures Receiving(EvictTrace(s, other), id, now)
    ensures EvictTrace(s, other).traces[id] == s.traces[id]
  {
  }

  // Hence a whole run of evictions slides past the arrival of a new span.
  lemma {:induction false} EvictionsSlide(s: StoreState, id: TraceId, span: NewSpan, now: nat, ids: seq<TraceId>)
    requires Receiving(s, id, now)
    requires !IsDuplicate(s, id, span)
    requires LegalEvictions(s, ids)
    ensures LegalEvictions(InsertSpan(s, id, span, now), ids)
    ensures After(InsertSpan(s, id, span, now), ids) == InsertSpan(After(s, ids), id, span, now)
    decreases |ids|
  {
    hide After, LegalEvictions, InsertSpan, EvictTrace, Receiving, Enabled;
    NoEvictions(s);
    NoEvictions(InsertSpan(s, id, span, now));
    if ids != [] {
      EvictionsCons(s, ids);
      EvictionsCons(InsertSpan(s, id, span, now), ids);
      StillDue(s, id, span, now, ids[0]);
      EvictableIsResident(s, ids[0]);
      ReceivingAfterEvict(s, id, now, ids[0]);
      ReceivingIsResident(s, id, now);
      ReceivingIsResident(EvictTrace(s, ids[0]), id, now);
      EvictCommutes(s, id, span, now, ids[0]);
      EvictionsSlide(EvictTrace(s, ids[0]), id, span, now, ids[1..]);
    }
  }

  lemma EvictableIsResident(s: StoreState, id: TraceId)
    requires Enabled(s, Evict(id))
    ensures id in s.traces
  {
  }

  lemma ReceivingIsResident(s: StoreState, id: TraceId, now: nat)
    requires Receiving(s, id, now)
    ensures id in s.traces
  {
  }

  lemma NewStaysNewStep(s: StoreState, id: TraceId, other: NewSpan, now: nat, span: NewSpan)
    requires !IsDuplicate(s, id, span) && other.spanId != span.spanId
    ensures !IsDuplicate(InsertSpan(s, id, other, now), id, span)
  {
  }

  lemma {:induction false} NewStaysNew(s: StoreState, id: TraceId, spans: seq<NewSpan>, now: nat, span: NewSpan)
    requires !IsDuplicate(s, id, span)
    requires forall k | 0 <= k < |spans| :: spans[k].spanId != span.spanId
    ensures !IsDuplicate(InsertAll(s, id, spans, now), id, span)
  {
    hide InsertSpan, IsDuplicate;
    if spans != [] {
      var n := |spans| - 1;
      NewStaysNew(s, id, spans[..n], now, span);
      NewStaysNewStep(InsertAll(s, id, spans[..n], now), id, spans[n], now, span);
    }
  }

  // The eager run reaches the deferred run swept by all its sweeps put together.
  lemma {:induction false} EagerIsOneSweep(s: StoreState, id: TraceId, spans: seq<NewSpan>, now: nat,
                                           sweeps: seq<seq<TraceId>>)
    requires AllNew(s, id, spans)
    requires StrictlyNewest(s, id, now)
    requires spans != []
    requires SweptEach(s, id, spans, now, sweeps)
    ensures IsSweep(InsertAll(s, id, spans, now), Flatten(sweeps))
    ensures InsertEach(s, id, spans, now, sweeps) == After(InsertAll(s, id, spans, now), Flatten(sweeps))
  {
    hide After, LegalEvictions, InsertSpan, MustEvict;
    var n := |spans| - 1;
    var front, last := spans[..n], spans[n];
    if n > 0 {
      EagerIsOneSweep(s, id, front, now, sweeps[..n]);
      var deferred, done := InsertAll(s, id, front, now), Flatten(sweeps[..n]);
      ReceivingAfterAll(s, id, front, now);
      NewStaysNew(s, id, front, now, last);
      EvictionsSlide(deferred, id, last, now, done);
      EvictionsConcat(InsertSpan(deferred, id, last, now), done, sweeps[n]);
    } else {
      assert Flatten(sweeps) == sweeps[0] by {
        assert [] + sweeps[0] == sweeps[0];
      }
    }
  }

  // Eager insertion always goes through: every span can be swept after.
  lemma {:induction false} EagerSweepsExist(s: StoreState, id: TraceId, spans: seq<NewSpan>, now: nat)
    returns (sweeps: seq<seq<TraceId>>)
    ensures SweptEach(s, id, spans, now, sweeps)
  {
    hide InsertSpan, IsSweep, After;
    if spans == [] {
      sweeps := [];
    } else {
      var n := |spans| - 1;
      var before := EagerSweepsExist(s, id, spans[..n], now);
      var last := SweepExists(InsertSpan(InsertEach(s, id, spans[..n], now, before), id, spans[n], now));
      sweeps := before + [last];
      assert sweeps[..n] == before;
    }
  }

  /** One sweep after the batch leaves the store exactly as a sweep after every span. */
  lemma DeferredEqualsEager(s: StoreState, id: TraceId, spans: seq<NewSpan>, now: nat,
                            sweeps: seq<seq<TraceId>>, sweep: seq<TraceId>)
    requires AllNew(s, id, spans)
    requires StrictlyNewest(s, id, now)
    requires spans != []
    requires SweptEach(s, id, spans, now, sweeps)
    requires IsSweep(InsertAll(s, id, spans, now), sweep)
    ensures After(InsertAll(s, id, spans, now), sweep) == InsertEach(s, id, spans, now, sweeps)
  {
    EagerIsOneSweep(s, id, spans, now, sweeps);
    ReceivingAfterAll(s, id, spans, now);
    ReceivingIsDistinct(InsertAll(s, id, spans, now), id, now);
    SweepIsUnique(InsertAll(s, id, spans, now), sweep, Flatten(sweeps));
  }
}
