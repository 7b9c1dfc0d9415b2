/**
 Retry idempotence: an exporter that was told to try again sends the same batch twice, and the
 second copy changes nothing a reader can see.
 */
module Retry {
  import opened Types
  import opened Interners
  import opened Rows
  import opened StoreModel
  import opened Sweeps
  import opened Arrivals
  import opened Batches

  // The second copy ------------------------------------------------------------------------------

  ghost predicate InBatch(log: seq<Arrival>, id: TraceId) {
    exists k | 0 <= k < |log| :: log[k].traceId == id
  }

  // Same trace, same slots and links; only the activity of the batch's own traces has moved.
  ghost predicate SameTrace(trace: TraceState, trace': TraceState, touched: bool, now: nat) {
    && trace'.generation == trace.generation
    && trace'.lastActivity == (if touched then now else trace.lastActivity)
    && |trace'.rows| == |trace.rows|
    && forall i | 0 <= i < |trace.rows| ::
         trace'.rows[i].spanId == trace.rows[i].spanId && trace'.rows[i].parent == trace.rows[i].parent
  }

  ghost predicate SameStrings(s: StoreState, t: StoreState) {
    && Grows(s.keys, t.keys) && t.keys.strings == s.keys.strings
    && Grows(s.services, t.services) && t.services.strings == s.services.strings
  }

  ghost predicate SameBooks(s: StoreState, t: StoreState, resent: nat) {
    && t.budget == s.budget
    && t.evicted == s.evicted
    && t.counters.duplicateSpan == s.counters.duplicateSpan + resent
    && t.counters.lateSpanAfterEviction == s.counters.lateSpanAfterEviction
    && t.counters.evictedTraces == s.counters.evictedTraces
    && t.counters.malformedSpan == s.counters.malformedSpan
  }

  ghost predicate Echoed(s: StoreState, t: StoreState, log: seq<Arrival>, now: nat) {
    && SameStrings(s, t)
    && SameBooks(s, t, |log|)
    && t.traces.Keys == s.traces.Keys
    && forall id | id in s.traces :: SameTrace(s.traces[id], t.traces[id], InBatch(log, id), now)
  }

  lemma SettledAgain(s: StoreState, id: TraceId, span: NewSpan, now: nat)
    requires Consistent(s) && SettledSpan(s, span)
    ensures SameStrings(s, InsertSpan(s, id, span, now))
  {
    AdmitSettledKeys(s.keys, span.attributes);
  }

  lemma OverwriteKeepsShape(s: StoreState, id: TraceId, span: NewSpan, now: nat)
    requires IsDuplicate(s, id, span)
    ensures SameTrace(s.traces[id], InsertSpan(s, id, span, now).traces[id], true, now)
    ensures SameBooks(s, InsertSpan(s, id, span, now), 1)
    ensures InsertSpan(s, id, span, now).traces.Keys == s.traces.Keys
  {
  }

  lemma SameShapeSameDuplicates(s: StoreState, t: StoreState, log: seq<Arrival>, now: nat, id: TraceId, x: NewSpan)
    requires Echoed(s, t, log, now)
    requires IsDuplicate(s, id, x)
    ensures IsDuplicate(t, id, x)
  {
    var slot := SlotOf(s.traces[id].rows, x.spanId).value;
    assert t.traces[id].rows[slot].spanId == x.spanId;
  }

  lemma EchoStep(s: StoreState, t: StoreState, log: seq<Arrival>, now: nat)
    requires log != []
    requires Consistent(t)
    requires Echoed(s, t, log[..|log| - 1], now)
    requires SettledSpan(s, log[|log| - 1].span) && IsDuplicate(s, log[|log| - 1].traceId, log[|log| - 1].span)
    ensures Echoed(s, InsertSpan(t, log[|log| - 1].traceId, log[|log| - 1].span, now), log, now)
  {
    var n := |log| - 1;
    var front, id, span := log[..n], log[n].traceId, log[n].span;
    var t' := InsertSpan(t, id, span, now);
    SettlingIsStable(s, t, span, None);
    SettledAgain(t, id, span, now);
    SameShapeSameDuplicates(s, t, front, now, id, span);
    OverwriteKeepsShape(t, id, span, now);
    forall other | other in s.traces
      ensures SameTrace(s.traces[other], t'.traces[other], InBatch(log, other), now)
    {
      InBatchSnoc(log, other);
      assert other != id ==> t'.traces[other] == t.traces[other];
      assert SameTrace(s.traces[other], t.traces[other], InBatch(front, other), now);
    }
  }

  lemma InBatchSnoc(log: seq<Arrival>, id: TraceId)
    requires log != []
    ensures InBatch(log, id) <==> InBatch(log[..|log| - 1], id) || log[|log| - 1].traceId == id
  {
    var front := log[..|log| - 1];
    if InBatch(front, id) {
      var k :| 0 <= k < |front| && front[k].traceId == id;
      assert log[k].traceId == id;
    }
    if InBatch(log, id) && log[|log| - 1].traceId != id {
      var k :| 0 <= k < |log| && log[k].traceId == id;
      assert front[k].traceId == id;
    }
  }

  lemma {:induction false} EchoAll(s: StoreState, log: seq<Arrival>, now: nat)
    requires Consistent(s)
    requires forall k | 0 <= k < |log| :: log[k].now == now
    requires SettledSpans(s, log)
    requires forall k | 0 <= k < |log| :: IsDuplicate(s, log[k].traceId, log[k].span)
    ensures Echoed(s, Inserted(s, log), log, now)
  {
    if log == [] {
      InsertedNone(s);
    } else {
      var n := |log| - 1;
      assert forall k | 0 <= k < n :: log[..n][k] == log[k];
      EchoAll(s, log[..n], now);
      ConsistentInserted(s, log[..n]);
      InsertedSnoc(s, log);
      EchoStep(s, Inserted(s, log[..n]), log, now);
    }
  }

  // Both copies together -------------------------------------------------------------------------

  lemma {:induction false} EvictionsKeepTables(s: StoreState, ids: seq<TraceId>)
    ensures After(s, ids).keys == s.keys && After(s, ids).services == s.services
  {
    if ids == [] {
      NoEvictions(s);
    } else {
      var front, last := ids[..|ids| - 1], ids[|ids| - 1];
      assert ids == front + [last];
      EvictionsSnoc(s, front, last);
      EvictionsKeepTables(s, front);
    }
  }

  lemma {:induction false} SameCopies(spans: seq<TracedSpan>, now: nat, now': nat, id: TraceId, spanId: SpanId)
    ensures LastCopy(Stamp(spans, now), id, spanId) == LastCopy(Stamp(spans, now'), id, spanId)
  {
    if spans != [] {
      var n := |spans| - 1;
      assert Stamp(spans, now)[..n] == Stamp(spans[..n], now);
      assert Stamp(spans, now')[..n] == Stamp(spans[..n], now');
      SameCopies(spans[..n], now, now', id, spanId);
    }
  }

  lemma RowUnchanged(s: StoreState, s1: StoreState, log: seq<Arrival>, log': seq<Arrival>, now': nat,
                     id: TraceId, i: nat)
    requires Consistent(s) && Consistent(s1)
    requires
      var first := Inserted(s, log);
      && s1.keys == first.keys && s1.services == first.services
      && id in s1.traces && id in first.traces && s1.traces[id] == first.traces[id]
      && i < |s1.traces[id].rows|
    requires Echoed(s1, Inserted(s1, log'), log', now')
    requires LastCopy(log, id, s1.traces[id].rows[i].spanId) == LastCopy(log', id, s1.traces[id].rows[i].spanId)
    ensures Inserted(s1, log').traces[id].rows[i] == s1.traces[id].rows[i]
  {
    var first, second := Inserted(s, log), Inserted(s1, log');
    var row, row' := first.traces[id].rows[i], second.traces[id].rows[i];
    assert SameTrace(s1.traces[id], second.traces[id], InBatch(log', id), now');
    assert row'.spanId == row.spanId && row'.parent == row.parent;
    SlotsAfter(s, log, id, i);
    SlotsAfter(s1, log', id, i);
    LastCopyIsThere(log, id, row.spanId);
    InsertedSettles(s, log);
    match LastCopy(log, id, row.spanId) {
      case Some(span) => SettlingIsStable(first, second, span, row.parent);
      case None =>
    }
  }

  lemma SameRowsSameBytes(s: StoreState, t: StoreState)
    requires t.traces.Keys == s.traces.Keys
    requires forall id | id in s.traces :: t.traces[id].rows == s.traces[id].rows
    ensures TotalBytes(t.traces) == TotalBytes(s.traces)
    ensures |t.traces| == |s.traces|
  {
    assert Sizes(t.traces) == Sizes(s.traces);
    assert |t.traces| == |t.traces.Keys| && |s.traces| == |s.traces.Keys|;
  }

  lemma NothingToSweep(s: StoreState, ids: seq<TraceId>)
    requires LegalEvictions(s, ids) && !MustEvict(s)
    ensures ids == []
  {
    if ids != [] {
      EvictionsCons(s, ids);
    }
  }

  // What a reader sees after the retry is what it saw before; only the clock of the batch's traces
  // and the counters of the retry itself have moved.
  ghost predicate RetryLeaves(s: StoreState, t: StoreState, batch: SpanBatch, now: nat) {
    && SameStrings(s, t)
    && t.budget == s.budget
    && t.traces.Keys == s.traces.Keys
    && (forall id | id in s.traces ::
          t.traces[id]
          == s.traces[id].(lastActivity := if InBatch(Stamp(batch.spans, now), id) then now
                                           else s.traces[id].lastActivity))
    && t.evicted == s.evicted
    && t.counters == s.counters.(
         duplicateSpan := s.counters.duplicateSpan + |batch.spans|,
         malformedSpan := s.counters.malformedSpan + batch.malformedSpanCount,
         attributeKeyCapHit := t.counters.attributeKeyCapHit)
  }

  // What the first copy leaves, provided its sweep took none of its own traces.
  lemma FirstCopySettles(s: StoreState, batch: SpanBatch, now: nat, ids: seq<TraceId>)
    requires Consistent(s)
    requires Sweepable(s, batch, now, ids)
    requires forall k | 0 <= k < |batch.spans| :: batch.spans[k].0 in ApplyBatch(s, batch, now, ids).traces
    ensures
      var log := Stamp(batch.spans, now);
      var first, s1 := Inserted(s, log), ApplyBatch(s, batch, now, ids);
      && Consistent(s1)
      && s1.keys == first.keys && s1.services == first.services
      && (forall id | id in s1.traces :: id in first.traces && s1.traces[id] == first.traces[id])
      && (forall k | 0 <= k < |batch.spans| ::
            SettledSpan(s1, batch.spans[k].1) && IsDuplicate(s1, batch.spans[k].0, batch.spans[k].1))
  {
    var log := Stamp(batch.spans, now);
    var first, s1 := Inserted(s, log), ApplyBatch(s, batch, now, ids);
    BatchIsRun(s, batch, now, ids);
    ConsistentRun(s, BatchEvents(batch, now) + EvictAll(ids));
    LandedIsInserted(s, batch, now);
    EvictionsKeepTables(Landed(s, batch, now), ids);
    EvictionsLeave(Landed(s, batch, now), ids);
    InsertedSettles(s, log);
    forall k | 0 <= k < |batch.spans|
      ensures SettledSpan(s1, batch.spans[k].1) && IsDuplicate(s1, batch.spans[k].0, batch.spans[k].1)
    {
      CopiesLand(s, log, k);
      assert SettledSpan(first, log[k].span);
    }
  }

  // What the second copy does before it is swept.
  lemma SecondCopyEchoes(s: StoreState, batch: SpanBatch, now: nat, ids: seq<TraceId>, now': nat)
    requires Consistent(s)
    requires Sweepable(s, batch, now, ids)
    requires forall k | 0 <= k < |batch.spans| :: batch.spans[k].0 in ApplyBatch(s, batch, now, ids).traces
    ensures
      var s1, log' := ApplyBatch(s, batch, now, ids), Stamp(batch.spans, now');
      var t := Inserted(s1, log');
      && Echoed(s1, t, log', now')
      && forall id | id in s1.traces :: t.traces[id].rows == s1.traces[id].rows
  {
    hide Inserted, ApplyBatch, SettledSpan, Consistent, LastCopy;
    var log, log' := Stamp(batch.spans, now), Stamp(batch.spans, now');
    var s1 := ApplyBatch(s, batch, now, ids);
    FirstCopySettles(s, batch, now, ids);
    EchoAll(s1, log', now');
    var t := Inserted(s1, log');
    forall id | id in s1.traces
      ensures t.traces[id].rows == s1.traces[id].rows
    {
      assert SameTrace(s1.traces[id], t.traces[id], InBatch(log', id), now');
      forall i | 0 <= i < |s1.traces[id].rows|
        ensures t.traces[id].rows[i] == s1.traces[id].rows[i]
      {
        SameCopies(batch.spans, now, now', id, s1.traces[id].rows[i].spanId);
        RowUnchanged(s, s1, log, log', now', id, i);
      }
    }
  }

  /**
   If every trace of a batch survives its sweep, applying the same batch again, at any later or
   earlier time, evicts nothing, keeps every row, link, attribute and generation, and counts each
   of its spans as a duplicate, whether or not the interners are full.
   */
  lemma RetryIsIdempotent(s: StoreState, batch: SpanBatch, now: nat, ids: seq<TraceId>, now': nat, ids': seq<TraceId>)
    requires Consistent(s)
    requires Sweepable(s, batch, now, ids)
    requires forall k | 0 <= k < |batch.spans| :: batch.spans[k].0 in ApplyBatch(s, batch, now, ids).traces
    requires Sweepable(ApplyBatch(s, batch, now, ids), batch, now', ids')
    ensures ids' == []
    ensures RetryLeaves(ApplyBatch(s, batch, now, ids),
                        ApplyBatch(ApplyBatch(s, batch, now, ids), batch, now', ids'), batch, now')
  {
    hide Inserted, Landed, After, LegalEvictions;
    var s1 := ApplyBatch(s, batch, now, ids);
    SecondCopyEchoes(s, batch, now, ids, now');
    LandedIsInserted(s1, batch, now');
    SameRowsSameBytes(s1, Landed(s1, batch, now'));
    NothingToSweep(Landed(s1, batch, now'), ids');
    NoEvictions(Landed(s1, batch, now'));
  }
}
