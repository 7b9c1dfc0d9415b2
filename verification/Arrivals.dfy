/**
 A log of arrivals, without evictions: what the store holds after it, slot by slot. Each slot holds
 the last copy of its span, encoded in the final tables, under the parent its first copy declared.
 */
module Arrivals {
  import opened Types
  import opened Interners
  import opened Rows
  import opened StoreModel

  datatype Arrival = Arrival(traceId: TraceId, span: NewSpan, now: nat)

  function Inserts(log: seq<Arrival>): seq<Event> {
    seq(|log|, i requires 0 <= i < |log| => Insert(log[i].traceId, log[i].span, log[i].now))
  }

  ghost function Inserted(s: StoreState, log: seq<Arrival>): StoreState {
    Run(s, Inserts(log))
  }

  lemma InsertedNone(s: StoreState)
    ensures Inserted(s, []) == s
  {
    assert Inserts([]) == [];
  }

  lemma InsertedSnoc(s: StoreState, log: seq<Arrival>)
    requires log != []
    ensures
      var n := |log| - 1;
      Inserted(s, log) == InsertSpan(Inserted(s, log[..n]), log[n].traceId, log[n].span, log[n].now)
  {
    var n := |log| - 1;
    assert Inserts(log)[..n] == Inserts(log[..n]);
  }

  lemma {:induction false} InsertsAreValid(s: StoreState, log: seq<Arrival>)
    ensures ValidRun(s, Inserts(log))
  {
    if log != [] {
      var n := |log| - 1;
      assert Inserts(log)[..n] == Inserts(log[..n]);
      InsertsAreValid(s, log[..n]);
    }
  }

  ghost predicate SettledSpan(s: StoreState, span: NewSpan) {
    && SettledKeys(s.keys, span.attributes)
    && (span.serviceName.Some? ==> Settled(s.services, span.serviceName.value))
  }

  ghost predicate SettledSpans(s: StoreState, log: seq<Arrival>) {
    forall k | 0 <= k < |log| :: SettledSpan(s, log[k].span)
  }

  // The row `span` has in the tables of `s`, under a first-declared parent.
  ghost function Settling(s: StoreState, span: NewSpan, parent: Option<SpanId>): Row {
    RowOf(span, EncodeService(s.services, span.serviceName), Encode(s.keys, span.attributes)).(parent := parent)
  }

  lemma SettlingIsStable(s: StoreState, s': StoreState, span: NewSpan, parent: Option<SpanId>)
    requires Grows(s.keys, s'.keys) && Grows(s.services, s'.services)
    requires SettledSpan(s, span)
    ensures SettledSpan(s', span)
    ensures Settling(s', span, parent) == Settling(s, span, parent)
  {
    EncodeStable(s.keys, s'.keys, span.attributes);
    if span.serviceName.Some? {
      IdStable(s.services, s'.services, span.serviceName.value);
    }
  }

  lemma InsertSettles(s: StoreState, id: TraceId, span: NewSpan, now: nat)
    requires Consistent(s)
    ensures
      var s' := InsertSpan(s, id, span, now);
      && Grows(s.keys, s'.keys)
      && Grows(s.services, s'.services)
      && SettledSpan(s', span)
      && NewRow(s, span) == Settling(s', span, span.parentSpanId)
  {
    AdmitKeysSettles(s.keys, span.attributes);
    if span.serviceName.Some? {
      AdmitSettles(s.services, span.serviceName.value);
    }
  }

  lemma ConsistentInserted(s: StoreState, log: seq<Arrival>)
    requires Consistent(s)
    ensures Consistent(Inserted(s, log))
  {
    ConsistentRun(s, Inserts(log));
  }

  lemma {:induction false} InsertedSettles(s: StoreState, log: seq<Arrival>)
    requires Consistent(s)
    ensures SettledSpans(Inserted(s, log), log)
    ensures Grows(s.keys, Inserted(s, log).keys)
    ensures Grows(s.services, Inserted(s, log).services)
  {
    if log == [] {
      InsertedNone(s);
    } else {
      var n := |log| - 1;
      var before, after := Inserted(s, log[..n]), Inserted(s, log);
      InsertedSnoc(s, log);
      InsertedSettles(s, log[..n]);
      ConsistentInserted(s, log[..n]);
      InsertSettles(before, log[n].traceId, log[n].span, log[n].now);
      forall k | 0 <= k < |log|
        ensures SettledSpan(after, log[k].span)
      {
        if k < n {
          assert log[..n][k] == log[k];
          SettlingIsStable(before, after, log[k].span, None);
        }
      }
    }
  }

  // The last copy of a span in a batch, if there is one.
  function LastCopy(log: seq<Arrival>, id: TraceId, spanId: SpanId): Option<NewSpan> {
    if log == [] then None
    else if log[|log| - 1].traceId == id && log[|log| - 1].span.spanId == spanId then Some(log[|log| - 1].span)
    else LastCopy(log[..|log| - 1], id, spanId)
  }

  lemma {:induction false} LastCopyIsThere(log: seq<Arrival>, id: TraceId, spanId: SpanId)
    ensures LastCopy(log, id, spanId).Some? ==>
              exists k | 0 <= k < |log| :: log[k].traceId == id && log[k].span == LastCopy(log, id, spanId).value
    ensures LastCopy(log, id, spanId).Some? ==> LastCopy(log, id, spanId).value.spanId == spanId
  {
    if log != [] {
      var n := |log| - 1;
      LastCopyIsThere(log[..n], id, spanId);
      if !(log[n].traceId == id && log[n].span.spanId == spanId) && LastCopy(log, id, spanId).Some? {
        var k :| 0 <= k < n && log[..n][k].traceId == id && log[..n][k].span == LastCopy(log, id, spanId).value;
        assert log[k].traceId == id && log[k].span == LastCopy(log, id, spanId).value;
      }
    }
  }

  // Every slot after a batch: the last copy the batch carries, under the span's first parent, or
  // else the row that was there before.
  ghost predicate SlotAfter(s: StoreState, s': StoreState, log: seq<Arrival>, id: TraceId, i: nat)
    requires id in s'.traces && i < |s'.traces[id].rows|
  {
    var row := s'.traces[id].rows[i];
    match LastCopy(log, id, row.spanId)
    case Some(span) => row == Settling(s', span, row.parent)
    case None => id in s.traces && i < |s.traces[id].rows| && row == s.traces[id].rows[i]
  }

  lemma SlotAfterInsert(s: StoreState, log: seq<Arrival>, id: TraceId, i: nat)
    requires Consistent(s) && log != []
    requires
      var before := Inserted(s, log[..|log| - 1]);
      && Consistent(before)
      && SettledSpans(before, log[..|log| - 1])
      && (id in before.traces && i < |before.traces[id].rows| ==> SlotAfter(s, before, log[..|log| - 1], id, i))
    requires id in Inserted(s, log).traces && i < |Inserted(s, log).traces[id].rows|
    ensures SlotAfter(s, Inserted(s, log), log, id, i)
  {
    var n := |log| - 1;
    var front, lastId, last, now := log[..n], log[n].traceId, log[n].span, log[n].now;
    var before, after := Inserted(s, front), Inserted(s, log);
    InsertedSnoc(s, log);
    InsertSettles(before, lastId, last, now);
    assert after == InsertSpan(before, lastId, last, now);
    var row := after.traces[id].rows[i];
    if id == lastId && row.spanId == last.spanId {
      PutRowWrites(Opened(before, id, now).rows, NewRow(before, last), i);
      SettlingParent(before, after, last, row);
    } else {
      PutRowKeeps(before, id, lastId, last, now, i);
      LastCopyIsThere(front, id, row.spanId);
      if LastCopy(front, id, row.spanId).Some? {
        SettlingIsStable(before, after, LastCopy(front, id, row.spanId).value, row.parent);
      }
    }
  }

  lemma PutRowWrites(rows: seq<Row>, row: Row, i: nat)
    requires DistinctIds(rows)
    requires i < |PutRow(rows, row)| && PutRow(rows, row)[i].spanId == row.spanId
    ensures PutRow(rows, row)[i] == row.(parent := PutRow(rows, row)[i].parent)
  {
  }

  lemma PutRowKeeps(before: StoreState, id: TraceId, lastId: TraceId, last: NewSpan, now: nat, i: nat)
    requires
      var after := InsertSpan(before, lastId, last, now);
      && id in after.traces && i < |after.traces[id].rows|
      && !(id == lastId && after.traces[id].rows[i].spanId == last.spanId)
    ensures id in before.traces && i < |before.traces[id].rows|
    ensures InsertSpan(before, lastId, last, now).traces[id].rows[i] == before.traces[id].rows[i]
  {
  }

  lemma SettlingParent(before: StoreState, after: StoreState, span: NewSpan, row: Row)
    requires NewRow(before, span) == Settling(after, span, span.parentSpanId)
    requires row == NewRow(before, span).(parent := row.parent)
    ensures row == Settling(after, span, row.parent)
  {
  }

  lemma {:induction false} SlotsAfter(s: StoreState, log: seq<Arrival>, id: TraceId, i: nat)
    requires Consistent(s)
    requires id in Inserted(s, log).traces && i < |Inserted(s, log).traces[id].rows|
    ensures SlotAfter(s, Inserted(s, log), log, id, i)
  {
    if log == [] {
      InsertedNone(s);
    } else {
      var front := log[..|log| - 1];
      var before := Inserted(s, front);
      ConsistentInserted(s, front);
      InsertedSettles(s, front);
      if id in before.traces && i < |before.traces[id].rows| {
        SlotsAfter(s, front, id, i);
      }
      SlotAfterInsert(s, log, id, i);
    }
  }

  // The first copy of the batch: every span it carries is in place afterwards.
  lemma {:induction false} CopiesLand(s: StoreState, log: seq<Arrival>, k: nat)
    requires k < |log|
    ensures IsDuplicate(Inserted(s, log), log[k].traceId, log[k].span)
  {
    var n := |log| - 1;
    InsertedSnoc(s, log);
    if k < n {
      assert log[..n][k] == log[k];
      CopiesLand(s, log[..n], k);
      DuplicateStays(Inserted(s, log[..n]), log[n].traceId, log[n].span, log[n].now, log[k].traceId, log[k].span);
    } else {
      InsertLands(Inserted(s, log[..n]), log[n].traceId, log[n].span, log[n].now);
    }
  }

  lemma InsertLands(s: StoreState, id: TraceId, span: NewSpan, now: nat)
    ensures IsDuplicate(InsertSpan(s, id, span, now), id, span)
  {
    var rows := Opened(s, id, now).rows;
    var rows' := PutRow(rows, NewRow(s, span));
    if SlotOf(rows, span.spanId).None? {
      assert rows'[|rows|].spanId == span.spanId;
    } else {
      assert rows'[SlotOf(rows, span.spanId).value].spanId == span.spanId;
    }
  }

  lemma DuplicateStays(s: StoreState, id: TraceId, span: NewSpan, now: nat, other: TraceId, x: NewSpan)
    requires IsDuplicate(s, other, x)
    ensures IsDuplicate(InsertSpan(s, id, span, now), other, x)
  {
    var slot := SlotOf(s.traces[other].rows, x.spanId).value;
    assert InsertSpan(s, id, span, now).traces[other].rows[slot].spanId == x.spanId;
  }
}
