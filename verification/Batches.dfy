/**
 One batch as the writer applies it: every span inserted without evicting, the malformed spans
 counted, then one sweep.
 */
module Batches {
  import opened Types
  import opened StoreModel
  import opened Sweeps
  import opened Arrivals

  type TracedSpan = (TraceId, NewSpan)

  datatype SpanBatch = SpanBatch(spans: seq<TracedSpan>, partial: bool, malformedSpanCount: nat)

  // The writer reads the clock once per batch.
  function Stamp(spans: seq<TracedSpan>, now: nat): seq<Arrival> {
    seq(|spans|, i requires 0 <= i < |spans| => Arrival(spans[i].0, spans[i].1, now))
  }

  function BatchEvents(batch: SpanBatch, now: nat): seq<Event> {
    Inserts(Stamp(batch.spans, now)) + [Malformed(batch.malformedSpanCount)]
  }

  // The store when the batch has landed but before it is swept.
  ghost function Landed(s: StoreState, batch: SpanBatch, now: nat): StoreState {
    Run(s, BatchEvents(batch, now))
  }

  // `ids` is a sweep the writer may perform once the batch has landed.
  ghost predicate Sweepable(s: StoreState, batch: SpanBatch, now: nat, ids: seq<TraceId>) {
    IsSweep(Landed(s, batch, now), ids)
  }

  ghost function ApplyBatch(s: StoreState, batch: SpanBatch, now: nat, ids: seq<TraceId>): StoreState {
    After(Landed(s, batch, now), ids)
  }

  lemma LandedIsInserted(s: StoreState, batch: SpanBatch, now: nat)
    ensures
      var t := Inserted(s, Stamp(batch.spans, now));
      Landed(s, batch, now)
      == t.(counters := t.counters.(malformedSpan := t.counters.malformedSpan + batch.malformedSpanCount))
  {
    assert BatchEvents(batch, now)[..|batch.spans|] == Inserts(Stamp(batch.spans, now));
  }

  // A batch is a stretch of a run, so everything proved of runs holds of batches.
  lemma BatchIsRun(s: StoreState, batch: SpanBatch, now: nat, ids: seq<TraceId>)
    requires Sweepable(s, batch, now, ids)
    ensures ValidRun(s, BatchEvents(batch, now) + EvictAll(ids))
    ensures ApplyBatch(s, batch, now, ids) == Run(s, BatchEvents(batch, now) + EvictAll(ids))
  {
    assert BatchEvents(batch, now)[..|batch.spans|] == Inserts(Stamp(batch.spans, now));
    InsertsAreValid(s, Stamp(batch.spans, now));
    RunConcat(s, BatchEvents(batch, now), EvictAll(ids));
  }

  // A batch that was applied, when, and what its sweep evicted.
  datatype Applied = Applied(batch: SpanBatch, now: nat, sweep: seq<TraceId>)

  ghost function Replay(s: StoreState, log: seq<Applied>): StoreState {
    if log == [] then s else
      var last := log[|log| - 1];
      ApplyBatch(Replay(s, log[..|log| - 1]), last.batch, last.now, last.sweep)
  }

  ghost predicate Replayable(s: StoreState, log: seq<Applied>) {
    log == [] ||
    (var last := log[|log| - 1];
     && Replayable(s, log[..|log| - 1])
     && Sweepable(Replay(s, log[..|log| - 1]), last.batch, last.now, last.sweep))
  }

  function ReplayEvents(log: seq<Applied>): seq<Event> {
    if log == [] then [] else
      var last := log[|log| - 1];
      ReplayEvents(log[..|log| - 1]) + (BatchEvents(last.batch, last.now) + EvictAll(last.sweep))
  }

  lemma {:induction false} ReplayIsRun(s: StoreState, log: seq<Applied>)
    requires Replayable(s, log)
    ensures ValidRun(s, ReplayEvents(log))
    ensures Replay(s, log) == Run(s, ReplayEvents(log))
  {
    hide ApplyBatch, Sweepable, BatchEvents, EvictAll;
    if log != [] {
      var front, last := log[..|log| - 1], log[|log| - 1];
      ReplayIsRun(s, front);
      BatchIsRun(Replay(s, front), last.batch, last.now, last.sweep);
      RunConcat(s, ReplayEvents(front), BatchEvents(last.batch, last.now) + EvictAll(last.sweep));
    }
  }
}
