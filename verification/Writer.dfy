/** The single writer: applies each batch it receives to the store, sweeps once, then bumps the sequence number. */
module Writers {
  import opened Types
  import opened Csr
  import opened StoreModel
  import opened Sweeps
  import opened Arrivals
  import opened Batches
  import opened Stores

  function AttributesIn(spans: seq<TracedSpan>): nat {
    if spans == [] then 0 else |spans[0].1.attributes| + AttributesIn(spans[1..])
  }

  function AttributesInAll(batches: seq<SpanBatch>): nat {
    if batches == [] then 0 else AttributesIn(batches[0].spans) + AttributesInAll(batches[1..])
  }

  lemma StampSnoc(s: StoreState, spans: seq<TracedSpan>, now: nat, i: nat)
    requires i < |spans|
    ensures Inserted(s, Stamp(spans[..i + 1], now))
         == StoreModel.InsertSpan(Inserted(s, Stamp(spans[..i], now)), spans[i].0, spans[i].1, now)
  {
    var log := Stamp(spans[..i + 1], now);
    InsertedSnoc(s, log);
    assert log[..i] == Stamp(spans[..i], now);
  }

  // Dense arrays only get longer by the attributes that land in them, and shorter by eviction.
  lemma {:induction false} RoomAfterBatch(s: StoreState, spans: seq<TracedSpan>, now: nat, n: nat, i: nat)
    requires i <= |spans|
    requires AllHaveRoom(s, AttributesIn(spans) + n)
    ensures AllHaveRoom(Inserted(s, Stamp(spans[..i], now)), AttributesIn(spans[i..]) + n)
  {
    hide AllHaveRoom, Inserted, StoreModel.InsertSpan;
    if i == 0 {
      assert Stamp(spans[..0], now) == [];
      InsertedNone(s);
      assert spans[0..] == spans;
    } else {
      RoomAfterBatch(s, spans, now, n, i - 1);
      StampSnoc(s, spans, now, i - 1);
      assert spans[i - 1..][1..] == spans[i..];
      var before, last := Inserted(s, Stamp(spans[..i - 1], now)), spans[i - 1];
      RoomAfterInsert(before, last.0, last.1, now, AttributesIn(spans[i..]) + n);
    }
  }

  lemma SameRoom(s: StoreState, s': StoreState, n: nat)
    requires s'.traces == s.traces && AllHaveRoom(s, n)
    ensures AllHaveRoom(s', n)
  {
  }

  lemma RoomAfterEvictions(s: StoreState, ids: seq<TraceId>, n: nat)
    requires LegalEvictions(s, ids) && AllHaveRoom(s, n)
    ensures AllHaveRoom(After(s, ids), n)
  {
    hide After, LegalEvictions, Flat;
    EvictionsLeave(s, ids);
  }

  lemma RoomAfterApply(s: StoreState, batch: SpanBatch, now: nat, ids: seq<TraceId>, n: nat)
    requires Sweepable(s, batch, now, ids)
    requires AllHaveRoom(s, AttributesIn(batch.spans) + n)
    ensures AllHaveRoom(ApplyBatch(s, batch, now, ids), n)
  {
    hide AllHaveRoom, Inserted, Landed, After, LegalEvictions;
    RoomAfterBatch(s, batch.spans, now, n, |batch.spans|);
    assert batch.spans[..|batch.spans|] == batch.spans && batch.spans[|batch.spans|..] == [];
    LandedIsInserted(s, batch, now);
    SameRoom(Inserted(s, Stamp(batch.spans, now)), Landed(s, batch, now), n);
    RoomAfterEvictions(Landed(s, batch, now), ids, n);
  }

  // No moment of the batch leaves a trace with 2^32 attributes.
  ghost predicate BatchFits(s: StoreState, spans: seq<TracedSpan>, now: nat) {
    forall i | 0 <= i <= |spans| :: Readable(Inserted(s, Stamp(spans[..i], now)))
  }

  // No batch ever does, whatever ties the sweeps in between have to break.
  ghost predicate NeverFull(s: StoreState, batches: seq<SpanBatch>, clock: seq<nat>)
    requires |clock| == |batches|
    decreases |batches|
  {
    batches == [] ||
    (&& BatchFits(s, batches[0].spans, clock[0])
     && forall ids | Sweepable(s, batches[0], clock[0], ids) ::
          NeverFull(ApplyBatch(s, batches[0], clock[0], ids), batches[1..], clock[1..]))
  }

  /** Enough to know: every trace has room for all the attributes the batches offer together. */
  lemma {:induction false} RoomIsEnough(s: StoreState, batches: seq<SpanBatch>, clock: seq<nat>)
    requires |clock| == |batches|
    requires AllHaveRoom(s, AttributesInAll(batches))
    ensures NeverFull(s, batches, clock)
    decreases |batches|
  {
    hide AllHaveRoom, ApplyBatch, Sweepable, Inserted, Readable;
    if batches != [] {
      var first, rest := batches[0], AttributesInAll(batches[1..]);
      forall i | 0 <= i <= |first.spans| ensures Readable(Inserted(s, Stamp(first.spans[..i], clock[0]))) {
        RoomAfterBatch(s, first.spans, clock[0], rest, i);
        RoomIsReadable(Inserted(s, Stamp(first.spans[..i], clock[0])), AttributesIn(first.spans[i..]) + rest);
      }
      forall ids | Sweepable(s, first, clock[0], ids)
        ensures NeverFull(ApplyBatch(s, first, clock[0], ids), batches[1..], clock[1..])
      {
        RoomAfterApply(s, first, clock[0], ids, rest);
        RoomIsEnough(ApplyBatch(s, first, clock[0], ids), batches[1..], clock[1..]);
      }
    }
  }

  lemma RoomIsReadable(s: StoreState, n: nat)
    requires AllHaveRoom(s, n)
    ensures Readable(s)
  {
  }

  class Writer {
    const store: Store
    var sequence: nat

    constructor (store: Store)
      ensures this.store == store && sequence == 0
    {
      this.store := store;
      sequence := 0;
    }

    // One write-locked section: the whole batch lands, then one sweep.
    method ApplyBatch(batch: SpanBatch, now: nat) returns (ghost ids: seq<TraceId>)
      requires store.Valid()
      requires BatchFits(store.State(), batch.spans, now)
      modifies store, store.traces.Values, store.keyInterner, store.serviceInterner
      ensures store.Valid()
      ensures fresh(store.traces.Values - old(store.traces.Values))
      ensures Sweepable(old(store.State()), batch, now, ids)
      ensures store.State() == Batches.ApplyBatch(old(store.State()), batch, now, ids)
    {
      hide Store.Valid, Store.State, Inserted, StoreModel.InsertSpan, After, LegalEvictions, Landed, MustEvict;
      ghost var s := store.State();
      InsertBatch(batch.spans, now);
      LandedIsInserted(s, batch, now);
      store.CountMalformed(batch.malformedSpanCount);
      ids := store.EvictOverBudget();
    }

    method InsertBatch(spans: seq<TracedSpan>, now: nat)
      requires store.Valid()
      requires BatchFits(store.State(), spans, now)
      modifies store, store.traces.Values, store.keyInterner, store.serviceInterner
      ensures store.Valid()
      ensures fresh(store.traces.Values - old(store.traces.Values))
      ensures store.State() == Inserted(old(store.State()), Stamp(spans, now))
    {
      hide Store.Valid, Store.State, Inserted, StoreModel.InsertSpan, Readable;
      ghost var s := store.State();
      InsertedNone(s);
      assert Stamp(spans[..0], now) == [];
      for i := 0 to |spans|
        invariant store.Valid()
        invariant fresh(store.traces.Values - old(store.traces.Values))
        invariant store.State() == Inserted(s, Stamp(spans[..i], now))
      {
        StampSnoc(s, spans, now, i);
        var localIdx, isDuplicate, resurrected := store.InsertSpanNoEvict(spans[i].0, spans[i].1, now);
      }
      assert spans[..|spans|] == spans;
    }

    // The writer's loop over the batches it receives, in order; `clock` is what it reads at each.
    method Run(batches: seq<SpanBatch>, clock: seq<nat>) returns (ghost log: seq<Applied>)
      requires store.Valid()
      requires |clock| == |batches|
      requires NeverFull(store.State(), batches, clock)
      modifies this, store, store.traces.Values, store.keyInterner, store.serviceInterner
      ensures store.Valid()
      ensures sequence == old(sequence) + |batches|
      ensures |log| == |batches|
      ensures forall i | 0 <= i < |log| :: log[i].batch == batches[i] && log[i].now == clock[i]
      ensures Replayable(old(store.State()), log)
      ensures store.State() == Replay(old(store.State()), log)
    {
      hide Store.Valid, Store.State, Batches.ApplyBatch, Sweepable, BatchFits;
      log := [];
      ghost var s := store.State();
      for i := 0 to |batches|
        invariant store.Valid()
        invariant fresh(store.traces.Values - old(store.traces.Values))
        invariant sequence == old(sequence) + i
        invariant |log| == i
        invariant forall k | 0 <= k < i :: log[k].batch == batches[k] && log[k].now == clock[k]
        invariant Replayable(s, log)
        invariant store.State() == Replay(s, log)
        invariant NeverFull(store.State(), batches[i..], clock[i..])
      {
        assert batches[i..][1..] == batches[i + 1..] && clock[i..][1..] == clock[i + 1..];
        var ids := ApplyBatch(batches[i], clock[i]);
        log := log + [Applied(batches[i], clock[i], ids)];
        assert log[..i] == log[..|log| - 1];
        sequence := sequence + 1;
      }
    }
  }
}
