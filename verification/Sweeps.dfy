/**
 The eviction sweep: while the store is over budget and holds more than one trace, the trace with
 the oldest activity goes. A sweep is the list of ids evicted, in order.
 */
module Sweeps {
  import opened Types
  import opened Rows
  import opened Sums
  import opened StoreModel

  function EvictAll(ids: seq<TraceId>): seq<Event> {
    seq(|ids|, i requires 0 <= i < |ids| => Evict(ids[i]))
  }

  ghost function After(s: StoreState, ids: seq<TraceId>): StoreState {
    Run(s, EvictAll(ids))
  }

  ghost predicate LegalEvictions(s: StoreState, ids: seq<TraceId>) {
    ValidRun(s, EvictAll(ids))
  }

  ghost predicate IsSweep(s: StoreState, ids: seq<TraceId>) {
    LegalEvictions(s, ids) && !MustEvict(After(s, ids))
  }

  lemma NoEvictions(s: StoreState)
    ensures LegalEvictions(s, [])
    ensures After(s, []) == s
  {
    assert EvictAll([]) == [];
  }

  lemma EvictionsSnoc(s: StoreState, ids: seq<TraceId>, id: TraceId)
    ensures After(s, ids + [id]) == EvictTrace(After(s, ids), id)
    ensures LegalEvictions(s, ids + [id]) <==> LegalEvictions(s, ids) && Enabled(After(s, ids), Evict(id))
  {
    assert EvictAll(ids + [id]) == EvictAll(ids) + [Evict(id)];
    assert (EvictAll(ids) + [Evict(id)])[..|ids|] == EvictAll(ids);
  }

  lemma EvictionsConcat(s: StoreState, a: seq<TraceId>, b: seq<TraceId>)
    ensures After(s, a + b) == After(After(s, a), b)
    ensures LegalEvictions(s, a + b) <==> LegalEvictions(s, a) && LegalEvictions(After(s, a), b)
  {
    assert EvictAll(a + b) == EvictAll(a) + EvictAll(b);
    RunConcat(s, EvictAll(a), EvictAll(b));
  }

  lemma EvictionsCons(s: StoreState, ids: seq<TraceId>)
    requires ids != []
    ensures After(s, ids) == After(EvictTrace(s, ids[0]), ids[1..])
    ensures LegalEvictions(s, ids)
            <==> Enabled(s, Evict(ids[0])) && LegalEvictions(EvictTrace(s, ids[0]), ids[1..])
  {
    NoEvictions(s);
    EvictionsSnoc(s, [], ids[0]);
    assert [] + [ids[0]] == [ids[0]];
    assert ids == [ids[0]] + ids[1..];
    EvictionsConcat(s, [ids[0]], ids[1..]);
  }

  // What a run of evictions leaves -------------------------------------------------------------------

  ghost predicate Remains(s: StoreState, s': StoreState, ids: seq<TraceId>) {
    && s'.budget == s.budget
    && (forall i | 0 <= i < |ids| :: ids[i] in s.traces && ids[i] !in s'.traces)
    && (forall id | id in s'.traces :: id in s.traces && s'.traces[id] == s.traces[id])
    && (forall id | id in s.traces && id !in s'.traces :: id in ids)
  }

  ghost predicate EvictedIsOlder(s: StoreState, s': StoreState, ids: seq<TraceId>)
    requires Remains(s, s', ids)
  {
    forall i, kept | 0 <= i < |ids| && kept in s'.traces ::
      s.traces[ids[i]].lastActivity <= s'.traces[kept].lastActivity
  }

  lemma {:induction false} EvictionsLeave(s: StoreState, ids: seq<TraceId>)
    requires LegalEvictions(s, ids)
    ensures Remains(s, After(s, ids), ids)
    ensures EvictedIsOlder(s, After(s, ids), ids)
  {
    hide After, LegalEvictions, Remains, EvictedIsOlder, IsOldest, EvictTrace, MustEvict;
    if ids == [] {
      NoEvictions(s);
      NothingLeaves(s);
    } else {
      var front, last := ids[..|ids| - 1], ids[|ids| - 1];
      assert ids == front + [last];
      EvictionsSnoc(s, front, last);
      EvictionsLeave(s, front);
      OneMoreLeaves(s, After(s, front), front, last);
    }
  }

  lemma NothingLeaves(s: StoreState)
    ensures Remains(s, s, []) && EvictedIsOlder(s, s, [])
  {
  }

  lemma OneMoreLeaves(s: StoreState, mid: StoreState, front: seq<TraceId>, last: TraceId)
    requires Remains(s, mid, front) && EvictedIsOlder(s, mid, front)
    requires IsOldest(mid.traces, last)
    ensures Remains(s, EvictTrace(mid, last), front + [last])
    ensures EvictedIsOlder(s, EvictTrace(mid, last), front + [last])
  {
    var ids := front + [last];
    assert forall i | 0 <= i < |front| :: ids[i] == front[i];
    assert ids[|front|] == last;
    forall id | id in s.traces && id !in EvictTrace(mid, last).traces
      ensures id in ids
    {
      assert id == last || id in front;
    }
  }

  lemma BytesAfterEviction(s: StoreState, id: TraceId)
    requires id in s.traces
    ensures TotalBytes(EvictTrace(s, id).traces) + RowsBytes(s.traces[id].rows) == TotalBytes(s.traces)
  {
    var s' := EvictTrace(s, id);
    TotalRemove(Sizes(s.traces), id);
    assert Sizes(s'.traces) == Sizes(s.traces) - {id};
    assert Sizes(s.traces).Keys == s.traces.Keys && Sizes(s'.traces).Keys == s'.traces.Keys;
  }

  // A most-recent run of traces: with any trace, every trace that is at least as recent.
  ghost predicate RecentRun(traces: map<TraceId, TraceState>, run: set<TraceId>) {
    && run <= traces.Keys
    && forall id, other | id in run && other in traces && traces[id].lastActivity <= traces[other].lastActivity ::
         other in run
  }

  ghost function BytesOf(traces: map<TraceId, TraceState>, run: set<TraceId>): nat
    requires run <= traces.Keys
  {
    Total(run, Sizes(traces))
  }

  // No sweep evicts any part of a most-recent run that fits the budget.
  lemma {:induction false} FittingRunSurvives(s: StoreState, ids: seq<TraceId>, run: set<TraceId>)
    requires LegalEvictions(s, ids)
    requires RecentRun(s.traces, run) && BytesOf(s.traces, run) <= s.budget
    ensures run <= After(s, ids).traces.Keys
  {
    hide After, LegalEvictions;
    if ids == [] {
      NoEvictions(s);
    } else {
      var front, last := ids[..|ids| - 1], ids[|ids| - 1];
      assert ids == front + [last];
      EvictionsSnoc(s, front, last);
      FittingRunSurvives(s, front, run);
      EvictionsLeave(s, front);
      var before := After(s, front);
      if last in run {
        assert before.traces.Keys <= run;
        SmallerBytes(s, before, run);
        assert false;
      }
    }
  }

  lemma SmallerBytes(s: StoreState, before: StoreState, run: set<TraceId>)
    requires before.traces.Keys <= run <= s.traces.Keys
    requires forall id | id in before.traces :: before.traces[id] == s.traces[id]
    ensures TotalBytes(before.traces) <= BytesOf(s.traces, run)
  {
    TotalAgrees(before.traces.Keys, Sizes(before.traces), Sizes(s.traces));
    TotalMonotone(before.traces.Keys, run, Sizes(s.traces));
  }

  /**
   What a sweep achieves. Nothing evicted is newer than anything kept; putting the last evicted
   trace back would break the budget; the result fits, or is a single trace; and no most-recent
   run of traces that fits the budget loses a trace.
   */
  lemma SweepIsOptimal(s: StoreState, ids: seq<TraceId>)
    requires IsSweep(s, ids)
    ensures
      var s' := After(s, ids);
      && Remains(s, s', ids)
      && EvictedIsOlder(s, s', ids)
      && (ids != [] ==> TotalBytes(s'.traces) + RowsBytes(s.traces[ids[|ids| - 1]].rows) > s.budget)
      && (TotalBytes(s'.traces) <= s.budget || |s'.traces| <= 1)
      && forall run | RecentRun(s.traces, run) && BytesOf(s.traces, run) <= s.budget :: run <= s'.traces.Keys
  {
    EvictionsLeave(s, ids);
    if ids != [] {
      var front, last := ids[..|ids| - 1], ids[|ids| - 1];
      assert ids == front + [last];
      EvictionsSnoc(s, front, last);
      EvictionsLeave(s, front);
      BytesAfterEviction(After(s, front), last);
    }
    forall run | RecentRun(s.traces, run) && BytesOf(s.traces, run) <= s.budget
      ensures run <= After(s, ids).traces.Keys
    {
      FittingRunSurvives(s, ids, run);
    }
  }

  ghost predicate DistinctActivity(traces: map<TraceId, TraceState>) {
    forall a, b | a in traces && b in traces && a != b :: traces[a].lastActivity != traces[b].lastActivity
  }

  /**
   With distinct activities the survivors are themselves a most-recent run, so by `SweepIsOptimal`
   they are the longest one that fits; if even the newest trace alone does not fit, they are
   exactly that trace.
   */
  lemma SurvivorsAreLongestRun(s: StoreState, ids: seq<TraceId>, newest: TraceId)
    requires IsSweep(s, ids)
    requires DistinctActivity(s.traces)
    requires newest in s.traces
    requires forall other | other in s.traces :: s.traces[other].lastActivity <= s.traces[newest].lastActivity
    ensures RecentRun(s.traces, After(s, ids).traces.Keys)
    ensures newest in After(s, ids).traces
    ensures RowsBytes(s.traces[newest].rows) > s.budget ==> After(s, ids).traces.Keys == {newest}
  {
    var s' := After(s, ids);
    EvictionsLeave(s, ids);
    NewestSurvives(s, ids, newest);
    forall id, other | && id in s'.traces.Keys && other in s.traces
                       && s.traces[id].lastActivity <= s.traces[other].lastActivity
      ensures other in s'.traces.Keys
    {
      if other !in s'.traces {
        assert false;
      }
    }
    if RowsBytes(s.traces[newest].rows) > s.budget {
      TotalSplit(s'.traces.Keys, Sizes(s'.traces), newest);
      assert |s'.traces| == |s'.traces.Keys| <= 1;
      OnlyMember(s'.traces.Keys, newest);
    }
  }

  lemma OnlyMember<T>(xs: set<T>, x: T)
    requires |xs| <= 1 && x in xs
    ensures xs == {x}
  {
    assert |xs - {x}| == 0;
  }

  // A trace more recent than every other one is never evicted.
  lemma {:induction false} NewestSurvives(s: StoreState, ids: seq<TraceId>, newest: TraceId)
    requires LegalEvictions(s, ids)
    requires newest in s.traces
    requires forall other | other in s.traces && other != newest ::
               s.traces[other].lastActivity < s.traces[newest].lastActivity
    ensures newest in After(s, ids).traces
  {
    hide After, LegalEvictions;
    if ids == [] {
      NoEvictions(s);
    } else {
      var front, last := ids[..|ids| - 1], ids[|ids| - 1];
      assert ids == front + [last];
      EvictionsSnoc(s, front, last);
      NewestSurvives(s, front, newest);
      EvictionsLeave(s, front);
      NewestIsNotOldest(After(s, front), newest);
    }
  }

  lemma NewestIsNotOldest(s: StoreState, newest: TraceId)
    requires newest in s.traces
    requires forall other | other in s.traces && other != newest ::
               s.traces[other].lastActivity < s.traces[newest].lastActivity
    ensures !Enabled(s, Evict(newest))
  {
    if |s.traces| > 1 {
      assert |s.traces.Keys - {newest}| > 0;
      var other :| other in s.traces.Keys - {newest};
      assert s.traces[other].lastActivity < s.traces[newest].lastActivity;
    }
  }

  // The sweep loop always ends, and with distinct activities only one way ---------------------------

  lemma {:induction false} SweepExists(s: StoreState) returns (ids: seq<TraceId>)
    ensures IsSweep(s, ids)
    decreases |s.traces|
  {
    NoEvictions(s);
    if !MustEvict(s) {
      ids := [];
    } else {
      var oldest := OldestExists(s.traces);
      assert |(s.traces - {oldest}).Keys| == |s.traces.Keys - {oldest}|;
      var rest := SweepExists(EvictTrace(s, oldest));
      ids := [oldest] + rest;
      EvictionsCons(s, ids);
      assert ids[1..] == rest;
    }
  }

  lemma {:induction false} OldestExists(traces: map<TraceId, TraceState>) returns (oldest: TraceId)
    requires |traces| > 0
    ensures IsOldest(traces, oldest)
    decreases |traces|
  {
    assert traces.Keys != {};
    var first :| first in traces.Keys;
    var rest := traces - {first};
    assert rest.Keys == traces.Keys - {first};
    oldest := first;
    if |rest| > 0 {
      var other := OldestExists(rest);
      if traces[other].lastActivity < traces[first].lastActivity {
        oldest := other;
      }
      assert forall k | k in traces :: k == first || k in rest;
    } else {
      assert traces.Keys == {first};
    }
  }

  lemma OldestIsUnique(traces: map<TraceId, TraceState>, a: TraceId, b: TraceId)
    requires DistinctActivity(traces) && IsOldest(traces, a) && IsOldest(traces, b)
    ensures a == b
  {
  }

  lemma StillDistinct(s: StoreState, id: TraceId)
    requires DistinctActivity(s.traces)
    ensures DistinctActivity(EvictTrace(s, id).traces)
  {
  }

  lemma {:induction false} SweepIsUnique(s: StoreState, a: seq<TraceId>, b: seq<TraceId>)
    requires DistinctActivity(s.traces)
    requires IsSweep(s, a) && IsSweep(s, b)
    ensures a == b
    decreases |a|
  {
    hide After, LegalEvictions, DistinctActivity, IsOldest, MustEvict, EvictTrace;
    NoEvictions(s);
    if a == [] || b == [] {
      if a != [] { EvictionsCons(s, a); }
      if b != [] { EvictionsCons(s, b); }
    } else {
      EvictionsCons(s, a);
      EvictionsCons(s, b);
      OldestIsUnique(s.traces, a[0], b[0]);
      StillDistinct(s, a[0]);
      SweepIsUnique(EvictTrace(s, a[0]), a[1..], b[1..]);
      assert a == [a[0]] + a[1..] && b == [b[0]] + b[1..];
    }
  }
}
