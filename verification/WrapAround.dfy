/**
 Where generations stop protecting references: a `u32` generation returns to its old value after
 2^32 evictions, and the slot may then hold another span. The run that does it alternates two
 traces in a store with no room for both.
 */
module WrapAround {
  import opened Types
  import opened Rows
  import opened Sums
  import opened StoreModel
  import opened StoreRuns

  function Plain(id: SpanId): NewSpan {
    NewSpan(id, None, "", 0, 0, "", 0, true, None, [])
  }

  const FIRST := TraceId([1, 1, 1, 1, 1, 1, 1, 1, 1, 1, 1, 1, 1, 1, 1, 1])
  const SECOND := TraceId([2, 2, 2, 2, 2, 2, 2, 2, 2, 2, 2, 2, 2, 2, 2, 2])
  const BEFORE := SpanId([1, 1, 1, 1, 1, 1, 1, 1])
  const AFTERWARDS := SpanId([2, 2, 2, 2, 2, 2, 2, 2])

  // Only the first trace is resident, holding the one span `x`, last active at `t`.
  ghost predicate Alone(s: StoreState, id: TraceId, x: SpanId, t: nat) {
    && s.budget == 0
    && s.traces.Keys == {id}
    && |s.traces[id].rows| == 1
    && s.traces[id].rows[0].spanId == x
    && s.traces[id].lastActivity == t
  }

  // Another trace pushes the resident one out.
  function Displace(incoming: TraceId, resident: TraceId, now: nat): seq<Event> {
    [Insert(incoming, Plain(AFTERWARDS), now), Evict(resident)]
  }

  lemma TwoDoNotFit(s: StoreState, a: TraceId, b: TraceId)
    requires a != b && s.traces.Keys == {a, b} && s.budget == 0
    requires |s.traces[a].rows| == 1
    ensures MustEvict(s)
  {
    TotalSplit(s.traces.Keys, Sizes(s.traces), a);
    var rows := s.traces[a].rows;
    assert rows[..0] == [];
    assert RowsBytes(rows) == RowsBytes(rows[..0]) + RowBytes(rows[0]);
    assert |s.traces| == |s.traces.Keys| == |{a, b}|;
  }

  lemma Displaces(s: StoreState, resident: TraceId, incoming: TraceId, x: SpanId, t: nat)
    requires Alone(s, resident, x, t) && incoming != resident
    ensures ValidRun(s, Displace(incoming, resident, t + 1))
    ensures Alone(Run(s, Displace(incoming, resident, t + 1)), incoming, AFTERWARDS, t + 1)
  {
    hide Run, ValidRun, MustEvict;
    var mid := InsertSpan(s, incoming, Plain(AFTERWARDS), t + 1);
    TwoEvents(s, Insert(incoming, Plain(AFTERWARDS), t + 1), Evict(resident));
    TwoDoNotFit(mid, resident, incoming);
  }

  lemma TwoEvents(s: StoreState, first: Event, second: Event)
    ensures Run(s, [first, second]) == Apply(Apply(s, first), second)
    ensures ValidRun(s, [first, second]) <==> Enabled(s, first) && Enabled(Apply(s, first), second)
  {
    var es := [first, second];
    assert es[..1] == [first] && [first][..0] == [];
    NothingHappens(s);
    assert Run(s, [first]) == Apply(s, first);
    assert ValidRun(s, [first]) <==> Enabled(s, first);
  }

  // The first trace leaves and comes back `n` times.
  function Swings(n: nat): seq<Event> {
    if n == 0 then [] else
      Swings(n - 1) + Displace(SECOND, FIRST, 2 * n - 1) + Displace(FIRST, SECOND, 2 * n)
  }

  lemma {:induction false} SwingsRun(s: StoreState, n: nat)
    requires Alone(s, FIRST, BEFORE, 0)
    ensures ValidRun(s, Swings(n))
    ensures Alone(Run(s, Swings(n)), FIRST, if n == 0 then BEFORE else AFTERWARDS, 2 * n)
    ensures Evictions(Swings(n), FIRST) == n
  {
    hide Alone, ValidRun, Run, Displace, Evictions;
    if n == 0 {
      NothingHappens(s);
    } else {
      SwingsRun(s, n - 1);
      var away, back := Displace(SECOND, FIRST, 2 * n - 1), Displace(FIRST, SECOND, 2 * n);
      var s1 := Run(s, Swings(n - 1));
      Displaces(s1, FIRST, SECOND, if n == 1 then BEFORE else AFTERWARDS, 2 * n - 2);
      Displaces(Run(s1, away), SECOND, FIRST, AFTERWARDS, 2 * n - 1);
      RunConcat(s, Swings(n - 1), away);
      RunConcat(s, Swings(n - 1) + away, back);
      EvictionsConcat(Swings(n - 1), away, FIRST);
      EvictionsConcat(Swings(n - 1) + away, back, FIRST);
      OneEviction(SECOND, FIRST, 2 * n - 1, FIRST);
      OneEviction(FIRST, SECOND, 2 * n, FIRST);
      assert FIRST.bytes[0] != SECOND.bytes[0];
    }
  }

  lemma NothingHappens(s: StoreState)
    ensures ValidRun(s, []) && Run(s, []) == s
    ensures Evictions([], FIRST) == 0
  {
  }

  lemma OneEviction(incoming: TraceId, resident: TraceId, t: nat, id: TraceId)
    ensures Evictions(Displace(incoming, resident, t), id) == if id == resident then 1 else 0
  {
    var es := Displace(incoming, resident, t);
    assert es[..1] == [es[0]];
    assert [es[0]][..0] == [];
    assert Evictions([es[0]], id) == Evictions([], id);
  }

  /** Without the bound on evictions, agreeing generations do not mean the same span. */
  lemma GenerationsWrap(cap: nat) returns (a: seq<Event>, b: seq<Event>)
    ensures ValidRun(NewStore(0, cap), a + b)
    ensures
      var earlier, later := Run(NewStore(0, cap), a), Run(NewStore(0, cap), a + b);
      && FIRST in earlier.traces && FIRST in later.traces
      && earlier.traces[FIRST].generation == later.traces[FIRST].generation
      && !KeepsSlots(earlier.traces[FIRST].rows, later.traces[FIRST].rows)
      && Evictions(b, FIRST) == U32_LIMIT
  {
    hide Run, ValidRun, Evictions, NewStore;
    var s0 := NewStore(0, cap);
    a, b := [Insert(FIRST, Plain(BEFORE), 0)], Swings(U32_LIMIT);
    FirstArrives(cap);
    SwingsRun(Run(s0, a), U32_LIMIT);
    RunConcat(s0, a, b);
    GenerationsAcross(0, cap, a, b, FIRST);
    assert AsU32(U32_LIMIT) == 0;
    assert BEFORE.bytes[0] != AFTERWARDS.bytes[0];
  }

  lemma FirstArrives(cap: nat)
    ensures
      var a := [Insert(FIRST, Plain(BEFORE), 0)];
      ValidRun(NewStore(0, cap), a) && Alone(Run(NewStore(0, cap), a), FIRST, BEFORE, 0)
  {
    var s0, a := NewStore(0, cap), [Insert(FIRST, Plain(BEFORE), 0)];
    assert a[..0] == [];
    NothingHappens(s0);
    assert Run(s0, a) == Apply(s0, a[0]);
  }

  // A reference to a slot of trace `id`, taken after `a` and followed after `a + b`: if the
  // generation still agrees, the slot still holds the same span.
  ghost predicate SafeReference(budget: nat, cap: nat, a: seq<Event>, b: seq<Event>, id: TraceId) {
    var earlier, later := Run(NewStore(budget, cap), a), Run(NewStore(budget, cap), a + b);
    && ValidRun(NewStore(budget, cap), a + b)
    && id in earlier.traces && id in later.traces
    && earlier.traces[id].generation == later.traces[id].generation
    ==> KeepsSlots(earlier.traces[id].rows, later.traces[id].rows)
  }

  /**
   Exactly when generations protect references: allowing up to `bound` evictions of a trace
   between taking a reference and following it is safe in every run if and only if `bound` is
   below 2^32.
   */
  lemma ReferencesSafeIffBelowWrap(bound: nat)
    ensures (forall budget, cap, a, b, id | Evictions(b, id) <= bound :: SafeReference(budget, cap, a, b, id))
            <==> bound < U32_LIMIT
  {
    hide Run, ValidRun, Evictions, NewStore, KeepsSlots;
    if bound < U32_LIMIT {
      forall budget, cap, a, b, id | Evictions(b, id) <= bound
        ensures SafeReference(budget, cap, a, b, id)
      {
        var earlier, later := Run(NewStore(budget, cap), a), Run(NewStore(budget, cap), a + b);
        if ValidRun(NewStore(budget, cap), a + b) && id in earlier.traces && id in later.traces {
          GenerationSafety(budget, cap, a, b, id);
        }
      }
    } else {
      var a, b := GenerationsWrap(0);
      assert Evictions(b, FIRST) <= bound;
      assert !SafeReference(0, 0, a, b, FIRST);
    }
  }
}
