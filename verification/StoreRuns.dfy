/**
 What holds over every run of the store, from a new store through any mix of arrivals, overwrites,
 evictions and resurrections.
 */
module StoreRuns {
  import opened Types
  import opened Interners
  import opened Rows
  import opened Sums
  import opened StoreModel

  // History functions: what a run contains, read off its events -------------------------------------

  function Evictions(es: seq<Event>, id: TraceId): nat {
    if es == [] then 0 else
      Evictions(es[..|es| - 1], id) + if es[|es| - 1] == Evict(id) then 1 else 0
  }

  function ArrivedIn(es: seq<Event>): nat {
    if es == [] then 0 else
      ArrivedIn(es[..|es| - 1]) + if es[|es| - 1].Insert? then 1 else 0
  }

  function MalformedIn(es: seq<Event>): nat {
    if es == [] then 0 else
      MalformedIn(es[..|es| - 1]) + if es[|es| - 1].Malformed? then es[|es| - 1].count else 0
  }

  // Spans that left the store because their trace was evicted.
  ghost function Departed(s: StoreState, es: seq<Event>): nat {
    if es == [] then 0 else
      var front, last := es[..|es| - 1], es[|es| - 1];
      var before := Run(s, front).traces;
      Departed(s, front)
      + if last.Evict? && last.traceId in before then |before[last.traceId].rows| else 0
  }

  lemma {:induction false} EvictionsConcat(a: seq<Event>, b: seq<Event>, id: TraceId)
    ensures Evictions(a + b, id) == Evictions(a, id) + Evictions(b, id)
  {
    if b == [] {
      assert a + b == a;
    } else {
      var front := b[..|b| - 1];
      assert (a + b)[..|a + b| - 1] == a + front;
      EvictionsConcat(a, front, id);
    }
  }

  // Eviction bookkeeping ---------------------------------------------------------------------------

  // The generation of a resident trace counts the evictions of its id, modulo 2^32; an id that is
  // remembered as evicted carries the generation its last resident trace had.
  ghost predicate GenerationsCount(s: StoreState, es: seq<Event>, id: TraceId) {
    var n := Evictions(es, id);
    && (id in s.traces ==> s.traces[id].generation == AsU32(n))
    && (id in s.evicted ==> n > 0 && s.evicted[id] == AsU32(n - 1))
    && (id !in s.traces && id !in s.evicted ==> n == 0)
  }

  lemma GenerationsStep(s: StoreState, es: seq<Event>, e: Event, id: TraceId)
    requires Consistent(s) && Enabled(s, e)
    requires GenerationsCount(s, es, id)
    ensures GenerationsCount(Apply(s, e), es + [e], id)
  {
    hide PutRow, NewRow, AdmitKeys, AdmitService, TraceOk, Sound, MustEvict, TotalBytes;
    assert (es + [e])[..|es|] == es;
    if id in s.evicted {
      TruncatedSum(Evictions(es, id) - 1, 1);
    }
  }

  lemma {:induction false} GenerationsRun(budget: nat, cap: nat, es: seq<Event>, id: TraceId)
    requires ValidRun(NewStore(budget, cap), es)
    ensures GenerationsCount(Run(NewStore(budget, cap), es), es, id)
  {
    if es != [] {
      var front, last := es[..|es| - 1], es[|es| - 1];
      GenerationsRun(budget, cap, front, id);
      ConsistentRun(NewStore(budget, cap), front);
      GenerationsStep(Run(NewStore(budget, cap), front), front, last, id);
      assert es == front + [last];
    }
  }

  // Every eviction is either still remembered or was undone by exactly one late arrival.
  ghost predicate EvictionsBalance(s: StoreState) {
    s.counters.evictedTraces == s.counters.lateSpanAfterEviction + |s.evicted|
  }

  lemma EvictionsBalanceStep(s: StoreState, e: Event)
    requires Consistent(s) && Enabled(s, e)
    requires EvictionsBalance(s)
    ensures EvictionsBalance(Apply(s, e))
  {
    if e.Insert? && IsLate(s, e.traceId) {
      var m := s.evicted - {e.traceId};
      assert m.Keys == s.evicted.Keys - {e.traceId};
      assert |s.evicted| == |s.evicted.Keys| && |m| == |m.Keys|;
    } else if e.Insert? && e.traceId !in s.traces {
      assert s.evicted - {e.traceId} == s.evicted;
    } else if e.Evict? {
      var m := s.evicted[e.traceId := s.traces[e.traceId].generation];
      assert m.Keys == s.evicted.Keys + {e.traceId};
      assert |s.evicted| == |s.evicted.Keys| && |m| == |m.Keys|;
    }
  }

  /** Eviction conservation, in every reachable state. */
  lemma {:induction false} EvictionConservation(budget: nat, cap: nat, es: seq<Event>)
    requires ValidRun(NewStore(budget, cap), es)
    ensures
      var s := Run(NewStore(budget, cap), es);
      && s.traces.Keys !! s.evicted.Keys
      && s.counters.evictedTraces == s.counters.lateSpanAfterEviction + |s.evicted|
      && forall id :: GenerationsCount(s, es, id)
  {
    var s0 := NewStore(budget, cap);
    ConsistentRun(s0, es);
    forall id ensures GenerationsCount(Run(s0, es), es, id) {
      GenerationsRun(budget, cap, es, id);
    }
    if es != [] {
      var front := es[..|es| - 1];
      ConsistentRun(s0, front);
      EvictionConservation(budget, cap, front);
      EvictionsBalanceStep(Run(s0, front), es[|es| - 1]);
    }
  }

  // Generation safety ------------------------------------------------------------------------------

  // `later` holds every span of `earlier` in the same slot, with the same first-declared parent.
  ghost predicate KeepsSlots(earlier: seq<Row>, later: seq<Row>) {
    && |earlier| <= |later|
    && forall i | 0 <= i < |earlier| ::
         later[i].spanId == earlier[i].spanId && later[i].parent == earlier[i].parent
  }

  lemma {:induction false} SlotsKeptWithoutEviction(s: StoreState, es: seq<Event>, id: TraceId)
    requires id in s.traces
    requires Evictions(es, id) == 0
    ensures id in Run(s, es).traces
    ensures Run(s, es).traces[id].generation == s.traces[id].generation
    ensures KeepsSlots(s.traces[id].rows, Run(s, es).traces[id].rows)
  {
    if es != [] {
      SlotsKeptWithoutEviction(s, es[..|es| - 1], id);
    }
  }

  lemma GenerationsAcross(budget: nat, cap: nat, a: seq<Event>, b: seq<Event>, id: TraceId)
    requires ValidRun(NewStore(budget, cap), a + b)
    requires
      && id in Run(NewStore(budget, cap), a).traces
      && id in Run(NewStore(budget, cap), a + b).traces
    ensures Run(NewStore(budget, cap), a).traces[id].generation
            == Run(NewStore(budget, cap), a + b).traces[id].generation
            <==> AsU32(Evictions(b, id)) == 0
  {
    hide Run, ValidRun, Evictions, NewStore, AsU32;
    RunConcat(NewStore(budget, cap), a, b);
    GenerationsRun(budget, cap, a, id);
    GenerationsRun(budget, cap, a + b, id);
    EvictionsConcat(a, b, id);
    SameRemainder(Evictions(a, id), Evictions(b, id));
  }

  /**
   A reference (trace id, slot, generation) taken after the events `a` and followed after `a + b`:
   the generations agree exactly when the number of evictions in between is a multiple of 2^32,
   and while it stays below 2^32 agreeing generations mean every slot still holds the same span.
   */
  lemma GenerationSafety(budget: nat, cap: nat, a: seq<Event>, b: seq<Event>, id: TraceId)
    requires ValidRun(NewStore(budget, cap), a + b)
    requires
      && id in Run(NewStore(budget, cap), a).traces
      && id in Run(NewStore(budget, cap), a + b).traces
    ensures
      var earlier := Run(NewStore(budget, cap), a).traces[id];
      var later := Run(NewStore(budget, cap), a + b).traces[id];
      && (earlier.generation == later.generation <==> AsU32(Evictions(b, id)) == 0)
      && (earlier.generation == later.generation && Evictions(b, id) < U32_LIMIT
          ==> KeepsSlots(earlier.rows, later.rows))
  {
    hide Run, ValidRun, Evictions, NewStore;
    var s0 := NewStore(budget, cap);
    GenerationsAcross(budget, cap, a, b, id);
    if Evictions(b, id) == 0 {
      RunConcat(s0, a, b);
      SlotsKeptWithoutEviction(Run(s0, a), b, id);
    }
  }

  lemma SameRemainder(x: nat, delta: nat)
    ensures AsU32(x + delta) == AsU32(x) <==> AsU32(delta) == 0
  {
    TruncatedSum(x, delta);
    TruncatedSum(delta, AsU32(x));
  }

  // Span accounting --------------------------------------------------------------------------------

  lemma InsertCounts(s: StoreState, id: TraceId, span: NewSpan, now: nat)
    requires Consistent(s)
    ensures
      var s' := InsertSpan(s, id, span, now);
      ResidentSpans(s'.traces) + s'.counters.duplicateSpan == ResidentSpans(s.traces) + s.counters.duplicateSpan + 1
  {
    var s' := InsertSpan(s, id, span, now);
    TotalUpdate(SpanCounts(s.traces), SpanCounts(s'.traces), id);
    assert SpanCounts(s.traces).Keys == s.traces.Keys && SpanCounts(s'.traces).Keys == s'.traces.Keys;
  }

  lemma EvictCounts(s: StoreState, id: TraceId)
    requires id in s.traces
    ensures ResidentSpans(EvictTrace(s, id).traces) + |s.traces[id].rows| == ResidentSpans(s.traces)
  {
    var s' := EvictTrace(s, id);
    TotalRemove(SpanCounts(s.traces), id);
    assert SpanCounts(s'.traces) == SpanCounts(s.traces) - {id};
    assert SpanCounts(s.traces).Keys == s.traces.Keys && SpanCounts(s'.traces).Keys == s'.traces.Keys;
  }

  /** No span is lost uncounted: every arrival is a duplicate, resident, or left with its trace. */
  lemma {:induction false} SpanAccounting(budget: nat, cap: nat, es: seq<Event>)
    requires ValidRun(NewStore(budget, cap), es)
    ensures
      var s0 := NewStore(budget, cap);
      var s := Run(s0, es);
      && ArrivedIn(es) == s.counters.duplicateSpan + ResidentSpans(s.traces) + Departed(s0, es)
      && s.counters.malformedSpan == MalformedIn(es)
  {
    if es != [] {
      var s0 := NewStore(budget, cap);
      var front, last := es[..|es| - 1], es[|es| - 1];
      var before := Run(s0, front);
      SpanAccounting(budget, cap, front);
      ConsistentRun(s0, front);
      match last {
        case Insert(id, span, now) => InsertCounts(before, id, span, now);
        case Malformed(_) =>
        case Evict(id) => EvictCounts(before, id);
      }
    }
  }

  // Attributes that were dropped on arrival because their key was refused.
  ghost function DroppedAttributes(s: StoreState, es: seq<Event>): nat {
    if es == [] then 0 else
      var front, last := es[..|es| - 1], es[|es| - 1];
      DroppedAttributes(s, front)
      + if last.Insert? then Refused(Run(s, front).keys, last.span.attributes) else 0
  }

  ghost function Refused(keys: Table, attrs: seq<Attribute>): nat {
    EncodeInRange(AdmitKeys(keys, attrs), attrs);
    |attrs| - |Encode(AdmitKeys(keys, attrs), attrs)|
  }

  /** The cap-hit counter is exactly the number of attributes ever dropped. */
  lemma {:induction false} CapHitsAreDroppedAttributes(budget: nat, cap: nat, es: seq<Event>)
    ensures
      var s := Run(NewStore(budget, cap), es);
      s.counters.attributeKeyCapHit == s.keys.refusals == DroppedAttributes(NewStore(budget, cap), es)
  {
    if es != [] {
      var s0 := NewStore(budget, cap);
      var front, last := es[..|es| - 1], es[|es| - 1];
      CapHitsAreDroppedAttributes(budget, cap, front);
      ConsistentRun(s0, front);
      if last.Insert? {
        DroppedAreCounted(Run(s0, front).keys, last.span.attributes);
      }
    }
  }

  // Interned ids -----------------------------------------------------------------------------------

  lemma {:induction false} TablesGrow(s: StoreState, es: seq<Event>)
    requires Consistent(s)
    ensures Grows(s.keys, Run(s, es).keys)
    ensures Grows(s.services, Run(s, es).services)
  {
    if es != [] {
      TablesGrow(s, es[..|es| - 1]);
    }
  }

  /**
   Interned ids never dangle or change meaning: each table stays within its cap and free of
   repeats, an id given after `i` events names the same string after `j`, and every id any
   resident span holds is in range.
   */
  lemma InternedIdsAreStable(budget: nat, cap: nat, es: seq<Event>, i: nat, j: nat, name: string)
    requires i <= j <= |es|
    ensures
      var earlier := Run(NewStore(budget, cap), es[..i]);
      var later := Run(NewStore(budget, cap), es[..j]);
      && |later.keys.strings| <= later.keys.cap == cap && NoRepeats(later.keys.strings)
      && |later.services.strings| <= later.services.cap == cap && NoRepeats(later.services.strings)
      && (name in earlier.keys.strings ==> IdOf(later.keys, name) == IdOf(earlier.keys, name))
      && (name in earlier.services.strings ==> IdOf(later.services, name) == IdOf(earlier.services, name))
      && forall id, k | id in later.traces && 0 <= k < |later.traces[id].rows| ::
           IdsInRange(later, later.traces[id].rows[k])
  {
    var s0 := NewStore(budget, cap);
    var earlier, later := Run(s0, es[..i]), Run(s0, es[..j]);
    ConsistentRun(s0, es[..i]);
    ConsistentRun(s0, es[..j]);
    assert es[..j] == es[..i] + es[i..j];
    RunConcat(s0, es[..i], es[i..j]);
    TablesGrow(earlier, es[i..j]);
    TablesGrow(s0, es[..j]);
    if name in earlier.keys.strings {
      IdStable(earlier.keys, later.keys, name);
    }
    if name in earlier.services.strings {
      IdStable(earlier.services, later.services, name);
    }
  }

  /** A key refused on arrival is refused forever after. */
  lemma RefusedKeyStaysRefused(budget: nat, cap: nat, es: seq<Event>, i: nat, j: nat, k: nat)
    requires i < j <= |es|
    requires es[i].Insert? && k < |es[i].span.attributes|
    requires es[i].span.attributes[k].0 !in Run(NewStore(budget, cap), es[..i + 1]).keys.strings
    ensures es[i].span.attributes[k].0 !in Run(NewStore(budget, cap), es[..j]).keys.strings
  {
    var s0, attrs := NewStore(budget, cap), es[i].span.attributes;
    var before, after := Run(s0, es[..i]), Run(s0, es[..i + 1]);
    ConsistentRun(s0, es[..i]);
    ConsistentRun(s0, es[..i + 1]);
    assert es[..i + 1][..i] == es[..i];
    AdmitKeysSettles(before.keys, attrs);
    assert Settled(after.keys, attrs[k].0);
    assert es[..j] == es[..i + 1] + es[i + 1..j];
    RunConcat(s0, es[..i + 1], es[i + 1..j]);
    TablesGrow(after, es[i + 1..j]);
    IdStable(after.keys, Run(s0, es[..j]).keys, attrs[k].0);
  }
}
