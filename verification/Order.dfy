/**
 What a reader sees of a span, over every run: the copies of it that arrived since its trace was
 last evicted decide everything, and how they interleave with other arrivals is invisible.
 */
module Order {
  import opened Types
  import opened Interners
  import opened Rows
  import opened Sums
  import opened StoreModel
  import opened StoreRuns
  import opened Arrivals

  datatype SpanView = SpanView(
    name: string,
    startTime: nat,
    endTime: nat,
    statusMessage: string,
    statusCode: int,
    unknownService: bool,
    serviceName: Option<string>,
    attributes: seq<Attribute>,
    parent: Option<SpanId>,
    orphan: bool)

  // What the store shows: keys and service resolved through the tables, the parent through its slot.
  ghost function View(s: StoreState, id: TraceId, spanId: SpanId): Option<SpanView>
    requires Consistent(s)
  {
    if id !in s.traces || SlotOf(s.traces[id].rows, spanId).None? then None else
      var rows := s.traces[id].rows;
      var i := SlotOf(rows, spanId).value;
      var row := rows[i];
      assert IdsInRange(s, row);
      Some(SpanView(
        row.name, row.startTime, row.endTime, row.statusMessage, row.statusCode, row.unknownService,
        DecodeService(s.services, row.serviceId),
        Decode(s.keys, row.attrs),
        if ParentSlot(rows, i).Some? then Some(rows[ParentSlot(rows, i).value].spanId) else None,
        IsOrphan(rows, i)))
  }

  // The copies of one span, in arrival order.
  function Copies(log: seq<Arrival>, id: TraceId, spanId: SpanId): seq<NewSpan> {
    if log == [] then [] else
      var last := log[|log| - 1];
      Copies(log[..|log| - 1], id, spanId)
      + if last.traceId == id && last.span.spanId == spanId then [last.span] else []
  }

  // The reference: fields from the last copy, parent from the first.
  function LogView(log: seq<Arrival>, id: TraceId, spanId: SpanId): Option<SpanView> {
    var copies := Copies(log, id, spanId);
    if copies == [] then None else
      var last, parent := copies[|copies| - 1], copies[0].parentSpanId;
      var arrived := parent.Some? && Copies(log, id, parent.value) != [];
      Some(SpanView(
        last.name, last.startTime, last.endTime, last.statusMessage, last.statusCode, last.unknownService,
        last.serviceName, last.attributes,
        if arrived then parent else None,
        parent.Some? && !arrived))
  }

  // The arrivals a trace is made of: those for its id since it was last evicted.
  function Since(es: seq<Event>, id: TraceId): seq<Arrival> {
    if es == [] then [] else
      var before := Since(es[..|es| - 1], id);
      match es[|es| - 1]
      case Insert(other, span, now) => if other == id then before + [Arrival(id, span, now)] else before
      case Malformed(_) => before
      case Evict(other) => if other == id then [] else before
  }

  // Rows against arrivals ----------------------------------------------------------------------------

  // The row is the last copy of its span, in the tables of `s`, under the parent the first declared.
  ghost predicate RowMirrors(s: StoreState, row: Row, log: seq<Arrival>, id: TraceId) {
    var copies := Copies(log, id, row.spanId);
    && copies != []
    && SettledSpan(s, copies[|copies| - 1])
    && row == Settling(s, copies[|copies| - 1], copies[0].parentSpanId)
  }

  // The trace holds exactly the spans of the log, each as its copies say.
  ghost predicate Mirrors(s: StoreState, log: seq<Arrival>, id: TraceId) {
    && (id in s.traces <==> log != [])
    && (id in s.traces ==>
          var rows := s.traces[id].rows;
          && (forall i | 0 <= i < |rows| :: RowMirrors(s, rows[i], log, id))
          && (forall spanId | Copies(log, id, spanId) != [] :: SlotOf(rows, spanId).Some?))
  }

  lemma RowMirrorsGrows(s: StoreState, s': StoreState, row: Row, log: seq<Arrival>, id: TraceId)
    requires Grows(s.keys, s'.keys) && Grows(s.services, s'.services)
    requires RowMirrors(s, row, log, id)
    ensures RowMirrors(s', row, log, id)
  {
    var copies := Copies(log, id, row.spanId);
    SettlingIsStable(s, s', copies[|copies| - 1], copies[0].parentSpanId);
  }

  // Nothing happened to this trace.
  lemma MirrorsGrows(s: StoreState, s': StoreState, log: seq<Arrival>, id: TraceId)
    requires Grows(s.keys, s'.keys) && Grows(s.services, s'.services)
    requires id in s.traces <==> id in s'.traces
    requires id in s.traces ==> s'.traces[id].rows == s.traces[id].rows
    requires Mirrors(s, log, id)
    ensures Mirrors(s', log, id)
  {
    if id in s.traces {
      var rows := s.traces[id].rows;
      forall i | 0 <= i < |rows| ensures RowMirrors(s', rows[i], log, id) {
        RowMirrorsGrows(s, s', rows[i], log, id);
      }
    }
  }

  lemma CopiesSnoc(log: seq<Arrival>, last: Arrival, id: TraceId, spanId: SpanId)
    ensures Copies(log + [last], id, spanId)
         == Copies(log, id, spanId) + if last.traceId == id && last.span.spanId == spanId then [last.span] else []
  {
    assert (log + [last])[..|log|] == log;
  }

  // One row of a trace that has just received `span`.
  lemma RowMirrorsInsert(s: StoreState, log: seq<Arrival>, id: TraceId, span: NewSpan, now: nat, i: nat)
    requires Consistent(s) && Mirrors(s, log, id)
    requires i < |InsertSpan(s, id, span, now).traces[id].rows|
    ensures
      var s' := InsertSpan(s, id, span, now);
      RowMirrors(s', s'.traces[id].rows[i], log + [Arrival(id, span, now)], id)
  {
    hide Settling, SettledSpan, Mirrors;
    var s', rows := InsertSpan(s, id, span, now), Opened(s, id, now).rows;
    var row := s'.traces[id].rows[i];
    InsertSettles(s, id, span, now);
    CopiesSnoc(log, Arrival(id, span, now), id, row.spanId);
    if row.spanId == span.spanId {
      PutRowWrites(rows, NewRow(s, span), i);
      ParentKept(s, log, id, span, now, i);
      SettlingParent(s, s', span, row);
    } else {
      PutRowKeeps(s, id, id, span, now, i);
      RowWasMirrored(s, log, id, i);
      RowMirrorsGrows(s, s', row, log, id);
    }
  }

  lemma RowWasMirrored(s: StoreState, log: seq<Arrival>, id: TraceId, i: nat)
    requires Mirrors(s, log, id) && id in s.traces && i < |s.traces[id].rows|
    ensures RowMirrors(s, s.traces[id].rows[i], log, id)
  {
  }

  // The parent of the row just written is the one the first copy declared.
  lemma ParentKept(s: StoreState, log: seq<Arrival>, id: TraceId, span: NewSpan, now: nat, i: nat)
    requires Consistent(s) && Mirrors(s, log, id)
    requires
      var rows' := InsertSpan(s, id, span, now).traces[id].rows;
      i < |rows'| && rows'[i].spanId == span.spanId
    ensures
      var copies := Copies(log, id, span.spanId);
      InsertSpan(s, id, span, now).traces[id].rows[i].parent
      == if copies == [] then span.parentSpanId else copies[0].parentSpanId
  {
    if id in s.traces && SlotOf(s.traces[id].rows, span.spanId).Some? {
      var slot := SlotOf(s.traces[id].rows, span.spanId).value;
      assert RowMirrors(s, s.traces[id].rows[slot], log, id);
      assert s.traces[id].rows[slot].spanId == span.spanId;
    } else {
      NoSlotNoCopy(s, log, id, span.spanId);
    }
  }

  lemma NoSlotNoCopy(s: StoreState, log: seq<Arrival>, id: TraceId, spanId: SpanId)
    requires Mirrors(s, log, id)
    ensures Copies(log, id, spanId) != [] <==> id in s.traces && SlotOf(s.traces[id].rows, spanId).Some?
  {
    if id in s.traces && SlotOf(s.traces[id].rows, spanId).Some? {
      assert RowMirrors(s, s.traces[id].rows[SlotOf(s.traces[id].rows, spanId).value], log, id);
    }
  }

  lemma MirrorsInsert(s: StoreState, log: seq<Arrival>, id: TraceId, span: NewSpan, now: nat)
    requires Consistent(s) && Mirrors(s, log, id)
    ensures Mirrors(InsertSpan(s, id, span, now), log + [Arrival(id, span, now)], id)
  {
    hide RowMirrors, PutRow, NewRow;
    var s', log' := InsertSpan(s, id, span, now), log + [Arrival(id, span, now)];
    var rows' := s'.traces[id].rows;
    forall i | 0 <= i < |rows'| ensures RowMirrors(s', rows'[i], log', id) {
      RowMirrorsInsert(s, log, id, span, now, i);
    }
    forall spanId | Copies(log', id, spanId) != [] ensures SlotOf(rows', spanId).Some? {
      CopiesSnoc(log, Arrival(id, span, now), id, spanId);
      InsertLands(s, id, span, now);
      if spanId != span.spanId {
        var slot := SlotOf(s.traces[id].rows, spanId).value;
        assert rows'[slot].spanId == spanId;
      }
    }
  }

  lemma MirrorsStep(s: StoreState, log: seq<Arrival>, es: seq<Event>, id: TraceId)
    requires es != [] && Consistent(s)
    requires log == Since(es[..|es| - 1], id) && Mirrors(s, log, id)
    ensures Mirrors(Apply(s, es[|es| - 1]), Since(es, id), id)
  {
    hide Mirrors, Consistent, PutRow, NewRow;
    var s' := Apply(s, es[|es| - 1]);
    TablesGrowApply(s, es[|es| - 1]);
    match es[|es| - 1] {
      case Insert(other, span, now) =>
        if other == id {
          MirrorsInsert(s, log, id, span, now);
        } else {
          MirrorsGrows(s, s', log, id);
        }
      case Malformed(_) =>
        MirrorsGrows(s, s', log, id);
      case Evict(other) =>
        if other == id {
          NothingMirrorsNothing(s', id);
        } else {
          MirrorsGrows(s, s', log, id);
        }
    }
  }

  lemma TablesGrowApply(s: StoreState, e: Event)
    requires Consistent(s)
    ensures Grows(s.keys, Apply(s, e).keys) && Grows(s.services, Apply(s, e).services)
  {
  }

  lemma NothingMirrorsNothing(s: StoreState, id: TraceId)
    requires id !in s.traces
    ensures Mirrors(s, [], id)
  {
  }

  /**
   After any run, from any store where the trace was not yet resident, the trace is exactly what
   the arrivals since its last eviction make it: every row is the last copy of its span, encoded in
   the final tables, under the parent its first copy declared, and no span is missing.
   */
  lemma {:induction false} MirrorsRun(s: StoreState, es: seq<Event>, id: TraceId)
    requires Consistent(s) && id !in s.traces
    ensures Consistent(Run(s, es))
    ensures Mirrors(Run(s, es), Since(es, id), id)
  {
    hide Mirrors, Consistent;
    ConsistentRun(s, es);
    if es == [] {
      NothingMirrorsNothing(s, id);
    } else {
      var front := es[..|es| - 1];
      MirrorsRun(s, front, id);
      MirrorsStep(Run(s, front), Since(front, id), es, id);
    }
  }

  // What is shown ------------------------------------------------------------------------------------

  // The tables hold everything the span mentions.
  ghost predicate Held(s: StoreState, span: NewSpan) {
    && (forall k | 0 <= k < |span.attributes| :: span.attributes[k].0 in s.keys.strings)
    && (span.serviceName.Some? ==> span.serviceName.value in s.services.strings)
  }

  lemma DecodeSnoc(t: Table, front: seq<(nat, AttrValue)>, last: (nat, AttrValue))
    requires last.0 < |t.strings| && forall k | 0 <= k < |front| :: front[k].0 < |t.strings|
    ensures forall k | 0 <= k < |front + [last]| :: (front + [last])[k].0 < |t.strings|
    ensures Decode(t, front + [last]) == Decode(t, front) + [(t.strings[last.0], last.1)]
  {
  }

  lemma SameEnds<T>(xs: seq<T>, ys: seq<T>, last: T)
    ensures xs + [last] == ys + [last] <==> xs == ys
  {
    assert (xs + [last])[..|xs|] == xs && (ys + [last])[..|ys|] == ys;
  }

  lemma {:induction false} DecodeEncode(t: Table, attrs: seq<Attribute>)
    requires Sound(t)
    ensures forall k | 0 <= k < |Encode(t, attrs)| :: Encode(t, attrs)[k].0 < |t.strings|
    ensures |Encode(t, attrs)| <= |attrs|
    ensures Decode(t, Encode(t, attrs)) == attrs <==> forall k | 0 <= k < |attrs| :: attrs[k].0 in t.strings
  {
    hide Decode, IdOf, Sound;
    if attrs == [] {
      DecodeNone(t);
    } else {
      var front, last := attrs[..|attrs| - 1], attrs[|attrs| - 1];
      assert forall k | 0 <= k < |front| :: front[k] == attrs[k];
      assert attrs == front + [last];
      DecodeEncode(t, front);
      if last.0 in t.strings {
        DecodeSnoc(t, Encode(t, front), (IdOf(t, last.0).value, last.1));
        SameEnds(Decode(t, Encode(t, front)), front, last);
      } else {
        DecodeLength(t, Encode(t, attrs));
      }
    }
  }

  lemma DecodeNone(t: Table)
    ensures Decode(t, []) == []
  {
  }

  lemma DecodeLength(t: Table, attrs: seq<(nat, AttrValue)>)
    requires forall k | 0 <= k < |attrs| :: attrs[k].0 < |t.strings|
    ensures |Decode(t, attrs)| == |attrs|
  {
  }

  lemma RowShows(s: StoreState, span: NewSpan, parent: Option<SpanId>)
    requires Consistent(s)
    ensures IdsInRange(s, Settling(s, span, parent))
    ensures
      var row := Settling(s, span, parent);
      Decode(s.keys, row.attrs) == span.attributes && DecodeService(s.services, row.serviceId) == span.serviceName
      <==> Held(s, span)
  {
    DecodeEncode(s.keys, span.attributes);
  }

  lemma ParentShows(s: StoreState, log: seq<Arrival>, id: TraceId, i: nat)
    requires Mirrors(s, log, id) && id in s.traces && i < |s.traces[id].rows|
    ensures
      var rows := s.traces[id].rows;
      var parent := rows[i].parent;
      var arrived := parent.Some? && Copies(log, id, parent.value) != [];
      && (ParentSlot(rows, i).Some? <==> arrived)
      && (arrived ==> rows[ParentSlot(rows, i).value].spanId == parent.value)
      && (IsOrphan(rows, i) <==> parent.Some? && !arrived)
  {
    hide Mirrors;
    var rows := s.traces[id].rows;
    if rows[i].parent.Some? {
      NoSlotNoCopy(s, log, id, rows[i].parent.value);
    }
  }

  /** A span is shown as its copies say if and only if the tables hold its last copy's keys and service. */
  lemma ShownIffHeld(s: StoreState, log: seq<Arrival>, id: TraceId, spanId: SpanId)
    requires Consistent(s) && Mirrors(s, log, id)
    ensures
      var copies := Copies(log, id, spanId);
      View(s, id, spanId) == LogView(log, id, spanId) <==> copies == [] || Held(s, copies[|copies| - 1])
  {
    hide Mirrors, Settling, Held, RowMirrors;
    var copies := Copies(log, id, spanId);
    NoSlotNoCopy(s, log, id, spanId);
    if copies != [] {
      var rows := s.traces[id].rows;
      var i := SlotOf(rows, spanId).value;
      RowWasMirrored(s, log, id, i);
      SlotShows(s, log, id, i);
      ParentShows(s, log, id, i);
    }
  }

  lemma SlotShows(s: StoreState, log: seq<Arrival>, id: TraceId, i: nat)
    requires Consistent(s) && id in s.traces && i < |s.traces[id].rows|
    requires RowMirrors(s, s.traces[id].rows[i], log, id)
    ensures
      var row := s.traces[id].rows[i];
      var copies := Copies(log, id, row.spanId);
      && copies != []
      && IdsInRange(s, row)
      && var last := copies[|copies| - 1];
      && row == RowOf(last, row.serviceId, row.attrs).(parent := copies[0].parentSpanId)
      && (Decode(s.keys, row.attrs) == last.attributes && DecodeService(s.services, row.serviceId) == last.serviceName
          <==> Held(s, last))
  {
    var copies := Copies(log, id, s.traces[id].rows[i].spanId);
    RowShows(s, copies[|copies| - 1], copies[0].parentSpanId);
  }

  // Below the cap every string is interned -----------------------------------------------------------

  ghost function KeysIn(es: seq<Event>): set<string> {
    set i, k | 0 <= i < |es| && es[i].Insert? && 0 <= k < |es[i].span.attributes| :: es[i].span.attributes[k].0
  }

  ghost function ServicesIn(es: seq<Event>): set<string> {
    set i | 0 <= i < |es| && es[i].Insert? && es[i].span.serviceName.Some? :: es[i].span.serviceName.value
  }

  ghost predicate Fits(es: seq<Event>, cap: nat) {
    |KeysIn(es)| <= cap && |ServicesIn(es)| <= cap
  }

  lemma {:induction false} AdmitKeysFrom(t: Table, attrs: seq<Attribute>, s: string)
    requires s in AdmitKeys(t, attrs).strings
    ensures s in t.strings || exists k | 0 <= k < |attrs| :: attrs[k].0 == s
  {
    if attrs != [] {
      var front := attrs[..|attrs| - 1];
      if s in AdmitKeys(t, front).strings {
        AdmitKeysFrom(t, front, s);
        if s !in t.strings {
          var k :| 0 <= k < |front| && front[k].0 == s;
          assert attrs[k].0 == s;
        }
      } else {
        assert attrs[|attrs| - 1].0 == s;
      }
    }
  }

  lemma {:induction false} TablesHoldOnlyTheRun(budget: nat, cap: nat, es: seq<Event>, s: string)
    ensures s in Run(NewStore(budget, cap), es).keys.strings ==> s in KeysIn(es)
    ensures s in Run(NewStore(budget, cap), es).services.strings ==> s in ServicesIn(es)
  {
    if es != [] {
      var n := |es| - 1;
      var front, last := es[..n], es[n];
      TablesHoldOnlyTheRun(budget, cap, front, s);
      assert forall i | 0 <= i < n :: front[i] == es[i];
      assert KeysIn(front) <= KeysIn(es) && ServicesIn(front) <= ServicesIn(es);
      var before, after := Run(NewStore(budget, cap), front), Run(NewStore(budget, cap), es);
      if s in after.keys.strings && s !in before.keys.strings {
        AdmitKeysFrom(before.keys, last.span.attributes, s);
      }
    }
  }

  lemma BelowCapNothingIsRefused(t: Table, all: set<string>, s: string)
    requires Sound(t) && Settled(t, s)
    requires forall x | x in t.strings :: x in all
    requires |all| <= t.cap && s in all
    ensures s in t.strings
  {
    DistinctCount(t.strings, all);
  }

  // What arrived since the last eviction arrived during the run.
  lemma {:induction false} SinceIsPart(es: seq<Event>, id: TraceId, k: nat)
    requires k < |Since(es, id)|
    ensures exists i | 0 <= i < |es| :: es[i].Insert? && es[i].traceId == id && es[i].span == Since(es, id)[k].span
    ensures Since(es, id)[k].traceId == id
  {
    var n := |es| - 1;
    if k < |Since(es[..n], id)| {
      SinceIsPart(es[..n], id, k);
      var i :| 0 <= i < n && es[..n][i].Insert? && es[..n][i].traceId == id
               && es[..n][i].span == Since(es[..n], id)[k].span;
      assert es[i].Insert? && es[i].traceId == id && es[i].span == Since(es, id)[k].span;
    } else {
      assert es[n].Insert? && es[n].traceId == id && es[n].span == Since(es, id)[k].span;
    }
  }

  lemma {:induction false} CopyAt(log: seq<Arrival>, id: TraceId, spanId: SpanId, span: NewSpan)
    ensures span in Copies(log, id, spanId)
            <==> span.spanId == spanId && exists k | 0 <= k < |log| :: log[k].traceId == id && log[k].span == span
  {
    if log != [] {
      var n := |log| - 1;
      CopyAt(log[..n], id, spanId, span);
      if k :| 0 <= k < n && log[..n][k].traceId == id && log[..n][k].span == span {
        assert log[k].traceId == id && log[k].span == span;
      }
      if k :| 0 <= k < n && log[k].traceId == id && log[k].span == span {
        assert log[..n][k].traceId == id && log[..n][k].span == span;
      }
    }
  }

  lemma EverythingHeld(budget: nat, cap: nat, es: seq<Event>, span: NewSpan)
    requires Fits(es, cap)
    requires exists i | 0 <= i < |es| :: es[i].Insert? && es[i].span == span
    requires SettledSpan(Run(NewStore(budget, cap), es), span)
    ensures Held(Run(NewStore(budget, cap), es), span)
  {
    var s0 := NewStore(budget, cap);
    var s := Run(s0, es);
    TablesGrow(s0, es);
    forall x ensures x in s.keys.strings ==> x in KeysIn(es)
             ensures x in s.services.strings ==> x in ServicesIn(es) {
      TablesHoldOnlyTheRun(budget, cap, es, x);
    }
    var i :| 0 <= i < |es| && es[i].Insert? && es[i].span == span;
    forall k | 0 <= k < |span.attributes| ensures span.attributes[k].0 in s.keys.strings {
      assert es[i].span.attributes[k].0 in KeysIn(es);
      BelowCapNothingIsRefused(s.keys, KeysIn(es), span.attributes[k].0);
    }
    if span.serviceName.Some? {
      BelowCapNothingIsRefused(s.services, ServicesIn(es), span.serviceName.value);
    }
  }

  /**
   The store shows exactly what arrived since the trace was last evicted, after any run of
   arrivals, overwrites, evictions and resurrections whose keys and services fit the interners.
   */
  lemma RunShowsSince(budget: nat, cap: nat, es: seq<Event>, id: TraceId, spanId: SpanId)
    requires Fits(es, cap)
    ensures Consistent(Run(NewStore(budget, cap), es))
    ensures View(Run(NewStore(budget, cap), es), id, spanId) == LogView(Since(es, id), id, spanId)
  {
    hide Run, View, LogView, Fits, Held;
    var s, log := Run(NewStore(budget, cap), es), Since(es, id);
    MirrorsRun(NewStore(budget, cap), es, id);
    ShownIffHeld(s, log, id, spanId);
    var copies := Copies(log, id, spanId);
    if copies != [] {
      var last := copies[|copies| - 1];
      CopyAt(log, id, spanId, last);
      var k :| 0 <= k < |log| && log[k].traceId == id && log[k].span == last;
      SinceIsPart(es, id, k);
      LastIsSettled(s, log, id, spanId);
      EverythingHeld(budget, cap, es, last);
    }
  }

  lemma LastIsSettled(s: StoreState, log: seq<Arrival>, id: TraceId, spanId: SpanId)
    requires Mirrors(s, log, id)
    ensures
      var copies := Copies(log, id, spanId);
      copies != [] ==> SettledSpan(s, copies[|copies| - 1])
  {
    NoSlotNoCopy(s, log, id, spanId);
    if Copies(log, id, spanId) != [] {
      RowWasMirrored(s, log, id, SlotOf(s.traces[id].rows, spanId).value);
    }
  }

  // Independence ------------------------------------------------------------------------------------

  // The two logs deliver the same copies of every span of the trace in the same order.
  ghost predicate SameCopiesOfEach(a: seq<Arrival>, b: seq<Arrival>, id: TraceId) {
    forall spanId :: Copies(a, id, spanId) == Copies(b, id, spanId)
  }

  lemma SameLogView(a: seq<Arrival>, b: seq<Arrival>, id: TraceId, spanId: SpanId)
    requires SameCopiesOfEach(a, b, id)
    ensures LogView(a, id, spanId) == LogView(b, id, spanId)
  {
    var copies := Copies(a, id, spanId);
    assert copies == Copies(b, id, spanId);
    if copies != [] && copies[0].parentSpanId.Some? {
      assert Copies(a, id, copies[0].parentSpanId.value) == Copies(b, id, copies[0].parentSpanId.value);
    }
  }

  /**
   Only the relative order of copies of the same span matters: two runs that deliver the same
   copies since the trace was last evicted show the same fields, attributes, parent and orphan
   flag for every span, however the arrivals interleave, whatever else came, was evicted or came
   back in either run, and whatever the budgets.
   */
  lemma OrderIndependence(budget: nat, cap: nat, a: seq<Event>, budget': nat, cap': nat, b: seq<Event>,
                          id: TraceId, spanId: SpanId)
    requires SameCopiesOfEach(Since(a, id), Since(b, id), id)
    requires Fits(a, cap) && Fits(b, cap')
    ensures Consistent(Run(NewStore(budget, cap), a)) && Consistent(Run(NewStore(budget', cap'), b))
    ensures View(Run(NewStore(budget, cap), a), id, spanId) == View(Run(NewStore(budget', cap'), b), id, spanId)
  {
    hide Run, View, LogView, Since, Fits;
    RunShowsSince(budget, cap, a, id, spanId);
    RunShowsSince(budget', cap', b, id, spanId);
    SameLogView(Since(a, id), Since(b, id), id, spanId);
  }

  // Spans with distinct ids: any permutation ----------------------------------------------------------

  ghost function SpansOf(log: seq<Arrival>): multiset<(TraceId, NewSpan)> {
    if log == [] then multiset{} else
      SpansOf(log[..|log| - 1]) + multiset{(log[|log| - 1].traceId, log[|log| - 1].span)}
  }

  ghost predicate DistinctSpans(log: seq<Arrival>) {
    forall i, j | 0 <= i < j < |log| :: log[i].traceId != log[j].traceId || log[i].span.spanId != log[j].span.spanId
  }

  lemma {:induction false} SpansAreArrivals(log: seq<Arrival>, id: TraceId, span: NewSpan)
    ensures (id, span) in SpansOf(log) <==> exists k | 0 <= k < |log| :: log[k].traceId == id && log[k].span == span
  {
    if log != [] {
      var n := |log| - 1;
      SpansAreArrivals(log[..n], id, span);
      if k :| 0 <= k < n && log[..n][k].traceId == id && log[..n][k].span == span {
        assert log[k].traceId == id && log[k].span == span;
      }
      if k :| 0 <= k < n && log[k].traceId == id && log[k].span == span {
        assert log[..n][k].traceId == id && log[..n][k].span == span;
      }
    }
  }

  lemma {:induction false} AtMostOneCopy(log: seq<Arrival>, id: TraceId, spanId: SpanId)
    requires DistinctSpans(log)
    ensures |Copies(log, id, spanId)| <= 1
  {
    if log != [] {
      var n := |log| - 1;
      assert forall i | 0 <= i < n :: log[..n][i] == log[i];
      AtMostOneCopy(log[..n], id, spanId);
      if log[n].traceId == id && log[n].span.spanId == spanId && Copies(log[..n], id, spanId) != [] {
        var copy := Copies(log[..n], id, spanId)[0];
        CopyAt(log[..n], id, spanId, copy);
        assert false;
      }
    }
  }

  lemma PermutedCopies(a: seq<Arrival>, b: seq<Arrival>, id: TraceId, spanId: SpanId)
    requires DistinctSpans(a) && DistinctSpans(b)
    requires SpansOf(a) == SpansOf(b)
    ensures Copies(a, id, spanId) == Copies(b, id, spanId)
  {
    hide Copies, SpansOf, DistinctSpans;
    AtMostOneCopy(a, id, spanId);
    AtMostOneCopy(b, id, spanId);
    forall span
      ensures span in Copies(a, id, spanId) <==> span in Copies(b, id, spanId)
    {
      CopyAt(a, id, spanId, span);
      CopyAt(b, id, spanId, span);
      SpansAreArrivals(a, id, span);
      SpansAreArrivals(b, id, span);
    }
    SameShortSequence(Copies(a, id, spanId), Copies(b, id, spanId));
  }

  lemma SameShortSequence<T(!new)>(xs: seq<T>, ys: seq<T>)
    requires |xs| <= 1 && |ys| <= 1
    requires forall x :: x in xs <==> x in ys
    ensures xs == ys
  {
    if xs != [] {
      assert xs[0] in xs;
    }
    if ys != [] {
      assert ys[0] in ys;
    }
  }

  /** Spans with distinct ids may arrive in any order at all, at any times, in any two such runs. */
  lemma PermutationIndependence(budget: nat, cap: nat, a: seq<Event>, budget': nat, cap': nat, b: seq<Event>,
                                id: TraceId, spanId: SpanId)
    requires DistinctSpans(Since(a, id)) && DistinctSpans(Since(b, id))
    requires SpansOf(Since(a, id)) == SpansOf(Since(b, id))
    requires Fits(a, cap) && Fits(b, cap')
    ensures Consistent(Run(NewStore(budget, cap), a)) && Consistent(Run(NewStore(budget', cap'), b))
    ensures View(Run(NewStore(budget, cap), a), id, spanId) == View(Run(NewStore(budget', cap'), b), id, spanId)
  {
    forall spanId ensures Copies(Since(a, id), id, spanId) == Copies(Since(b, id), id, spanId) {
      PermutedCopies(Since(a, id), Since(b, id), id, spanId);
    }
    OrderIndependence(budget, cap, a, budget', cap', b, id, spanId);
  }
}
