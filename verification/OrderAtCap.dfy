/**
 Why order independence asks for room in the interners, and exactly when it is needed: with a single
 place left, whichever key arrives first takes it, and the other attribute is dropped for good.
 */
module OrderAtCap {
  import opened Types
  import opened Interners
  import opened Rows
  import opened Sums
  import opened StoreModel
  import opened StoreRuns
  import opened Arrivals
  import opened Order

  // Logs without evictions ----------------------------------------------------------------------------

  lemma {:induction false} SinceInserts(log: seq<Arrival>, id: TraceId, spanId: SpanId)
    ensures Copies(Since(Inserts(log), id), id, spanId) == Copies(log, id, spanId)
  {
    if log != [] {
      var n := |log| - 1;
      assert Inserts(log)[..n] == Inserts(log[..n]);
      SinceInserts(log[..n], id, spanId);
      var before := Since(Inserts(log[..n]), id);
      if log[n].traceId == id {
        CopiesSnoc(before, log[n], id, spanId);
        assert Since(Inserts(log), id) == before + [log[n]];
      }
    }
  }

  lemma LogIsSince(log: seq<Arrival>, id: TraceId, spanId: SpanId)
    ensures Copies(Since(Inserts(log), id), id, spanId) == Copies(log, id, spanId)
    ensures LogView(Since(Inserts(log), id), id, spanId) == LogView(log, id, spanId)
  {
    hide LogView, Since, Inserts;
    forall x ensures Copies(Since(Inserts(log), id), id, x) == Copies(log, id, x) {
      SinceInserts(log, id, x);
    }
    SameLogView(Since(Inserts(log), id), log, id, spanId);
  }

  // What a log leaves behind, and what the store shows of each span in it.
  lemma LogShownIffHeld(s: StoreState, log: seq<Arrival>, id: TraceId, spanId: SpanId)
    requires Consistent(s) && id !in s.traces
    ensures Consistent(Inserted(s, log))
    ensures
      var s', copies := Inserted(s, log), Copies(log, id, spanId);
      && (View(s', id, spanId) == LogView(log, id, spanId) <==> copies == [] || Held(s', copies[|copies| - 1]))
  {
    hide View, LogView, Held, Since, Mirrors, Consistent, Run, Copies;
    MirrorsRun(s, Inserts(log), id);
    ShownIffHeld(Inserted(s, log), Since(Inserts(log), id), id, spanId);
    LogIsSince(log, id, spanId);
  }

  // With distinct spans every arrival is its span's only copy.
  lemma OnlyCopy(log: seq<Arrival>, i: nat)
    requires DistinctSpans(log) && i < |log|
    ensures Copies(log, log[i].traceId, log[i].span.spanId) == [log[i].span]
  {
    var id, span := log[i].traceId, log[i].span;
    CopyAt(log, id, span.spanId, span);
    AtMostOneCopy(log, id, span.spanId);
  }

  // When the interners are too small, some span of the log mentions a string they do not hold.
  lemma SomeSpanIsNotHeld(budget: nat, cap: nat, log: seq<Arrival>) returns (i: nat)
    requires !Fits(Inserts(log), cap)
    ensures i < |log| && !Held(Inserted(NewStore(budget, cap), log), log[i].span)
  {
    var s0, es := NewStore(budget, cap), Inserts(log);
    var s := Inserted(s0, log);
    TablesGrow(s0, es);
    if |KeysIn(es)| > cap {
      var key := SomethingIsMissing(s.keys.strings, KeysIn(es));
      var j, k :| 0 <= j < |es| && es[j].Insert? && 0 <= k < |es[j].span.attributes|
                  && es[j].span.attributes[k].0 == key;
      i := j;
      assert log[i].span.attributes[k].0 !in s.keys.strings;
    } else {
      var service := SomethingIsMissing(s.services.strings, ServicesIn(es));
      var j :| 0 <= j < |es| && es[j].Insert? && es[j].span.serviceName == Some(service);
      i := j;
    }
  }

  /**
   For spans with distinct ids, a new store shows every one of them as it arrived if and only if
   the keys and services among them fit the interners.
   */
  lemma ShowsLogIffFits(budget: nat, cap: nat, log: seq<Arrival>)
    requires DistinctSpans(log)
    ensures Consistent(Inserted(NewStore(budget, cap), log))
    ensures (forall id, spanId ::
               View(Inserted(NewStore(budget, cap), log), id, spanId) == LogView(log, id, spanId))
            <==> Fits(Inserts(log), cap)
  {
    hide View, LogView, Held, Fits, Inserted, Consistent;
    var s0 := NewStore(budget, cap);
    var s := Inserted(s0, log);
    assert Consistent(s0) by { NewIsConsistent(budget, cap); }
    ConsistentInserted(s0, log);
    if Fits(Inserts(log), cap) {
      forall id, spanId ensures View(s, id, spanId) == LogView(log, id, spanId) {
        ShowsFittingLog(budget, cap, log, id, spanId);
      }
    } else {
      var i := SomeSpanIsNotHeld(budget, cap, log);
      OnlyCopy(log, i);
      LogShownIffHeld(s0, log, log[i].traceId, log[i].span.spanId);
    }
  }

  lemma NewIsConsistent(budget: nat, cap: nat)
    ensures Consistent(NewStore(budget, cap))
  {
  }

  lemma ShowsFittingLog(budget: nat, cap: nat, log: seq<Arrival>, id: TraceId, spanId: SpanId)
    requires Fits(Inserts(log), cap)
    ensures Consistent(Inserted(NewStore(budget, cap), log))
    ensures View(Inserted(NewStore(budget, cap), log), id, spanId) == LogView(log, id, spanId)
  {
    hide View, LogView, Fits, Since, Run, Copies, Consistent;
    RunShowsSince(budget, cap, Inserts(log), id, spanId);
    LogIsSince(log, id, spanId);
  }

  // Which strings an interner ends up with ------------------------------------------------------------

  ghost function AdmitAll(t: Table, names: seq<string>): (t': Table)
    ensures Sound(t) ==> Grows(t, t')
  {
    if names == [] then t else Admit(AdmitAll(t, names[..|names| - 1]), names[|names| - 1])
  }

  lemma {:induction false} AdmitAllConcat(t: Table, a: seq<string>, b: seq<string>)
    ensures AdmitAll(t, a + b) == AdmitAll(AdmitAll(t, a), b)
  {
    if b == [] {
      assert a + b == a;
    } else {
      assert (a + b)[..|a + b| - 1] == a + b[..|b| - 1];
      AdmitAllConcat(t, a, b[..|b| - 1]);
    }
  }

  function KeysOf(attrs: seq<Attribute>): seq<string> {
    seq(|attrs|, k requires 0 <= k < |attrs| => attrs[k].0)
  }

  lemma {:induction false} AdmitKeysIsAdmitAll(t: Table, attrs: seq<Attribute>)
    ensures AdmitKeys(t, attrs) == AdmitAll(t, KeysOf(attrs))
  {
    if attrs != [] {
      var n := |attrs| - 1;
      assert KeysOf(attrs)[..n] == KeysOf(attrs[..n]);
      AdmitKeysIsAdmitAll(t, attrs[..n]);
    }
  }

  function Listed(name: Option<string>): seq<string> {
    if name.Some? then [name.value] else []
  }

  lemma AdmitServiceIsAdmitAll(t: Table, name: Option<string>)
    ensures AdmitService(t, name) == AdmitAll(t, Listed(name))
  {
    if name.Some? {
      assert [name.value][..0] == [];
      assert AdmitAll(t, []) == t;
    }
  }

  // The keys and the services of a run, in the order in which they arrive.
  function KeyStream(es: seq<Event>): seq<string> {
    if es == [] then [] else
      var last := es[|es| - 1];
      KeyStream(es[..|es| - 1]) + if last.Insert? then KeysOf(last.span.attributes) else []
  }

  function ServiceStream(es: seq<Event>): seq<string> {
    if es == [] then [] else
      var last := es[|es| - 1];
      ServiceStream(es[..|es| - 1]) + if last.Insert? then Listed(last.span.serviceName) else []
  }

  lemma {:induction false} TablesAreStreams(budget: nat, cap: nat, es: seq<Event>)
    ensures Run(NewStore(budget, cap), es).keys == AdmitAll(Table([], cap, 0), KeyStream(es))
    ensures Run(NewStore(budget, cap), es).services == AdmitAll(Table([], cap, 0), ServiceStream(es))
  {
    hide AdmitAll, AdmitKeys, AdmitService, KeysOf, Listed, PutRow, NewRow;
    var empty := Table([], cap, 0);
    if es == [] {
      NothingAdmitted(empty);
    } else {
      var front, last := es[..|es| - 1], es[|es| - 1];
      TablesAreStreams(budget, cap, front);
      var before := Run(NewStore(budget, cap), front);
      if last.Insert? {
        AdmitKeysIsAdmitAll(before.keys, last.span.attributes);
        AdmitServiceIsAdmitAll(before.services, last.span.serviceName);
        AdmitAllConcat(empty, KeyStream(front), KeysOf(last.span.attributes));
        AdmitAllConcat(empty, ServiceStream(front), Listed(last.span.serviceName));
      } else {
        assert KeyStream(es) == KeyStream(front) && ServiceStream(es) == ServiceStream(front);
      }
    }
  }

  lemma NothingAdmitted(t: Table)
    ensures AdmitAll(t, []) == t
  {
  }

  ghost function Distinct(names: seq<string>): set<string> {
    set x | x in names
  }

  // The string came while fewer than `cap` different ones had been seen.
  ghost predicate Early(names: seq<string>, cap: nat, s: string) {
    exists i | 0 <= i < |names| :: names[i] == s && |Distinct(names[..i])| < cap
  }

  lemma EarlySnoc(names: seq<string>, last: string, cap: nat, s: string)
    ensures Early(names + [last], cap, s) <==> Early(names, cap, s) || (s == last && |Distinct(names)| < cap)
  {
    var all := names + [last];
    if i :| 0 <= i < |all| && all[i] == s && |Distinct(all[..i])| < cap {
      if i < |names| {
        assert all[..i] == names[..i] && names[i] == s;
      } else {
        assert all[..i] == names;
      }
    }
    if i :| 0 <= i < |names| && names[i] == s && |Distinct(names[..i])| < cap {
      assert all[..i] == names[..i] && all[i] == s;
    }
    if s == last && |Distinct(names)| < cap {
      assert all[..|names|] == names && all[|names|] == s;
    }
  }

  /** An interner filled from empty holds exactly the strings that came early enough. */
  lemma {:induction false} HeldIffEarly(cap: nat, names: seq<string>, s: string)
    ensures s in AdmitAll(Table([], cap, 0), names).strings <==> Early(names, cap, s)
  {
    if names != [] {
      var front, last := names[..|names| - 1], names[|names| - 1];
      assert names == front + [last];
      var before := AdmitAll(Table([], cap, 0), front);
      HeldIffEarly(cap, front, s);
      HeldIffEarly(cap, front, last);
      EarlySnoc(front, last, cap, s);
      HeldCount(cap, front);
    }
  }

  // ... and as many of them as there are, up to its cap.
  lemma {:induction false} HeldCount(cap: nat, names: seq<string>)
    ensures
      var t := AdmitAll(Table([], cap, 0), names);
      && Sound(t) && t.cap == cap
      && (forall x | x in t.strings :: x in names)
      && |t.strings| == if |Distinct(names)| < cap then |Distinct(names)| else cap
  {
    if names == [] {
      assert Distinct(names) == {};
    } else {
      var front, last := names[..|names| - 1], names[|names| - 1];
      assert names == front + [last];
      HeldCount(cap, front);
      var before := AdmitAll(Table([], cap, 0), front);
      assert Distinct(names) == Distinct(front) + {last};
      if last !in before.strings && |before.strings| < cap {
        DistinctCount(before.strings, Distinct(front));
        assert last !in Distinct(front);
      }
    }
  }

  // Every key and the service of the span came early enough in the run.
  ghost predicate EarlySpan(es: seq<Event>, cap: nat, span: NewSpan) {
    && (forall k | 0 <= k < |span.attributes| :: Early(KeyStream(es), cap, span.attributes[k].0))
    && (span.serviceName.Some? ==> Early(ServiceStream(es), cap, span.serviceName.value))
  }

  /**
   The exact condition, for every run: a span is shown as its copies since the last eviction say if
   and only if every key and the service of its last copy first came while the interner had room.
   */
  lemma ShownIffEarly(budget: nat, cap: nat, es: seq<Event>, id: TraceId, spanId: SpanId)
    ensures Consistent(Run(NewStore(budget, cap), es))
    ensures
      var copies := Copies(Since(es, id), id, spanId);
      View(Run(NewStore(budget, cap), es), id, spanId) == LogView(Since(es, id), id, spanId)
      <==> copies == [] || EarlySpan(es, cap, copies[|copies| - 1])
  {
    hide View, LogView, Run, Since, Mirrors, Early, AdmitAll, Consistent;
    var s := Run(NewStore(budget, cap), es);
    NewIsConsistent(budget, cap);
    MirrorsRun(NewStore(budget, cap), es, id);
    ShownIffHeld(s, Since(es, id), id, spanId);
    TablesAreStreams(budget, cap, es);
    forall x
      ensures x in s.keys.strings <==> Early(KeyStream(es), cap, x)
      ensures x in s.services.strings <==> Early(ServiceStream(es), cap, x)
    {
      HeldIffEarly(cap, KeyStream(es), x);
      HeldIffEarly(cap, ServiceStream(es), x);
    }
  }

  // One place, two keys -------------------------------------------------------------------------------

  // A span that carries one attribute, under `key`.
  ghost predicate Carries(span: NewSpan, key: string) {
    |span.attributes| == 1 && span.attributes[0].0 == key
  }

  lemma AdmitOne(t: Table, attrs: seq<Attribute>)
    requires |attrs| == 1
    ensures AdmitKeys(t, attrs) == Admit(t, attrs[0].0)
  {
    assert attrs[..0] == [];
    assert AdmitKeys(t, []) == t;
  }

  lemma TwoInserts(s: StoreState, x: Arrival, y: Arrival)
    ensures Inserted(s, [x, y])
         == InsertSpan(InsertSpan(s, x.traceId, x.span, x.now), y.traceId, y.span, y.now)
  {
    InsertedSnoc(s, [x, y]);
    assert [x, y][..1] == [x];
    InsertedSnoc(s, [x]);
    assert [x][..0] == [];
    InsertedNone(s);
  }

  // The first of two new keys takes the place, and the second is refused.
  lemma FirstKeyWins(s: StoreState, x: Arrival, key: string, y: Arrival, other: string)
    requires Consistent(s) && |s.keys.strings| + 1 == s.keys.cap
    requires Carries(x.span, key) && Carries(y.span, other)
    requires key != other && key !in s.keys.strings && other !in s.keys.strings
    ensures Inserted(s, [x, y]).keys.strings == s.keys.strings + [key]
  {
    TwoInserts(s, x, y);
    AdmitOne(s.keys, x.span.attributes);
    AdmitOne(Admit(s.keys, key), y.span.attributes);
  }

  lemma BothCopies(id: TraceId, x: Arrival, y: Arrival)
    requires x.traceId == y.traceId == id && x.span.spanId != y.span.spanId
    ensures Copies([x, y], id, x.span.spanId) == [x.span]
    ensures Copies([x, y], id, y.span.spanId) == [y.span]
  {
    OnlyCopy([x, y], 0);
    OnlyCopy([x, y], 1);
  }

  /**
   In any store with one place left in the key interner, two spans of a new trace that each carry
   a new key leave different stores in the two orders: the second span shows its attribute only
   when it comes first.
   */
  lemma OrderMattersAtTheCap(s: StoreState, x: Arrival, key: string, y: Arrival, other: string)
    requires Consistent(s) && |s.keys.strings| + 1 == s.keys.cap
    requires x.traceId == y.traceId && x.traceId !in s.traces && x.span.spanId != y.span.spanId
    requires Carries(x.span, key) && Carries(y.span, other)
    requires key != other && key !in s.keys.strings && other !in s.keys.strings
    ensures Consistent(Inserted(s, [x, y])) && Consistent(Inserted(s, [y, x]))
    ensures
      var last := View(Inserted(s, [x, y]), y.traceId, y.span.spanId);
      var first := View(Inserted(s, [y, x]), y.traceId, y.span.spanId);
      last.Some? && first.Some? && last.value.attributes == [] != first.value.attributes
  {
    hide Inserted, Consistent;
    FirstKeyWins(s, x, key, y, other);
    FirstKeyWins(s, y, other, x, key);
    ConsistentInserted(s, [x, y]);
    ConsistentInserted(s, [y, x]);
    var id := x.traceId;
    BothCopies(id, x, y);
    BothCopies(id, y, x);
    AttributesShown(s, [x, y], y.span, id, other);
    AttributesShown(s, [y, x], y.span, id, other);
    assert (s.keys.strings + [other])[|s.keys.strings|] == other;
  }

  // A span with one attribute shows it exactly when its key is held.
  lemma AttributesShown(s: StoreState, log: seq<Arrival>, span: NewSpan, id: TraceId, key: string)
    requires Consistent(s) && id !in s.traces
    requires Copies(log, id, span.spanId) == [span] && Carries(span, key)
    ensures Consistent(Inserted(s, log))
    ensures
      var s' := Inserted(s, log);
      && View(s', id, span.spanId).Some?
      && (View(s', id, span.spanId).value.attributes != [] <==> key in s'.keys.strings)
  {
    hide Mirrors, Since, Consistent, Settling;
    var s', since := Inserted(s, log), Since(Inserts(log), id);
    MirrorsRun(s, Inserts(log), id);
    SinceInserts(log, id, span.spanId);
    NoSlotNoCopy(s', since, id, span.spanId);
    var i := SlotOf(s'.traces[id].rows, span.spanId).value;
    RowWasMirrored(s', since, id, i);
    EncodesOne(s', span, key, span.parentSpanId);
  }

  lemma EncodesOne(s: StoreState, span: NewSpan, key: string, parent: Option<SpanId>)
    requires Carries(span, key)
    ensures Settling(s, span, parent).attrs != [] <==> key in s.keys.strings
  {
    assert span.attributes[..0] == [];
    assert Encode(s.keys, []) == [];
  }

  // Such a store is reached from a new one, whatever the cap ---------------------------------------------

  // The key of each length.
  function LongKey(n: nat): string {
    seq(n, _ => 'k')
  }

  function LongKeys(n: nat): seq<Attribute> {
    seq(n, i requires 0 <= i < n => (LongKey(i), Bool(true)))
  }

  lemma {:induction false} FillKeys(t: Table, n: nat)
    requires t.strings == [] && n <= t.cap
    ensures AdmitKeys(t, LongKeys(n)).strings == seq(n, i requires 0 <= i < n => LongKey(i))
    ensures AdmitKeys(t, LongKeys(n)).cap == t.cap
  {
    if n > 0 {
      FillKeys(t, n - 1);
      assert LongKeys(n)[..n - 1] == LongKeys(n - 1);
      var before := AdmitKeys(t, LongKeys(n - 1));
      assert LongKeys(n)[n - 1].0 == LongKey(n - 1);
      forall i | 0 <= i < n - 1 ensures before.strings[i] != LongKey(n - 1) {
        assert |before.strings[i]| == i;
      }
    }
  }

  const TRACE := TraceId([7, 7, 7, 7, 7, 7, 7, 7, 7, 7, 7, 7, 7, 7, 7, 7])
  const FILLER := TraceId([8, 8, 8, 8, 8, 8, 8, 8, 8, 8, 8, 8, 8, 8, 8, 8])
  const LEFT := SpanId([1, 1, 1, 1, 1, 1, 1, 1])
  const RIGHT := SpanId([2, 2, 2, 2, 2, 2, 2, 2])

  function Bearing(id: TraceId, spanId: SpanId, attrs: seq<Attribute>): Arrival {
    Arrival(id, NewSpan(spanId, None, "", 0, 0, "", 0, true, None, attrs), 0)
  }

  // Three spans: one that takes all places but one, and two that compete for the last.
  function Contest(cap: nat): (Arrival, Arrival, Arrival)
    requires cap >= 1
  {
    (Bearing(FILLER, LEFT, LongKeys(cap - 1)),
     Bearing(TRACE, LEFT, [(LongKey(cap), Bool(true))]),
     Bearing(TRACE, RIGHT, [(LongKey(cap + 1), Bool(true))]))
  }

  lemma OnePlaceLeft(budget: nat, cap: nat)
    requires cap >= 1
    ensures
      var (filler, x, y) := Contest(cap);
      var s := Inserted(NewStore(budget, cap), [filler]);
      && Consistent(s)
      && |s.keys.strings| + 1 == s.keys.cap
      && TRACE !in s.traces
      && LongKey(cap) !in s.keys.strings && LongKey(cap + 1) !in s.keys.strings
  {
    var s0, filler := NewStore(budget, cap), Contest(cap).0;
    NewIsConsistent(budget, cap);
    ConsistentInserted(s0, [filler]);
    InsertedSnoc(s0, [filler]);
    assert [filler][..0] == [];
    InsertedNone(s0);
    FillKeys(s0.keys, cap - 1);
    var s := Inserted(s0, [filler]);
    assert TRACE.bytes[0] != FILLER.bytes[0];
    forall i | 0 <= i < |s.keys.strings| ensures |s.keys.strings[i]| < cap {
      assert s.keys.strings[i] == LongKey(i);
    }
  }

  /** Whatever the cap, three spans with distinct ids leave a new store different in two orders. */
  lemma OrderMattersAtEveryCap(budget: nat, cap: nat)
    requires cap >= 1
    ensures
      var (filler, x, y) := Contest(cap);
      && DistinctSpans([filler, x, y]) && !Fits(Inserts([filler, x, y]), cap)
      && Consistent(Inserted(NewStore(budget, cap), [filler, x, y]))
      && Consistent(Inserted(NewStore(budget, cap), [filler, y, x]))
      && View(Inserted(NewStore(budget, cap), [filler, x, y]), TRACE, RIGHT)
         != View(Inserted(NewStore(budget, cap), [filler, y, x]), TRACE, RIGHT)
  {
    hide View, Inserted, Consistent, Fits;
    var s0 := NewStore(budget, cap);
    var (filler, x, y) := Contest(cap);
    assert LEFT.bytes[0] != RIGHT.bytes[0];
    assert TRACE.bytes[0] != FILLER.bytes[0];
    assert |LongKey(cap)| != |LongKey(cap + 1)|;
    OnePlaceLeft(budget, cap);
    OrderMattersAtTheCap(Inserted(s0, [filler]), x, LongKey(cap), y, LongKey(cap + 1));
    ThenTwo(s0, filler, x, y);
    ThenTwo(s0, filler, y, x);
    if Fits(Inserts([filler, x, y]), cap) {
      ShowsFittingLog(budget, cap, [filler, x, y], TRACE, RIGHT);
      OnlyCopy([filler, x, y], 2);
      assert false;
    }
  }

  lemma ThenTwo(s: StoreState, filler: Arrival, x: Arrival, y: Arrival)
    ensures Inserted(s, [filler, x, y]) == Inserted(Inserted(s, [filler]), [x, y])
  {
    hide Run, ValidRun, Inserts;
    InsertsConcat([filler], [x, y]);
    assert [filler] + [x, y] == [filler, x, y];
    RunConcat(s, Inserts([filler]), Inserts([x, y]));
  }

  lemma InsertsConcat(a: seq<Arrival>, b: seq<Arrival>)
    ensures Inserts(a + b) == Inserts(a) + Inserts(b)
  {
  }
}
