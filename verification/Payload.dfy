/**
 The columnar trace payload: one entry per span in every column, with names, status messages and
 service names as indices into one table of distinct strings.
 */
module Payloads {
  import opened Types
  import opened Interners
  import opened Rows
  import opened Sums
  import opened Csr
  import opened Links
  import opened Traces

  // `id` is the 32-bit index of the place where `s` stands in the table.
  ghost predicate Refers(strings: seq<string>, id: nat, s: string) {
    exists i | 0 <= i < |strings| :: strings[i] == s && id == AsU32(i)
  }

  lemma RefersStays(strings: seq<string>, more: seq<string>, id: nat, s: string)
    requires strings <= more && Refers(strings, id, s)
    ensures Refers(more, id, s)
  {
    var i :| 0 <= i < |strings| && strings[i] == s && id == AsU32(i);
    assert more[i] == s;
  }

  // Past 2^32 strings the index names another one: the string in place 2^32 is indexed as 0.
  lemma RefersWrongly(strings: seq<string>, id: nat)
    requires |strings| > U32_LIMIT && NoRepeats(strings) && Refers(strings, id, strings[U32_LIMIT])
    ensures id == 0 && strings[0] != strings[U32_LIMIT]
  {
  }

  lemma RefersExactly(strings: seq<string>, id: nat, s: string)
    requires |strings| <= U32_LIMIT && Refers(strings, id, s)
    ensures id < |strings| && strings[id] == s
  {
    var i :| 0 <= i < |strings| && strings[i] == s && id == AsU32(i);
    assert AsU32(i) == i;
  }

  lemma RefersIsMember(strings: seq<string>, id: nat, s: string)
    requires Refers(strings, id, s)
    ensures s in strings
  {
  }

  class StringTable {
    var strings: seq<string>
    var index: map<string, nat>

    ghost predicate Valid()
      reads this
    {
      && NoRepeats(strings)
      && (forall i | 0 <= i < |strings| :: strings[i] in index)
      && (forall s | s in index :: Refers(strings, index[s], s))
    }

    constructor ()
      ensures Valid() && strings == []
    {
      strings, index := [], map[];
    }

    method Intern(s: string) returns (id: nat)
      requires Valid()
      modifies this
      ensures Valid()
      ensures strings == if s in old(strings) then old(strings) else old(strings) + [s]
      ensures Refers(strings, id, s)
    {
      if s in index {
        RefersIsMember(strings, index[s], s);
        return index[s];
      }
      id := AsU32(|strings|);
      strings := strings + [s];
      index := index[s := id];
      assert strings[|strings| - 1] == s;
      forall t | t in index ensures Refers(strings, index[t], t) {
        if t != s {
          RefersStays(old(strings), strings, index[t], t);
        }
      }
    }
  }

  datatype Payload = Payload(
    generation: nat,
    stringTable: seq<string>,
    nameIdx: seq<nat>,
    parentIdx: seq<Option<nat>>,
    startTimes: seq<nat>,
    endTimes: seq<nat>,
    statusMessageIdx: seq<nat>,
    statusCodes: seq<int>,
    orphan: seq<bool>,
    unknownServices: seq<bool>,
    serviceIdx: seq<Option<nat>>)

  // One span as a reader of the payload rebuilds it.
  datatype Shown = Shown(
    name: string,
    parent: Option<nat>,
    startTime: nat,
    endTime: nat,
    statusMessage: string,
    statusCode: int,
    orphan: bool,
    unknownService: bool,
    service: Option<string>)

  predicate HasColumns(p: Payload, n: nat) {
    && |p.nameIdx| == |p.parentIdx| == |p.startTimes| == |p.endTimes| == |p.statusMessageIdx| == n
    && |p.statusCodes| == |p.orphan| == |p.unknownServices| == |p.serviceIdx| == n
  }

  // Every index a span uses falls inside the string table.
  predicate IndicesInside(p: Payload, i: nat)
    requires HasColumns(p, |p.nameIdx|) && i < |p.nameIdx|
  {
    && p.nameIdx[i] < |p.stringTable|
    && p.statusMessageIdx[i] < |p.stringTable|
    && (p.serviceIdx[i].Some? ==> p.serviceIdx[i].value < |p.stringTable|)
  }

  function Rebuild(p: Payload, i: nat): Shown
    requires HasColumns(p, |p.nameIdx|) && i < |p.nameIdx| && IndicesInside(p, i)
  {
    Shown(p.stringTable[p.nameIdx[i]], p.parentIdx[i], p.startTimes[i], p.endTimes[i],
          p.stringTable[p.statusMessageIdx[i]], p.statusCodes[i], p.orphan[i], p.unknownServices[i],
          if p.serviceIdx[i].Some? then Some(p.stringTable[p.serviceIdx[i].value]) else None)
  }

  // The same span as the store holds it.
  ghost function Stored(rows: seq<Row>, services: Table, i: nat): Shown
    requires i < |rows| && ServiceResolves(rows[i], services)
  {
    var row := rows[i];
    Shown(row.name, ParentSlot(rows, i), row.startTime, row.endTime, row.statusMessage, row.statusCode,
          IsOrphan(rows, i), row.unknownService, DecodeService(services, row.serviceId))
  }

  ghost predicate ServiceResolves(row: Row, services: Table) {
    row.serviceId.Some? ==> row.serviceId.value < |services.strings|
  }

  ghost predicate ServicesResolve(rows: seq<Row>, services: Table) {
    forall i | 0 <= i < |rows| :: ServiceResolves(rows[i], services)
  }

  // The three string columns of the first spans, each entry referring to its own string.
  ghost predicate StringsRefer(strings: seq<string>, names: seq<nat>, messages: seq<nat>, serviceIdx: seq<Option<nat>>,
                               rows: seq<Row>, services: Table)
    requires ServicesResolve(rows, services)
  {
    && |names| == |messages| == |serviceIdx| <= |rows|
    && forall i | 0 <= i < |names| ::
         && Refers(strings, names[i], rows[i].name)
         && Refers(strings, messages[i], rows[i].statusMessage)
         && serviceIdx[i].Some? == rows[i].serviceId.Some?
         && (serviceIdx[i].Some? ==>
               Refers(strings, serviceIdx[i].value, DecodeService(services, rows[i].serviceId).value))
  }

  lemma StringsStay(strings: seq<string>, more: seq<string>, names: seq<nat>, messages: seq<nat>,
                    serviceIdx: seq<Option<nat>>, rows: seq<Row>, services: Table)
    requires strings <= more && ServicesResolve(rows, services)
    requires StringsRefer(strings, names, messages, serviceIdx, rows, services)
    ensures StringsRefer(more, names, messages, serviceIdx, rows, services)
  {
    forall i | 0 <= i < |names|
      ensures Refers(more, names[i], rows[i].name) && Refers(more, messages[i], rows[i].statusMessage)
      ensures serviceIdx[i].Some? ==>
                Refers(more, serviceIdx[i].value, DecodeService(services, rows[i].serviceId).value)
    {
      RefersStays(strings, more, names[i], rows[i].name);
      RefersStays(strings, more, messages[i], rows[i].statusMessage);
      if serviceIdx[i].Some? {
        RefersStays(strings, more, serviceIdx[i].value, DecodeService(services, rows[i].serviceId).value);
      }
    }
  }

  // The strings one span, or a whole trace, puts into the table.
  ghost function SpanStrings(row: Row, services: Table): set<string>
    requires ServiceResolves(row, services)
  {
    Named(row.name, row.statusMessage, DecodeService(services, row.serviceId))
  }

  function Named(name: string, message: string, service: Option<string>): set<string> {
    {name} + {message} + if service.Some? then {service.value} else {}
  }

  ghost function TraceStrings(rows: seq<Row>, services: Table): set<string>
    requires ServicesResolve(rows, services)
  {
    set i, s | 0 <= i < |rows| && s in SpanStrings(rows[i], services) :: s
  }

  lemma TraceStringsSnoc(rows: seq<Row>, services: Table, n: nat)
    requires n < |rows| && ServicesResolve(rows, services)
    ensures TraceStrings(rows[..n + 1], services) == TraceStrings(rows[..n], services) + SpanStrings(rows[n], services)
  {
    hide SpanStrings;
    var front, longer := rows[..n], rows[..n + 1];
    assert forall i | 0 <= i < n :: longer[i] == front[i];
    assert longer[n] == rows[n];
    forall s
      ensures s in TraceStrings(longer, services)
              <==> s in TraceStrings(front, services) + SpanStrings(rows[n], services)
    {
      if i :| 0 <= i < |longer| && s in SpanStrings(longer[i], services) {
        assert i < n ==> s in SpanStrings(front[i], services);
      }
      if i :| 0 <= i < |front| && s in SpanStrings(front[i], services) {
        assert s in SpanStrings(longer[i], services);
      }
    }
  }

  // The table holds each of these strings, and only them.
  ghost predicate HoldsExactly(strings: seq<string>, all: set<string>) {
    forall s :: s in strings <==> s in all
  }

  lemma HoldsMore(strings: seq<string>, all: set<string>, s: string, more: seq<string>)
    requires HoldsExactly(strings, all) && more == if s in strings then strings else strings + [s]
    ensures strings <= more
    ensures HoldsExactly(more, all + {s})
  {
  }

  lemma HoldsCount(strings: seq<string>, all: set<string>)
    requires NoRepeats(strings) && HoldsExactly(strings, all)
    ensures |strings| == |all|
  {
    DistinctCount(strings, all);
    if |strings| < |all| {
      var x := SomethingIsMissing(strings, all);
      assert false;
    }
  }

  // One span's three strings, entered into the table in column order.
  method InternStrings(table: StringTable, name: string, message: string, service: Option<string>,
                       ghost all: set<string>)
    returns (nameId: nat, messageId: nat, serviceId: Option<nat>)
    requires table.Valid() && HoldsExactly(table.strings, all)
    modifies table
    ensures table.Valid() && old(table.strings) <= table.strings
    ensures HoldsExactly(table.strings, all + Named(name, message, service))
    ensures Refers(table.strings, nameId, name) && Refers(table.strings, messageId, message)
    ensures serviceId.Some? == service.Some?
    ensures serviceId.Some? ==> Refers(table.strings, serviceId.value, service.value)
  {
    hide Refers, HoldsExactly, StringTable.Valid;
    nameId := table.Intern(name);
    ghost var first := table.strings;
    HoldsMore(old(table.strings), all, name, first);
    messageId := table.Intern(message);
    ghost var second := table.strings;
    HoldsMore(first, all + {name}, message, second);
    RefersStays(first, second, nameId, name);
    serviceId := None;
    if service.Some? {
      var id := table.Intern(service.value);
      HoldsMore(second, all + {name} + {message}, service.value, table.strings);
      RefersStays(second, table.strings, nameId, name);
      RefersStays(second, table.strings, messageId, message);
      serviceId := Some(id);
      assert all + {name} + {message} + {service.value} == all + Named(name, message, service);
    } else {
      assert all + {name} + {message} == all + Named(name, message, service);
    }
  }

  // The strings of one slot, the service looked up in the store's interner.
  method InternSpan(table: StringTable, trace: Trace, services: Interner, idx: nat, ghost all: set<string>)
    returns (name: nat, message: nat, service: Option<nat>)
    requires table.Valid() && trace.Valid() && services.Valid()
    requires idx < |trace.rows| && ServiceResolves(trace.rows[idx], services.State())
    requires HoldsExactly(table.strings, all)
    modifies table
    ensures table.Valid() && old(table.strings) <= table.strings
    ensures HoldsExactly(table.strings, all + SpanStrings(trace.rows[idx], services.State()))
    ensures Refers(table.strings, name, trace.rows[idx].name)
    ensures Refers(table.strings, message, trace.rows[idx].statusMessage)
    ensures service.Some? == trace.rows[idx].serviceId.Some?
    ensures service.Some? ==>
              Refers(table.strings, service.value, DecodeService(services.State(), trace.rows[idx].serviceId).value)
  {
    hide Refers, HoldsExactly, Named, StringTable.Valid, Flat, Offsets, Trace.LinksMatch, CsrMatches;
    var serviceId := trace.serviceIds[idx];
    var known := if serviceId.Some? then Some(services.Get(serviceId.value)) else None;
    name, message, service := InternStrings(table, trace.names[idx], trace.statusMessages[idx], known, all);
  }

  // Every span of the trace is rebuilt from the payload exactly as the store holds it.
  ghost predicate RebuildsAll(p: Payload, rows: seq<Row>, services: Table)
    requires HasColumns(p, |rows|) && ServicesResolve(rows, services)
  {
    forall i | 0 <= i < |rows| :: IndicesInside(p, i) && Rebuild(p, i) == Stored(rows, services, i)
  }

  /**
   Every column has one entry per span, the table lists the trace's names, messages and services
   once each, and every index falls inside it and every span is rebuilt exactly as stored if and
   only if the trace has at most 2^32 different strings.
   */
  method GetTrace(trace: Trace, services: Interner) returns (payload: Payload)
    requires trace.Valid() && services.Valid() && ServicesResolve(trace.rows, services.State())
    ensures payload.generation == trace.generation
    ensures HasColumns(payload, |trace.rows|)
    ensures NoRepeats(payload.stringTable)
    ensures HoldsExactly(payload.stringTable, TraceStrings(trace.rows, services.State()))
    ensures payload.parentIdx == trace.parentIdx && payload.orphan == trace.orphan
    ensures payload.startTimes == trace.startTimes && payload.endTimes == trace.endTimes
    ensures payload.statusCodes == trace.statusCodes && payload.unknownServices == trace.unknownServices
    ensures |TraceStrings(trace.rows, services.State())| <= U32_LIMIT ==>
              forall i | 0 <= i < |trace.rows| ::
                && IndicesInside(payload, i)
                && payload.stringTable[payload.nameIdx[i]] == trace.rows[i].name
                && payload.stringTable[payload.statusMessageIdx[i]] == trace.rows[i].statusMessage
                && (payload.serviceIdx[i].Some? <==> trace.rows[i].serviceId.Some?)
                && (payload.serviceIdx[i].Some? ==>
                      payload.stringTable[payload.serviceIdx[i].value]
                      == services.State().strings[trace.rows[i].serviceId.value])
    ensures RebuildsAll(payload, trace.rows, services.State())
            <==> |TraceStrings(trace.rows, services.State())| <= U32_LIMIT
  {
    hide Trace.Valid, Trace.WellFormed, Interner.Valid, Interner.State;
    hide Refers, NoRepeats, HoldsExactly, TraceStrings, SpanStrings, Rebuild, Stored, IndicesInside, RebuildsAll;
    var table := new StringTable();
    var names, messages, serviceIdx := [], [], [];
    var parents, starts, ends, codes, orphans, unknown := [], [], [], [], [], [];
    ghost var rows, known := trace.rows, services.State();
    var n := trace.SpanCount();
    ColumnLengths(trace);
    NoStrings(rows, known);
    for idx := 0 to n
      invariant table.Valid() && fresh(table)
      invariant trace.Valid() && services.Valid() && trace.rows == rows && services.State() == known
      invariant |names| == idx
      invariant HoldsExactly(table.strings, TraceStrings(rows[..idx], known))
      invariant StringsRefer(table.strings, names, messages, serviceIdx, rows, known)
      invariant parents == trace.parentIdx[..idx] && orphans == trace.orphan[..idx]
      invariant starts == trace.startTimes[..idx] && ends == trace.endTimes[..idx]
      invariant codes == trace.statusCodes[..idx] && unknown == trace.unknownServices[..idx]
    {
      ghost var before := table.strings;
      var name, message, service := InternSpan(table, trace, services, idx, TraceStrings(rows[..idx], known));
      TraceStringsSnoc(rows, known, idx);
      StringsStay(before, table.strings, names, messages, serviceIdx, rows, known);
      names := names + [name];
      parents := parents + [trace.parentIdx[idx]];
      starts := starts + [trace.startTimes[idx]];
      ends := ends + [trace.endTimes[idx]];
      messages := messages + [message];
      codes := codes + [trace.statusCodes[idx]];
      orphans := orphans + [trace.orphan[idx]];
      unknown := unknown + [trace.unknownServices[idx]];
      serviceIdx := serviceIdx + [service];
    }
    assert rows[..n] == rows;
    payload := Payload(trace.generation, table.strings, names, parents, starts, ends,
                       messages, codes, orphans, unknown, serviceIdx);
    PayloadRebuilds(trace, services, payload);
    if |TraceStrings(rows, known)| <= U32_LIMIT {
      ColumnsName(payload, rows, known);
    }
  }

  // What exact rebuilding says of the three string columns.
  lemma ColumnsName(p: Payload, rows: seq<Row>, services: Table)
    requires HasColumns(p, |rows|) && ServicesResolve(rows, services) && RebuildsAll(p, rows, services)
    ensures forall i | 0 <= i < |rows| ::
              && IndicesInside(p, i)
              && p.stringTable[p.nameIdx[i]] == rows[i].name
              && p.stringTable[p.statusMessageIdx[i]] == rows[i].statusMessage
              && (p.serviceIdx[i].Some? <==> rows[i].serviceId.Some?)
              && (p.serviceIdx[i].Some? ==>
                    p.stringTable[p.serviceIdx[i].value] == services.strings[rows[i].serviceId.value])
  {
    forall i | 0 <= i < |rows|
      ensures
        && IndicesInside(p, i)
        && p.stringTable[p.nameIdx[i]] == rows[i].name
        && p.stringTable[p.statusMessageIdx[i]] == rows[i].statusMessage
        && (p.serviceIdx[i].Some? <==> rows[i].serviceId.Some?)
        && (p.serviceIdx[i].Some? ==>
              p.stringTable[p.serviceIdx[i].value] == services.strings[rows[i].serviceId.value])
    {
      assert IndicesInside(p, i) && Rebuild(p, i) == Stored(rows, services, i);
    }
  }

  lemma NoStrings(rows: seq<Row>, services: Table)
    requires ServicesResolve(rows, services)
    ensures HoldsExactly([], TraceStrings(rows[..0], services))
  {
  }

  lemma ColumnLengths(trace: Trace)
    requires trace.Valid()
    ensures |trace.parentIdx| == |trace.orphan| == |trace.startTimes| == |trace.endTimes| == |trace.rows|
    ensures |trace.statusCodes| == |trace.unknownServices| == |trace.rows|
  {
  }

  lemma PayloadRebuilds(trace: Trace, services: Interner, p: Payload)
    requires trace.Valid() && services.Valid() && ServicesResolve(trace.rows, services.State())
    requires HasColumns(p, |trace.rows|) && NoRepeats(p.stringTable)
    requires HoldsExactly(p.stringTable, TraceStrings(trace.rows, services.State()))
    requires StringsRefer(p.stringTable, p.nameIdx, p.statusMessageIdx, p.serviceIdx, trace.rows, services.State())
    requires p.parentIdx == trace.parentIdx && p.orphan == trace.orphan
    requires p.startTimes == trace.startTimes && p.endTimes == trace.endTimes
    requires p.statusCodes == trace.statusCodes && p.unknownServices == trace.unknownServices
    ensures RebuildsAll(p, trace.rows, services.State())
            <==> |TraceStrings(trace.rows, services.State())| <= U32_LIMIT
  {
    hide Refers, HoldsExactly, TraceStrings, Flat, IndexOf, PendingOf;
    HoldsCount(p.stringTable, TraceStrings(trace.rows, services.State()));
    if |p.stringTable| <= U32_LIMIT {
      forall i | 0 <= i < |trace.rows|
        ensures IndicesInside(p, i) && Rebuild(p, i) == Stored(trace.rows, services.State(), i)
      {
        var row := trace.rows[i];
        RefersExactly(p.stringTable, p.nameIdx[i], row.name);
        RefersExactly(p.stringTable, p.statusMessageIdx[i], row.statusMessage);
        if p.serviceIdx[i].Some? {
          RefersExactly(p.stringTable, p.serviceIdx[i].value, DecodeService(services.State(), row.serviceId).value);
        }
      }
    } else {
      var i := SpanOfString(trace.rows, services.State(), p.stringTable, U32_LIMIT);
      WrongString(trace.rows, services.State(), p, i);
    }
  }

  // The span a string of the table came from.
  lemma SpanOfString(rows: seq<Row>, services: Table, strings: seq<string>, k: nat) returns (i: nat)
    requires ServicesResolve(rows, services) && HoldsExactly(strings, TraceStrings(rows, services))
    requires k < |strings|
    ensures i < |rows| && strings[k] in SpanStrings(rows[i], services)
  {
    hide SpanStrings;
    assert strings[k] in strings;
    i :| 0 <= i < |rows| && strings[k] in SpanStrings(rows[i], services);
  }

  // A span that uses the string in place 2^32 is rebuilt with the string in place 0 instead.
  lemma WrongString(rows: seq<Row>, services: Table, p: Payload, i: nat)
    requires ServicesResolve(rows, services) && HasColumns(p, |rows|) && NoRepeats(p.stringTable)
    requires StringsRefer(p.stringTable, p.nameIdx, p.statusMessageIdx, p.serviceIdx, rows, services)
    requires |p.stringTable| > U32_LIMIT && i < |rows|
    requires p.stringTable[U32_LIMIT] in SpanStrings(rows[i], services)
    ensures IndicesInside(p, i) ==> Rebuild(p, i) != Stored(rows, services, i)
  {
    hide Refers, NoRepeats;
    var s, row := p.stringTable[U32_LIMIT], rows[i];
    if row.name == s {
      RefersWrongly(p.stringTable, p.nameIdx[i]);
    } else if row.statusMessage == s {
      RefersWrongly(p.stringTable, p.statusMessageIdx[i]);
    } else {
      RefersWrongly(p.stringTable, p.serviceIdx[i].value);
    }
  }
}
