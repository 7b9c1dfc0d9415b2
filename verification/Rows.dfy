/**
 The plain reading of a trace: one row per span, in slot order. Everything the columnar trace
 keeps in its indexes and offsets is a function of these rows.
 */
module Rows {
  import opened Types

  datatype Row = Row(
    spanId: SpanId,
    parent: Option<SpanId>,
    name: string,
    startTime: nat,
    endTime: nat,
    statusMessage: string,
    statusCode: int,
    unknownService: bool,
    serviceId: Option<nat>,
    attrs: seq<(nat, AttrValue)>)

  ghost predicate DistinctIds(rows: seq<Row>) {
    forall i, j | 0 <= i < j < |rows| :: rows[i].spanId != rows[j].spanId
  }

  ghost function SlotOf(rows: seq<Row>, id: SpanId): (slot: Option<nat>)
    ensures slot.Some? ==> slot.value < |rows| && rows[slot.value].spanId == id
    ensures slot.None? ==> forall i | 0 <= i < |rows| :: rows[i].spanId != id
  {
    if exists i | 0 <= i < |rows| :: rows[i].spanId == id then
      var i :| 0 <= i < |rows| && rows[i].spanId == id;
      Some(i)
    else
      None
  }

  // The slot a span's first-declared parent occupies, if that parent has arrived.
  ghost function ParentSlot(rows: seq<Row>, i: nat): (slot: Option<nat>)
    requires i < |rows|
    ensures slot.Some? ==> slot.value < |rows|
  {
    if rows[i].parent.Some? then SlotOf(rows, rows[i].parent.value) else None
  }

  ghost predicate IsOrphan(rows: seq<Row>, i: nat)
    requires i < |rows|
  {
    rows[i].parent.Some? && SlotOf(rows, rows[i].parent.value).None?
  }

  function RowOf(span: NewSpan, serviceId: Option<nat>, attrs: seq<(nat, AttrValue)>): Row {
    Row(span.spanId, span.parentSpanId, span.name, span.startTime, span.endTime,
        span.statusMessage, span.statusCode, span.unknownService, serviceId, attrs)
  }

  // A new id takes the next slot; a known id is overwritten in its slot, except for its parent.
  ghost function PutRow(rows: seq<Row>, row: Row): (rows': seq<Row>)
    ensures DistinctIds(rows) ==> DistinctIds(rows')
    ensures |rows| <= |rows'|
    ensures forall i | 0 <= i < |rows| :: rows'[i].spanId == rows[i].spanId && rows'[i].parent == rows[i].parent
  {
    var slot := SlotOf(rows, row.spanId);
    if slot.Some? then rows[slot.value := row.(parent := rows[slot.value].parent)]
    else rows + [row]
  }

  lemma SlotIsUnique(rows: seq<Row>, i: nat)
    requires DistinctIds(rows)
    requires i < |rows|
    ensures SlotOf(rows, rows[i].spanId) == Some(i)
  {
  }

  lemma SlotAfterAppend(rows: seq<Row>, row: Row, id: SpanId)
    requires DistinctIds(rows + [row])
    ensures SlotOf(rows + [row], id) == if id == row.spanId then Some(|rows|) else SlotOf(rows, id)
    ensures SlotOf(rows, row.spanId).None?
  {
    var all := rows + [row];
    assert all[|rows|] == row;
    assert forall i | 0 <= i < |rows| :: rows[i] == all[i];
    var slot := SlotOf(rows, id);
    if slot.Some? {
      assert all[slot.value] == rows[slot.value];
      SlotIsUnique(all, slot.value);
    }
  }

  // Approximate heap use, the quantity the eviction budget is measured in.
  const SPAN_FIXED_BYTES: nat := 64
  const ATTR_FIXED_BYTES: nat := 24

  function RowBytes(row: Row): nat {
    SPAN_FIXED_BYTES + Utf8Len(row.name) + |row.attrs| * ATTR_FIXED_BYTES
  }

  function RowsBytes(rows: seq<Row>): nat {
    if rows == [] then 0 else RowsBytes(rows[..|rows| - 1]) + RowBytes(rows[|rows| - 1])
  }
}
