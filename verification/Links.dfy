/**
 Parent resolution. The id index, the two link columns and the table of children waiting for a
 parent that has not arrived are each a function of the rows; the lemmas say how appending a span
 and overwriting one changes them.
 */
module Links {
  import opened Types
  import opened Rows

  ghost function IdsOf(rows: seq<Row>): set<SpanId> {
    set row | row in rows :: row.spanId
  }

  ghost function IndexOf(rows: seq<Row>): map<SpanId, nat> {
    map id | id in IdsOf(rows) && SlotOf(rows, id).Some? :: SlotOf(rows, id).value
  }

  // A link points at the slot of the first-declared parent exactly when that parent is present ...
  ghost function ParentSlots(rows: seq<Row>): (links: seq<Option<nat>>)
    ensures |links| == |rows|
  {
    seq(|rows|, i requires 0 <= i < |rows| => ParentSlot(rows, i))
  }

  // ... and a span is an orphan exactly when it declares a parent that is absent.
  ghost function OrphanFlags(rows: seq<Row>): (flags: seq<bool>)
    ensures |flags| == |rows|
  {
    seq(|rows|, i requires 0 <= i < |rows| => IsOrphan(rows, i))
  }

  // The slots that declare `parent`, in slot order.
  function WaitersOf(rows: seq<Row>, parent: SpanId): seq<nat> {
    if rows == [] then [] else
      WaitersOf(rows[..|rows| - 1], parent)
      + if rows[|rows| - 1].parent == Some(parent) then [|rows| - 1] else []
  }

  ghost function MissingParents(rows: seq<Row>): set<SpanId> {
    set row | row in rows && row.parent.Some? && SlotOf(rows, row.parent.value).None? :: row.parent.value
  }

  // Who waits for whom: exactly the absent parents have an entry.
  ghost function PendingOf(rows: seq<Row>): map<SpanId, seq<nat>> {
    map id | id in MissingParents(rows) :: WaitersOf(rows, id)
  }

  lemma {:induction false} WaitersAscend(rows: seq<Row>, parent: SpanId)
    ensures forall a, b | 0 <= a < b < |WaitersOf(rows, parent)| ::
              WaitersOf(rows, parent)[a] < WaitersOf(rows, parent)[b]
    ensures forall i :: i in WaitersOf(rows, parent) <==> 0 <= i < |rows| && rows[i].parent == Some(parent)
  {
    if rows != [] {
      var front := rows[..|rows| - 1];
      WaitersAscend(front, parent);
      var slots := WaitersOf(front, parent);
      assert forall a | 0 <= a < |slots| :: slots[a] in slots;
    }
  }

  // Each orphan is listed exactly once, under the id it is missing, and nothing else is listed.
  lemma PendingIsExact(rows: seq<Row>, i: nat, id: SpanId)
    requires i < |rows|
    ensures IsOrphan(rows, i) && rows[i].parent == Some(id)
            <==> id in PendingOf(rows) && i in PendingOf(rows)[id]
    ensures id in PendingOf(rows) ==>
              && SlotOf(rows, id).None?
              && PendingOf(rows)[id] != []
              && forall a, b | 0 <= a < b < |PendingOf(rows)[id]| :: PendingOf(rows)[id][a] < PendingOf(rows)[id][b]
  {
    WaitersAscend(rows, id);
    assert rows[i] in rows;
    if id in PendingOf(rows) {
      var row :| row in rows && row.parent == Some(id);
      var k :| 0 <= k < |rows| && rows[k] == row;
      assert k in WaitersOf(rows, id);
    }
  }

  lemma IndexLookup(rows: seq<Row>, id: SpanId)
    ensures SlotOf(rows, id) == if id in IndexOf(rows) then Some(IndexOf(rows)[id]) else None
  {
    var slot := SlotOf(rows, id);
    if slot.Some? {
      assert rows[slot.value] in rows;
    }
  }

  lemma IndexAppend(rows: seq<Row>, row: Row)
    requires DistinctIds(rows)
    requires row.spanId !in IndexOf(rows)
    ensures DistinctIds(rows + [row])
    ensures IndexOf(rows + [row]) == IndexOf(rows)[row.spanId := |rows|]
  {
    IndexLookup(rows, row.spanId);
    forall id
      ensures id in IndexOf(rows + [row]) <==> id in IndexOf(rows)[row.spanId := |rows|]
      ensures id in IndexOf(rows + [row]) ==> IndexOf(rows + [row])[id] == IndexOf(rows)[row.spanId := |rows|][id]
    {
      SlotAfterAppend(rows, row, id);
      IndexLookup(rows, id);
      IndexLookup(rows + [row], id);
    }
  }

  function PushWaiting(pending: map<SpanId, seq<nat>>, parent: SpanId, slot: nat): map<SpanId, seq<nat>> {
    pending[parent := (if parent in pending then pending[parent] else []) + [slot]]
  }

  // The table after a new span has announced the parent it is missing, if it is missing one.
  ghost function Announced(rows: seq<Row>, row: Row): map<SpanId, seq<nat>> {
    if row.parent.Some? && SlotOf(rows, row.parent.value).None?
    then PushWaiting(PendingOf(rows), row.parent.value, |rows|)
    else PendingOf(rows)
  }

  lemma PendingLookup(rows: seq<Row>, id: SpanId)
    requires SlotOf(rows, id).None?
    ensures WaitersOf(rows, id) == if id in PendingOf(rows) then PendingOf(rows)[id] else []
    ensures id in PendingOf(rows) <==> WaitersOf(rows, id) != []
  {
    WaitersAscend(rows, id);
    if id in PendingOf(rows) {
      var row :| row in rows && row.parent == Some(id);
      var k :| 0 <= k < |rows| && rows[k] == row;
      assert k in WaitersOf(rows, id);
    }
    if WaitersOf(rows, id) != [] {
      var k := WaitersOf(rows, id)[0];
      assert k in WaitersOf(rows, id);
      assert rows[k] in rows;
    }
  }

  // Whoever waits for `id` after the announcement is listed under it, the new span included.
  lemma AnnouncedLookup(rows: seq<Row>, row: Row, id: SpanId)
    requires SlotOf(rows, id).None?
    ensures WaitersOf(rows + [row], id) == if id in Announced(rows, row) then Announced(rows, row)[id] else []
    ensures id in Announced(rows, row) <==> WaitersOf(rows + [row], id) != []
  {
    assert (rows + [row])[..|rows|] == rows;
    PendingLookup(rows, id);
  }

  lemma PendingAppend(rows: seq<Row>, row: Row)
    requires DistinctIds(rows + [row])
    ensures PendingOf(rows + [row]) == Announced(rows, row) - {row.spanId}
  {
    var all, table := rows + [row], Announced(rows, row) - {row.spanId};
    forall id
      ensures id in PendingOf(all) <==> id in table
      ensures id in PendingOf(all) ==> PendingOf(all)[id] == table[id]
    {
      SlotAfterAppend(rows, row, id);
      if SlotOf(all, id).None? {
        PendingLookup(all, id);
        AnnouncedLookup(rows, row, id);
      }
    }
  }

  // The two link columns with the given slots pointed at `parent`.
  function Patched(links: seq<Option<nat>>, slots: seq<nat>, parent: nat): seq<Option<nat>> {
    seq(|links|, i requires 0 <= i < |links| => if i in slots then Some(parent) else links[i])
  }

  function Adopted(flags: seq<bool>, slots: seq<nat>): seq<bool> {
    seq(|flags|, i requires 0 <= i < |flags| => flags[i] && i !in slots)
  }

  lemma NothingToPatch(links: seq<Option<nat>>, flags: seq<bool>, parent: nat)
    ensures Patched(links, [], parent) == links
    ensures Adopted(flags, []) == flags
  {
  }

  ghost function FoundParent(rows: seq<Row>, row: Row): Option<nat> {
    if row.parent.Some? then SlotOf(rows, row.parent.value) else None
  }

  lemma SlotsAppend(rows: seq<Row>, row: Row, i: nat)
    requires DistinctIds(rows + [row])
    requires i <= |rows|
    ensures
      var link := if i < |rows| then ParentSlot(rows, i) else FoundParent(rows, row);
      var lost := if i < |rows| then IsOrphan(rows, i) else row.parent.Some? && FoundParent(rows, row).None?;
      var waits := (rows + [row])[i].parent == Some(row.spanId);
      && ParentSlot(rows + [row], i) == (if waits then Some(|rows|) else link)
      && IsOrphan(rows + [row], i) == (lost && !waits)
  {
    var all := rows + [row];
    if all[i].parent.Some? {
      SlotAfterAppend(rows, row, all[i].parent.value);
    }
  }

  // Patching the children that waited for the new span restores both link columns.
  lemma LinksAppend(rows: seq<Row>, row: Row)
    requires DistinctIds(rows + [row])
    ensures ParentSlots(rows + [row])
         == Patched(ParentSlots(rows) + [FoundParent(rows, row)], WaitersOf(rows + [row], row.spanId), |rows|)
    ensures OrphanFlags(rows + [row])
         == Adopted(OrphanFlags(rows) + [row.parent.Some? && FoundParent(rows, row).None?],
                    WaitersOf(rows + [row], row.spanId))
  {
    var all := rows + [row];
    var waiters := WaitersOf(all, row.spanId);
    var links, flags := ParentSlots(rows) + [FoundParent(rows, row)],
                        OrphanFlags(rows) + [row.parent.Some? && FoundParent(rows, row).None?];
    WaitersAscend(all, row.spanId);
    hide WaitersOf, SlotOf, ParentSlot, IsOrphan, FoundParent, DistinctIds;
    forall i | 0 <= i < |all|
      ensures ParentSlots(all)[i] == Patched(links, waiters, |rows|)[i]
      ensures OrphanFlags(all)[i] == Adopted(flags, waiters)[i]
    {
      SlotsAppend(rows, row, i);
    }
  }

  // Two traces whose spans agree on ids and first-declared parents have the same links.
  ghost predicate SameShape(rows: seq<Row>, rows': seq<Row>) {
    && |rows| == |rows'|
    && forall i | 0 <= i < |rows| :: rows'[i].spanId == rows[i].spanId && rows'[i].parent == rows[i].parent
  }

  lemma SameShapeSameSlots(rows: seq<Row>, rows': seq<Row>, id: SpanId)
    requires DistinctIds(rows)
    requires SameShape(rows, rows')
    ensures SlotOf(rows', id) == SlotOf(rows, id)
  {
    var slot := SlotOf(rows, id);
    if slot.Some? {
      assert rows'[slot.value].spanId == id;
    }
  }

  lemma {:induction false} SameShapeSameWaiters(rows: seq<Row>, rows': seq<Row>, id: SpanId)
    requires SameShape(rows, rows')
    ensures WaitersOf(rows', id) == WaitersOf(rows, id)
  {
    if rows != [] {
      SameShapeSameWaiters(rows[..|rows| - 1], rows'[..|rows| - 1], id);
    }
  }

  lemma SameShapeSameLinks(rows: seq<Row>, rows': seq<Row>)
    requires DistinctIds(rows)
    requires SameShape(rows, rows')
    ensures DistinctIds(rows')
    ensures ParentSlots(rows') == ParentSlots(rows)
    ensures OrphanFlags(rows') == OrphanFlags(rows)
  {
    forall id
      ensures SlotOf(rows', id) == SlotOf(rows, id)
    {
      SameShapeSameSlots(rows, rows', id);
    }
  }

  lemma SameShapeSameTables(rows: seq<Row>, rows': seq<Row>)
    requires DistinctIds(rows)
    requires SameShape(rows, rows')
    ensures IndexOf(rows') == IndexOf(rows)
    ensures PendingOf(rows') == PendingOf(rows)
  {
    forall id
      ensures id in IndexOf(rows') <==> id in IndexOf(rows)
      ensures id in IndexOf(rows) ==> IndexOf(rows')[id] == IndexOf(rows)[id]
      ensures id in PendingOf(rows') <==> id in PendingOf(rows)
      ensures id in PendingOf(rows) ==> PendingOf(rows')[id] == PendingOf(rows)[id]
    {
      SameShapeSameSlots(rows, rows', id);
      IndexLookup(rows, id);
      IndexLookup(rows', id);
      SameShapeSameWaiters(rows, rows', id);
      if SlotOf(rows, id).None? {
        PendingLookup(rows, id);
        PendingLookup(rows', id);
      }
    }
  }

  // Overwriting a span in its slot moves no span and changes no link.
  lemma OverwriteKeepsLinks(rows: seq<Row>, i: nat, row: Row)
    requires i < |rows|
    requires row.spanId == rows[i].spanId && row.parent == rows[i].parent
    requires DistinctIds(rows)
    ensures DistinctIds(rows[i := row])
    ensures ParentSlots(rows[i := row]) == ParentSlots(rows)
    ensures OrphanFlags(rows[i := row]) == OrphanFlags(rows)
    ensures IndexOf(rows[i := row]) == IndexOf(rows)
    ensures PendingOf(rows[i := row]) == PendingOf(rows)
  {
    SameShapeSameLinks(rows, rows[i := row]);
    SameShapeSameTables(rows, rows[i := row]);
  }
}
