/**
 One trace as the store keeps it: a struct of parallel columns, an index from span id to slot, a
 table of children waiting for their parent, and attributes in compressed-sparse-row form.

 The ghost field `rows` is the plain list of spans the columns stand for. `Valid` says that every
 column, offset, link and index entry is the one those rows determine, so a method that states how
 `rows` changes states how the whole structure changes.
 */
module Traces {
  import opened Types
  import opened Interners
  import opened Rows
  import opened Csr
  import opened Links

  // The plain columns of the rows, field by field.
  function SpanIds(rows: seq<Row>): (column: seq<SpanId>)
    ensures |column| == |rows|
  {
    seq(|rows|, i requires 0 <= i < |rows| => rows[i].spanId)
  }

  function Names(rows: seq<Row>): (column: seq<string>)
    ensures |column| == |rows|
  {
    seq(|rows|, i requires 0 <= i < |rows| => rows[i].name)
  }

  function StartTimes(rows: seq<Row>): (column: seq<nat>)
    ensures |column| == |rows|
  {
    seq(|rows|, i requires 0 <= i < |rows| => rows[i].startTime)
  }

  function EndTimes(rows: seq<Row>): (column: seq<nat>)
    ensures |column| == |rows|
  {
    seq(|rows|, i requires 0 <= i < |rows| => rows[i].endTime)
  }

  function StatusMessages(rows: seq<Row>): (column: seq<string>)
    ensures |column| == |rows|
  {
    seq(|rows|, i requires 0 <= i < |rows| => rows[i].statusMessage)
  }

  function StatusCodes(rows: seq<Row>): (column: seq<int>)
    ensures |column| == |rows|
  {
    seq(|rows|, i requires 0 <= i < |rows| => rows[i].statusCode)
  }

  function UnknownServices(rows: seq<Row>): (column: seq<bool>)
    ensures |column| == |rows|
  {
    seq(|rows|, i requires 0 <= i < |rows| => rows[i].unknownService)
  }

  function ServiceIds(rows: seq<Row>): (column: seq<Option<nat>>)
    ensures |column| == |rows|
  {
    seq(|rows|, i requires 0 <= i < |rows| => rows[i].serviceId)
  }

  lemma ColumnsAppend(rows: seq<Row>, row: Row)
    ensures SpanIds(rows + [row]) == SpanIds(rows) + [row.spanId]
    ensures Names(rows + [row]) == Names(rows) + [row.name]
    ensures StartTimes(rows + [row]) == StartTimes(rows) + [row.startTime]
    ensures EndTimes(rows + [row]) == EndTimes(rows) + [row.endTime]
    ensures StatusMessages(rows + [row]) == StatusMessages(rows) + [row.statusMessage]
    ensures StatusCodes(rows + [row]) == StatusCodes(rows) + [row.statusCode]
    ensures UnknownServices(rows + [row]) == UnknownServices(rows) + [row.unknownService]
    ensures ServiceIds(rows + [row]) == ServiceIds(rows) + [row.serviceId]
  {
  }

  lemma ColumnsOverwrite(rows: seq<Row>, i: nat, row: Row)
    requires i < |rows|
    ensures SpanIds(rows[i := row]) == SpanIds(rows)[i := row.spanId]
    ensures Names(rows[i := row]) == Names(rows)[i := row.name]
    ensures StartTimes(rows[i := row]) == StartTimes(rows)[i := row.startTime]
    ensures EndTimes(rows[i := row]) == EndTimes(rows)[i := row.endTime]
    ensures StatusMessages(rows[i := row]) == StatusMessages(rows)[i := row.statusMessage]
    ensures StatusCodes(rows[i := row]) == StatusCodes(rows)[i := row.statusCode]
    ensures UnknownServices(rows[i := row]) == UnknownServices(rows)[i := row.unknownService]
    ensures ServiceIds(rows[i := row]) == ServiceIds(rows)[i := row.serviceId]
  {
  }

  class Trace {
    const traceId: TraceId
    var generation: nat
    var lastActivity: nat

    var spanIds: seq<SpanId>
    var names: seq<string>
    var parentIdx: seq<Option<nat>>
    var startTimes: seq<nat>
    var endTimes: seq<nat>
    var statusMessages: seq<string>
    var statusCodes: seq<int>
    var orphan: seq<bool>
    var unknownServices: seq<bool>
    var serviceIds: seq<Option<nat>>

    var attrKeys: seq<nat>
    var attrValues: seq<AttrValue>
    var attrOffsets: seq<nat>

    var spanIndex: map<SpanId, nat>
    var pendingChildren: map<SpanId, seq<nat>>

    ghost var rows: seq<Row>

    ghost predicate FieldsMatch(rows: seq<Row>)
      reads this`spanIds, this`names, this`startTimes, this`endTimes, this`statusMessages, this`statusCodes,
            this`unknownServices, this`serviceIds
    {
      && spanIds == SpanIds(rows)
      && names == Names(rows)
      && startTimes == StartTimes(rows)
      && endTimes == EndTimes(rows)
      && statusMessages == StatusMessages(rows)
      && statusCodes == StatusCodes(rows)
      && unknownServices == UnknownServices(rows)
      && serviceIds == ServiceIds(rows)
    }

    ghost predicate LinksMatch(rows: seq<Row>)
      reads this`parentIdx, this`orphan, this`spanIndex, this`pendingChildren
    {
      && parentIdx == ParentSlots(rows)
      && orphan == OrphanFlags(rows)
      && spanIndex == IndexOf(rows)
      && pendingChildren == PendingOf(rows)
      && DistinctIds(rows)
    }

    // Everything but the requirement that no offset was truncated.
    ghost predicate WellFormed()
      reads this
    {
      FieldsMatch(rows) && LinksMatch(rows) && CsrMatches(rows, attrKeys, attrValues, attrOffsets)
    }

    ghost predicate Valid()
      reads this
    {
      WellFormed() && |Flat(rows)| < U32_LIMIT
    }

    constructor (traceId: TraceId, now: nat)
      ensures Valid()
      ensures rows == [] && generation == 0 && lastActivity == now && this.traceId == traceId
    {
      this.traceId := traceId;
      generation, lastActivity := 0, now;
      spanIds, names, parentIdx, startTimes, endTimes := [], [], [], [], [];
      statusMessages, statusCodes, orphan, unknownServices, serviceIds := [], [], [], [], [];
      attrKeys, attrValues, attrOffsets := [], [], [0];
      spanIndex, pendingChildren := map[], map[];
      rows := [];
    }

    // A trace that comes back after eviction starts at a later generation.
    method Resume(generation: nat)
      requires Valid()
      modifies this`generation
      ensures Valid()
      ensures this.generation == generation
    {
      this.generation := generation;
    }

    function SpanCount(): (n: nat)
      requires Valid()
      reads this
      ensures n == |rows|
    {
      |spanIds|
    }

    function AttributeKeys(idx: nat): (keys: seq<nat>)
      requires Valid()
      requires idx < |rows|
      reads this
      ensures keys == Keys(rows[idx].attrs)
    {
      OffsetInRange(rows, idx + 1);
      OffsetsExact(rows, idx);
      attrKeys[attrOffsets[idx]..attrOffsets[idx + 1]]
    }

    function Attributes(idx: nat): (values: seq<AttrValue>)
      requires Valid()
      requires idx < |rows|
      reads this
      ensures values == Values(rows[idx].attrs)
    {
      OffsetInRange(rows, idx + 1);
      OffsetsExact(rows, idx);
      attrValues[attrOffsets[idx]..attrOffsets[idx + 1]]
    }

    // What `Vec::splice` demands when `id` is already here; it panics otherwise.
    ghost predicate Spliceable(id: SpanId)
      reads this`rows
    {
      SlotOf(rows, id).Some? ==> SliceInside(rows, SlotOf(rows, id).value)
    }

    // The slice an arrival of `id` replaces, if any, lies below 2^32 and so is the span's own.
    ghost predicate SplicesOwn(id: SpanId)
      reads this`rows
    {
      SlotOf(rows, id).Some? ==> Offset(rows, SlotOf(rows, id).value + 1) < U32_LIMIT
    }

    // While the trace has room, every overwrite is safe.
    lemma RoomToSplice(id: SpanId)
      requires Valid()
      ensures Spliceable(id) && SplicesOwn(id)
    {
      hide Flat, FieldsMatch, LinksMatch;
      if SlotOf(rows, id).Some? {
        var i := SlotOf(rows, id).value;
        OffsetInRange(rows, i + 1);
        OffsetsExact(rows, i);
      }
    }

    // What the two attribute getters rely on: the slot's slice exists and holds its own attributes.
    ghost predicate ReadsBack(i: nat)
      requires i < |rows| && |rows| + 1 == |attrOffsets|
      reads this
    {
      && attrOffsets[i] <= attrOffsets[i + 1] <= |attrKeys| == |attrValues|
      && attrKeys[attrOffsets[i]..attrOffsets[i + 1]] == Keys(rows[i].attrs)
      && attrValues[attrOffsets[i]..attrOffsets[i + 1]] == Values(rows[i].attrs)
    }

    /** In a well-formed trace every slot reads back its own attributes if and only if the trace is valid. */
    lemma ReadsBackIffValid()
      requires WellFormed()
      ensures |rows| + 1 == |attrOffsets|
      ensures (forall i | 0 <= i < |rows| :: ReadsBack(i)) <==> Valid()
    {
      hide Flat, FieldsMatch, LinksMatch;
      SlicesExactIffRoom(rows);
      assert forall i | 0 <= i < |rows| :: ReadsBack(i) <==> SliceExact(rows, i);
    }

    ghost function Arrays(): Dense
      reads this`attrKeys, this`attrValues, this`attrOffsets
    {
      Dense(attrKeys, attrValues, attrOffsets)
    }

    method Insert(span: NewSpan, serviceId: Option<nat>, keyInterner: Interner, now: nat)
      returns (localIdx: nat, isDuplicate: bool)
      requires WellFormed() && keyInterner.Valid()
      requires Spliceable(span.spanId)
      modifies this, keyInterner
      ensures keyInterner.Valid()
      ensures keyInterner.State() == AdmitKeys(old(keyInterner.State()), span.attributes)
      ensures rows == PutRow(old(rows), RowOf(span, serviceId, Encode(keyInterner.State(), span.attributes)))
      ensures FieldsMatch(rows) && LinksMatch(rows)
      ensures old(SplicesOwn(span.spanId)) ==> WellFormed()
      ensures isDuplicate ==> SplicedAt(old(Arrays()), Arrays(), localIdx, Encode(keyInterner.State(), span.attributes))
      ensures SlotOf(rows, span.spanId) == Some(localIdx)
      ensures isDuplicate <==> SlotOf(old(rows), span.spanId).Some?
      ensures generation == old(generation) && lastActivity == now
    {
      hide FieldsMatch, CsrMatches, SplicedAt, IndexOf, PendingOf, ParentSlots, OrphanFlags, DistinctIds;
      hide Flat, Offset, SliceInside, Encode, AdmitKeys;
      lastActivity := now;
      var interned := InternAttributes(span.attributes, keyInterner);
      IndexLookup(rows, span.spanId);
      ColumnLength(rows);
      if span.spanId in spanIndex {
        localIdx, isDuplicate := spanIndex[span.spanId], true;
        OverwriteAt(localIdx, span, serviceId, interned);
      } else {
        localIdx, isDuplicate := |spanIds|, false;
        Push(span, serviceId, interned);
      }
      SlotIsUnique(rows, localIdx);
    }

    lemma ColumnLength(rows: seq<Row>)
      requires FieldsMatch(rows)
      ensures |spanIds| == |rows|
    {
    }

    static method InternAttributes(attributes: seq<Attribute>, keyInterner: Interner)
      returns (interned: seq<(nat, AttrValue)>)
      requires keyInterner.Valid()
      modifies keyInterner
      ensures keyInterner.Valid()
      ensures keyInterner.State() == AdmitKeys(old(keyInterner.State()), attributes)
      ensures interned == Encode(keyInterner.State(), attributes)
    {
      interned := [];
      for i := 0 to |attributes|
        invariant keyInterner.Valid()
        invariant keyInterner.State() == AdmitKeys(old(keyInterner.State()), attributes[..i])
        invariant interned == Encode(keyInterner.State(), attributes[..i])
      {
        ghost var before := keyInterner.State();
        assert attributes[..i + 1][..i] == attributes[..i];
        AdmitKeysSettles(old(keyInterner.State()), attributes[..i]);
        var id := keyInterner.Intern(attributes[i].0);
        EncodeStable(before, keyInterner.State(), attributes[..i]);
        if id.Some? {
          interned := interned + [(id.value, attributes[i].1)];
        }
      }
      assert attributes[..|attributes|] == attributes;
    }

    // Appends a span whose id is new, then patches the children that were waiting for it.
    method Push(span: NewSpan, serviceId: Option<nat>, interned: seq<(nat, AttrValue)>)
      requires WellFormed()
      requires span.spanId !in spanIndex
      modifies this
      ensures WellFormed()
      ensures rows == old(rows) + [RowOf(span, serviceId, interned)]
      ensures generation == old(generation) && lastActivity == old(lastActivity)
    {
      hide SpanIds, Names, StartTimes, EndTimes, StatusMessages, StatusCodes, UnknownServices, ServiceIds;
      hide IndexOf, PendingOf, ParentSlots, OrphanFlags, DistinctIds, Flat, Keys, Values, Offsets;
      ghost var row := RowOf(span, serviceId, interned);
      var idx := |spanIds|;
      PushFields(span, serviceId, row);
      LinkAndPatch(span.spanId, span.parentSpanId, idx, row);
      PushAttributes(interned, row);
      rows := rows + [row];
    }

    method PushFields(span: NewSpan, serviceId: Option<nat>, ghost row: Row)
      requires FieldsMatch(rows)
      requires row == RowOf(span, serviceId, row.attrs)
      modifies this`spanIds, this`names, this`startTimes, this`endTimes, this`statusMessages,
               this`statusCodes, this`unknownServices, this`serviceIds
      ensures FieldsMatch(rows + [row])
    {
      ColumnsAppend(rows, row);
      spanIds := spanIds + [span.spanId];
      names := names + [span.name];
      startTimes := startTimes + [span.startTime];
      endTimes := endTimes + [span.endTime];
      statusMessages := statusMessages + [span.statusMessage];
      statusCodes := statusCodes + [span.statusCode];
      unknownServices := unknownServices + [span.unknownService];
      serviceIds := serviceIds + [serviceId];
    }

    // Resolves the new span's parent, indexes the span, and patches whoever was waiting for it.
    method LinkAndPatch(id: SpanId, parent: Option<SpanId>, idx: nat, ghost row: Row)
      requires LinksMatch(rows)
      requires row.spanId == id && id !in spanIndex && row.parent == parent && idx == |rows|
      modifies this`parentIdx, this`orphan, this`spanIndex, this`pendingChildren
      ensures LinksMatch(rows + [row])
    {
      hide IndexOf, PendingOf, ParentSlots, OrphanFlags, WaitersOf, DistinctIds, SlotOf, Patched, Adopted;
      IndexAppend(rows, row);
      PendingAppend(rows, row);
      LinksAppend(rows, row);
      WaitersAscend(rows + [row], id);

      var link: Option<nat>, lost := None, false;
      if parent.Some? {
        IndexLookup(rows, parent.value);
        if parent.value in spanIndex {
          link := Some(spanIndex[parent.value]);
        } else {
          pendingChildren := PushWaiting(pendingChildren, parent.value, idx);
          lost := true;
        }
      }
      parentIdx := parentIdx + [link];
      orphan := orphan + [lost];
      spanIndex := spanIndex[id := idx];

      SlotAfterAppend(rows, row, id);
      AnnouncedLookup(rows, row, id);
      if id in pendingChildren {
        var children := pendingChildren[id];
        assert forall k | 0 <= k < |children| :: children[k] in children;
        pendingChildren := pendingChildren - {id};
        PatchChildren(children, idx);
      } else {
        NothingToPatch(parentIdx, orphan, idx);
        assert pendingChildren - {id} == pendingChildren;
      }
    }

    method PatchChildren(children: seq<nat>, idx: nat)
      requires |orphan| == |parentIdx|
      requires forall k | 0 <= k < |children| :: children[k] < |parentIdx|
      modifies this`parentIdx, this`orphan
      ensures parentIdx == Patched(old(parentIdx), children, idx)
      ensures orphan == Adopted(old(orphan), children)
    {
      NothingToPatch(parentIdx, orphan, idx);
      for k := 0 to |children|
        invariant parentIdx == Patched(old(parentIdx), children[..k], idx)
        invariant orphan == Adopted(old(orphan), children[..k])
      {
        parentIdx := parentIdx[children[k] := Some(idx)];
        orphan := orphan[children[k] := false];
        assert children[..k + 1] == children[..k] + [children[k]];
      }
      assert children[..|children|] == children;
    }

    method PushAttributes(interned: seq<(nat, AttrValue)>, ghost row: Row)
      requires row.attrs == interned
      requires CsrMatches(rows, attrKeys, attrValues, attrOffsets)
      modifies this`attrKeys, this`attrValues, this`attrOffsets
      ensures CsrMatches(rows + [row], attrKeys, attrValues, attrOffsets)
    {
      AppendKeepsCsr(rows, row);
      for k := 0 to |interned|
        invariant attrKeys == old(attrKeys) + Keys(interned[..k])
        invariant attrValues == old(attrValues) + Values(interned[..k])
        invariant attrOffsets == old(attrOffsets)
      {
        attrKeys := attrKeys + [interned[k].0];
        attrValues := attrValues + [interned[k].1];
        assert interned[..k + 1] == interned[..k] + [interned[k]];
      }
      assert interned[..|interned|] == interned;
      attrOffsets := attrOffsets + [AsU32(|attrKeys|)];
    }

    // Replaces every field of a slot but its id and parent link, splicing its attributes.
    method OverwriteAt(idx: nat, span: NewSpan, serviceId: Option<nat>, interned: seq<(nat, AttrValue)>)
      requires WellFormed()
      requires idx < |rows| && rows[idx].spanId == span.spanId && SliceInside(rows, idx)
      modifies this
      ensures rows == old(rows)[idx := RowOf(span, serviceId, interned).(parent := old(rows)[idx].parent)]
      ensures FieldsMatch(rows) && LinksMatch(rows)
      ensures SplicedAt(old(Arrays()), Arrays(), idx, interned)
      ensures Offset(old(rows), idx + 1) < U32_LIMIT ==> WellFormed()
      ensures generation == old(generation) && lastActivity == old(lastActivity)
    {
      hide FieldsMatch, LinksMatch, CsrMatches, SplicedAt, SliceInside, Offset;
      ghost var row := RowOf(span, serviceId, interned).(parent := rows[idx].parent);
      LinksSurvive(rows, idx, row);
      SetFields(idx, span, serviceId, row);
      SpliceAttributes(idx, interned, row);
      rows := rows[idx := row];
    }

    lemma LinksSurvive(rows: seq<Row>, idx: nat, row: Row)
      requires LinksMatch(rows)
      requires idx < |rows| && row.spanId == rows[idx].spanId && row.parent == rows[idx].parent
      ensures LinksMatch(rows[idx := row])
    {
      hide IndexOf, PendingOf, ParentSlots, OrphanFlags, DistinctIds;
      OverwriteKeepsLinks(rows, idx, row);
    }

    method SetFields(idx: nat, span: NewSpan, serviceId: Option<nat>, ghost row: Row)
      requires FieldsMatch(rows)
      requires idx < |rows| && rows[idx].spanId == span.spanId
      requires row == RowOf(span, serviceId, row.attrs).(parent := row.parent)
      modifies this`names, this`startTimes, this`endTimes, this`statusMessages,
               this`statusCodes, this`unknownServices, this`serviceIds
      ensures FieldsMatch(rows[idx := row])
    {
      ColumnsOverwrite(rows, idx, row);
      assert SpanIds(rows)[idx := row.spanId] == SpanIds(rows);
      names := names[idx := span.name];
      startTimes := startTimes[idx := span.startTime];
      endTimes := endTimes[idx := span.endTime];
      statusMessages := statusMessages[idx := span.statusMessage];
      statusCodes := statusCodes[idx := span.statusCode];
      unknownServices := unknownServices[idx := span.unknownService];
      serviceIds := serviceIds[idx := serviceId];
    }

    method SpliceAttributes(idx: nat, interned: seq<(nat, AttrValue)>, ghost row: Row)
      requires idx < |rows| && row.attrs == interned
      requires CsrMatches(rows, attrKeys, attrValues, attrOffsets) && SliceInside(rows, idx)
      modifies this`attrKeys, this`attrValues, this`attrOffsets
      ensures SplicedAt(old(Arrays()), Arrays(), idx, interned)
      ensures Offset(rows, idx + 1) < U32_LIMIT ==> CsrMatches(rows[idx := row], attrKeys, attrValues, attrOffsets)
    {
      hide Flat, Keys, Values, Shifted;
      SpliceKeepsCsr(rows, idx, row);
      ShiftKeepsOffsets(rows, idx, row);
      if Offset(rows, idx + 1) < U32_LIMIT {
        OffsetsExact(rows, idx);
      }
      var oldStart, oldEnd := attrOffsets[idx], attrOffsets[idx + 1];
      attrKeys := attrKeys[..oldStart] + Keys(interned) + attrKeys[oldEnd..];
      attrValues := attrValues[..oldStart] + Values(interned) + attrValues[oldEnd..];
      ShiftOffsets(idx + 1, |interned| - (oldEnd - oldStart));
    }

    method ShiftOffsets(first: nat, delta: int)
      modifies this`attrOffsets
      ensures attrOffsets == Shifted(old(attrOffsets), first, delta)
    {
      var k := first;
      while k < |attrOffsets|
        invariant |attrOffsets| == |old(attrOffsets)|
        invariant forall j | 0 <= j < |attrOffsets| ::
                    attrOffsets[j] == if first <= j < k then AsU32(old(attrOffsets)[j] + delta) else old(attrOffsets)[j]
      {
        attrOffsets := attrOffsets[k := AsU32(attrOffsets[k] + delta)];
        k := k + 1;
      }
    }
  }
}
