/**
 Following parent links. The link column is whatever arrival order and patching left; walks along it
 end within the size of the trace exactly when the parents the spans declared form no cycle.
 */
module Walks {
  import opened Types
  import opened Rows
  import opened Links
  import opened Sums

  // The slot reached by `k` steps along the link column, if the walk gets that far.
  function Walk(links: seq<Option<nat>>, i: nat, k: nat): Option<nat>
    decreases k
  {
    if k == 0 then Some(i) else
      var before := Walk(links, i, k - 1);
      if before.Some? && before.value < |links| then links[before.value] else None
  }

  // In fewer than `|links|` steps the walk reaches a slot that has no link.
  ghost predicate Ends(links: seq<Option<nat>>, i: nat) {
    exists k | 0 <= k < |links| :: EndsAt(links, i, k)
  }

  predicate EndsAt(links: seq<Option<nat>>, i: nat, k: nat) {
    var at := Walk(links, i, k);
    at.Some? && at.value < |links| && links[at.value].None?
  }

  // What the spans declared: each span id present, with its first-declared parent.
  ghost function DeclaredParents(rows: seq<Row>): map<SpanId, Option<SpanId>> {
    map id | id in IdsOf(rows) && SlotOf(rows, id).Some? :: rows[SlotOf(rows, id).value].parent
  }

  function Ancestor(parents: map<SpanId, Option<SpanId>>, id: SpanId, k: nat): Option<SpanId>
    decreases k
  {
    if k == 0 then (if id in parents then Some(id) else None) else
      var before := Ancestor(parents, id, k - 1);
      if before.Some? && before.value in parents
         && parents[before.value].Some? && parents[before.value].value in parents
      then parents[before.value] else None
  }

  // No span present is its own ancestor.
  ghost predicate Acyclic(parents: map<SpanId, Option<SpanId>>) {
    forall id, k: nat | id in parents && k > 0 :: Ancestor(parents, id, k) != Some(id)
  }

  lemma DeclaredAt(rows: seq<Row>, id: SpanId)
    ensures id in DeclaredParents(rows) <==> SlotOf(rows, id).Some?
    ensures id in DeclaredParents(rows) ==> DeclaredParents(rows)[id] == rows[SlotOf(rows, id).value].parent
  {
    var slot := SlotOf(rows, id);
    if slot.Some? {
      assert rows[slot.value] in rows;
    }
  }

  // A walk over slots mirrors a walk over declared parents.
  lemma {:induction false} WalkMirrorsAncestors(rows: seq<Row>, i: nat, k: nat)
    requires DistinctIds(rows)
    requires i < |rows|
    ensures
      var at, up := Walk(ParentSlots(rows), i, k), Ancestor(DeclaredParents(rows), rows[i].spanId, k);
      && at.Some? == up.Some?
      && (at.Some? ==> at.value < |rows| && rows[at.value].spanId == up.value)
    decreases k
  {
    DeclaredAt(rows, rows[i].spanId);
    if k > 0 {
      WalkMirrorsAncestors(rows, i, k - 1);
      var before := Walk(ParentSlots(rows), i, k - 1);
      if before.Some? {
        var row := rows[before.value];
        SlotIsUnique(rows, before.value);
        DeclaredAt(rows, row.spanId);
        if row.parent.Some? {
          DeclaredAt(rows, row.parent.value);
        }
      }
    }
  }

  lemma {:induction false} WalkAdds(links: seq<Option<nat>>, i: nat, a: nat, b: nat)
    ensures Walk(links, i, a + b)
         == if Walk(links, i, a).Some? then Walk(links, Walk(links, i, a).value, b) else None
    decreases b
  {
    if b > 0 {
      WalkAdds(links, i, a, b - 1);
    }
  }

  // A link column whose links stay inside it.
  ghost predicate Closed(links: seq<Option<nat>>) {
    forall i | 0 <= i < |links| && links[i].Some? :: links[i].value < |links|
  }

  lemma {:induction false} WalkStaysInside(links: seq<Option<nat>>, i: nat, k: nat)
    requires Closed(links) && i < |links|
    ensures Walk(links, i, k).Some? ==> Walk(links, i, k).value < |links|
    decreases k
  {
    if k > 0 {
      WalkStaysInside(links, i, k - 1);
    }
  }

  // A walk of `|links|` steps visits some slot twice.
  lemma LongWalkRepeats(links: seq<Option<nat>>, i: nat) returns (a: nat, b: nat)
    requires Closed(links) && i < |links|
    requires forall k: nat | k <= |links| :: Walk(links, i, k).Some?
    ensures a < b <= |links| && Walk(links, i, a) == Walk(links, i, b)
  {
    var n := |links|;
    var visited := seq(n + 1, k requires 0 <= k <= n => Walk(links, i, k).value);
    if forall a, b | 0 <= a < b <= n :: visited[a] != visited[b] {
      forall x | x in visited ensures x in Below(n) {
        var k :| 0 <= k <= n && visited[k] == x;
        WalkStaysInside(links, i, k);
      }
      DistinctCount(visited, Below(n));
    }
    a, b :| 0 <= a < b <= n && visited[a] == visited[b];
  }

  // Either the walk ends in time, or some slot is reached again from itself.
  lemma {:induction false} LastStep(links: seq<Option<nat>>, i: nat, k: nat) returns (j: nat)
    requires Closed(links) && i < |links|
    requires Walk(links, i, k).None?
    ensures j < k && EndsAt(links, i, j)
    decreases k
  {
    WalkStaysInside(links, i, k - 1);
    if Walk(links, i, k - 1).Some? {
      j := k - 1;
    } else {
      j := LastStep(links, i, k - 1);
    }
  }

  lemma EndsOrRepeats(links: seq<Option<nat>>, i: nat)
    requires Closed(links) && i < |links|
    ensures Ends(links, i) || exists j: nat, k: nat | j < |links| && k > 0 :: Walk(links, j, k) == Some(j)
  {
    if k: nat :| k <= |links| && Walk(links, i, k).None? {
      var j := LastStep(links, i, k);
    } else {
      var a, b := LongWalkRepeats(links, i);
      WalkStaysInside(links, i, a);
      var j := Walk(links, i, a).value;
      WalkAdds(links, i, a, b - a);
      assert Walk(links, j, b - a) == Some(j);
    }
  }

  // A slot that reaches itself is reached again arbitrarily late.
  lemma {:induction false} CycleOutlasts(links: seq<Option<nat>>, i: nat, p: nat, n: nat) returns (q: nat)
    requires p > 0 && Walk(links, i, p) == Some(i)
    ensures q >= n && Walk(links, i, q) == Some(i)
    decreases n
  {
    if n == 0 {
      q := 0;
    } else {
      q := CycleOutlasts(links, i, p, n - 1);
      WalkAdds(links, i, q, p);
      q := q + p;
    }
  }

  lemma CycleNeverEnds(links: seq<Option<nat>>, i: nat, p: nat)
    requires p > 0 && Walk(links, i, p) == Some(i)
    ensures !Ends(links, i)
  {
    if k :| 0 <= k < |links| && EndsAt(links, i, k) {
      var q := CycleOutlasts(links, i, p, k + 1);
      WalkAdds(links, i, k + 1, q - (k + 1));
      assert false;
    }
  }

  lemma LinksAreClosed(rows: seq<Row>)
    ensures Closed(ParentSlots(rows))
  {
  }

  /**
   Parent walks end in fewer than `|rows|` steps from every slot, whatever order the spans arrived
   in, if and only if the first-declared parents form no cycle among the spans present.
   */
  lemma WalksEndIffAcyclic(rows: seq<Row>)
    requires DistinctIds(rows)
    ensures (forall i | 0 <= i < |rows| :: Ends(ParentSlots(rows), i)) <==> Acyclic(DeclaredParents(rows))
  {
    var links, parents := ParentSlots(rows), DeclaredParents(rows);
    LinksAreClosed(rows);
    if Acyclic(parents) {
      forall i | 0 <= i < |rows| ensures Ends(links, i) {
        EndsOrRepeats(links, i);
        if j: nat, k: nat :| j < |links| && k > 0 && Walk(links, j, k) == Some(j) {
          CycleIsDeclared(rows, j, k);
        }
      }
    } else {
      var id, k: nat :| id in parents && k > 0 && Ancestor(parents, id, k) == Some(id);
      DeclaredAt(rows, id);
      var i := SlotOf(rows, id).value;
      WalkMirrorsAncestors(rows, i, k);
      SlotIsUnique(rows, Walk(links, i, k).value);
      SlotIsUnique(rows, i);
      CycleNeverEnds(links, i, k);
    }
  }

  lemma CycleIsDeclared(rows: seq<Row>, j: nat, k: nat)
    requires DistinctIds(rows)
    requires j < |rows| && k > 0 && Walk(ParentSlots(rows), j, k) == Some(j)
    ensures !Acyclic(DeclaredParents(rows))
  {
    WalkMirrorsAncestors(rows, j, k);
    SlotIsUnique(rows, j);
    DeclaredAt(rows, rows[j].spanId);
  }
}
