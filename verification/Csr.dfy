/**
 The compressed-sparse-row layout of attributes: dense keys and values, plus one `u32` offset per
 span. `CsrMatches` ties the three arrays to the attributes of the rows they stand for.
 */
module Csr {
  import opened Types
  import opened Rows

  type Pairs = seq<(nat, AttrValue)>

  function Keys(pairs: Pairs): (keys: seq<nat>)
    ensures |keys| == |pairs|
    ensures forall k | 0 <= k < |pairs| :: keys[k] == pairs[k].0
  {
    seq(|pairs|, k requires 0 <= k < |pairs| => pairs[k].0)
  }

  function Values(pairs: Pairs): (values: seq<AttrValue>)
    ensures |values| == |pairs|
    ensures forall k | 0 <= k < |pairs| :: values[k] == pairs[k].1
  {
    seq(|pairs|, k requires 0 <= k < |pairs| => pairs[k].1)
  }

  function Flat(rows: seq<Row>): Pairs {
    if rows == [] then [] else Flat(rows[..|rows| - 1]) + rows[|rows| - 1].attrs
  }

  // Where span `i` begins in the dense arrays; `Offset(rows, |rows|)` is their length.
  function Offset(rows: seq<Row>, i: nat): nat
    requires i <= |rows|
  {
    |Flat(rows[..i])|
  }

  // The offsets column: one `u32` per span, and one more for the end of the last span.
  function Offsets(rows: seq<Row>): seq<nat> {
    seq(|rows| + 1, i requires 0 <= i <= |rows| => AsU32(Offset(rows, i)))
  }

  // The arrays hold exactly the attributes of `rows`.
  ghost predicate CsrMatches(rows: seq<Row>, keys: seq<nat>, values: seq<AttrValue>, offsets: seq<nat>) {
    && keys == Keys(Flat(rows))
    && values == Values(Flat(rows))
    && offsets == Offsets(rows)
  }

  lemma {:induction false} FlatConcat(a: seq<Row>, b: seq<Row>)
    ensures Flat(a + b) == Flat(a) + Flat(b)
  {
    if b == [] {
      assert a + b == a;
    } else {
      var front, last := b[..|b| - 1], b[|b| - 1];
      assert (a + b)[..|a + b| - 1] == a + front && (a + b)[|a + b| - 1] == last;
      FlatConcat(a, front);
      assert Flat(a + b) == Flat(a + front) + last.attrs;
      assert Flat(b) == Flat(front) + last.attrs;
    }
  }

  lemma FlatAround(rows: seq<Row>, i: nat)
    requires i < |rows|
    ensures Flat(rows) == Flat(rows[..i]) + rows[i].attrs + Flat(rows[i + 1..])
    ensures Offset(rows, i + 1) == Offset(rows, i) + |rows[i].attrs|
    ensures Offset(rows, i + 1) <= |Flat(rows)|
  {
    assert rows == rows[..i + 1] + rows[i + 1..];
    FlatConcat(rows[..i + 1], rows[i + 1..]);
    assert rows[..i + 1][..i] == rows[..i];
  }

  // The slice between two offsets is the span's own attributes.
  lemma SliceIsRow(rows: seq<Row>, i: nat)
    requires i < |rows|
    ensures Offset(rows, i) <= Offset(rows, i + 1) <= |Flat(rows)|
    ensures Flat(rows)[Offset(rows, i)..Offset(rows, i + 1)] == rows[i].attrs
  {
    FlatAround(rows, i);
  }

  // Replacing one row splices the dense arrays ...
  lemma SpliceFlat(rows: seq<Row>, i: nat, row: Row)
    requires i < |rows|
    ensures Offset(rows, i) <= Offset(rows, i + 1) <= |Flat(rows)|
    ensures Flat(rows[i := row])
         == Flat(rows)[..Offset(rows, i)] + row.attrs + Flat(rows)[Offset(rows, i + 1)..]
  {
    var rows' := rows[i := row];
    assert rows'[..i] == rows[..i];
    assert rows'[i + 1..] == rows[i + 1..];
    FlatAround(rows, i);
    FlatAround(rows', i);
    Cut(Flat(rows[..i]), rows[i].attrs, Flat(rows[i + 1..]));
  }

  lemma Cut<T>(a: seq<T>, b: seq<T>, c: seq<T>)
    ensures (a + b + c)[..|a|] == a
    ensures (a + b + c)[|a|..|a| + |b|] == b
    ensures (a + b + c)[|a| + |b|..] == c
  {
  }

  // ... and shifts every later offset by the signed difference in length, without ever going below
  // zero or past the end of the new arrays.
  lemma SpliceShifts(rows: seq<Row>, i: nat, row: Row, k: nat)
    requires i < |rows|
    requires k <= |rows|
    ensures Offset(rows[i := row], k)
         == Offset(rows, k) + if k <= i then 0 else |row.attrs| - |rows[i].attrs|
    ensures 0 <= Offset(rows[i := row], k) <= |Flat(rows[i := row])|
  {
    var rows' := rows[i := row];
    if k <= i {
      assert rows'[..k] == rows[..k];
    } else {
      OffsetAfter(rows, i, k);
      OffsetAfter(rows', i, k);
      assert rows'[..i] == rows[..i];
      assert rows'[i + 1..k] == rows[i + 1..k];
    }
    OffsetInRange(rows', k);
  }

  lemma OffsetInRange(rows: seq<Row>, k: nat)
    requires k <= |rows|
    ensures Offset(rows, k) <= |Flat(rows)|
  {
    assert rows == rows[..k] + rows[k..];
    FlatConcat(rows[..k], rows[k..]);
  }

  lemma OffsetAfter(rows: seq<Row>, i: nat, k: nat)
    requires i < k <= |rows|
    ensures Offset(rows, k) == Offset(rows, i) + |rows[i].attrs| + |Flat(rows[i + 1..k])|
  {
    assert rows[..k] == rows[..i + 1] + rows[i + 1..k];
    FlatConcat(rows[..i + 1], rows[i + 1..k]);
    FlatAround(rows, i);
  }

  lemma FlatAppend(rows: seq<Row>, row: Row)
    ensures Flat(rows + [row]) == Flat(rows) + row.attrs
    ensures forall i | 0 <= i <= |rows| :: Offset(rows + [row], i) == Offset(rows, i)
    ensures Offset(rows + [row], |rows| + 1) == |Flat(rows)| + |row.attrs|
  {
    var rows' := rows + [row];
    assert rows'[..|rows|] == rows;
    assert rows'[..|rows| + 1] == rows';
    forall i | 0 <= i <= |rows| ensures Offset(rows', i) == Offset(rows, i) {
      assert rows'[..i] == rows[..i];
    }
  }

  lemma AppendKeepsCsr(rows: seq<Row>, row: Row)
    ensures Keys(Flat(rows + [row])) == Keys(Flat(rows)) + Keys(row.attrs)
    ensures Values(Flat(rows + [row])) == Values(Flat(rows)) + Values(row.attrs)
    ensures Offsets(rows + [row]) == Offsets(rows) + [AsU32(|Flat(rows)| + |row.attrs|)]
  {
    hide Flat, Offset, AsU32;
    FlatAppend(rows, row);
  }

  function Shifted(offsets: seq<nat>, first: nat, delta: int): seq<nat> {
    seq(|offsets|, k requires 0 <= k < |offsets| =>
          if k < first then offsets[k] else AsU32(offsets[k] + delta))
  }

  datatype Dense = Dense(keys: seq<nat>, values: seq<AttrValue>, offsets: seq<nat>)

  // The slice between a slot's two stored offsets is replaced, whatever it held, and every later
  // offset moves by the signed difference.
  ghost predicate SplicedAt(before: Dense, after: Dense, idx: nat, attrs: Pairs) {
    && idx + 1 < |before.offsets|
    && var start, end := before.offsets[idx], before.offsets[idx + 1];
    && start <= end <= |before.keys| == |before.values|
    && after.keys == before.keys[..start] + Keys(attrs) + before.keys[end..]
    && after.values == before.values[..start] + Values(attrs) + before.values[end..]
    && after.offsets == Shifted(before.offsets, idx + 1, |attrs| - (end - start))
  }

  // A span whose end is below 2^32 has lost no bits, and the slice of the arrays between its two
  // offsets is its own attributes.
  lemma OffsetsExact(rows: seq<Row>, i: nat)
    requires i < |rows|
    requires Offset(rows, i + 1) < U32_LIMIT
    ensures Offsets(rows)[i] == Offset(rows, i) <= Offsets(rows)[i + 1] == Offset(rows, i + 1) <= |Flat(rows)|
    ensures Offset(rows, i + 1) - Offset(rows, i) == |rows[i].attrs|
    ensures Keys(Flat(rows))[Offset(rows, i)..Offset(rows, i + 1)] == Keys(rows[i].attrs)
    ensures Values(Flat(rows))[Offset(rows, i)..Offset(rows, i + 1)] == Values(rows[i].attrs)
  {
    hide Flat, Keys, Values, Offset;
    FlatAround(rows, i);
    SliceIsRow(rows, i);
    KeysOfSlice(Flat(rows), Offset(rows, i), Offset(rows, i + 1));
  }

  // The two offsets of a span bound a slice of the dense arrays; reading it panics otherwise.
  ghost predicate SliceInside(rows: seq<Row>, i: nat)
    requires i < |rows|
  {
    Offsets(rows)[i] <= Offsets(rows)[i + 1] <= |Flat(rows)|
  }

  // Reading a span's slice of keys and values yields its own.
  ghost predicate SliceExact(rows: seq<Row>, i: nat)
    requires i < |rows|
  {
    && SliceInside(rows, i)
    && Keys(Flat(rows))[Offsets(rows)[i]..Offsets(rows)[i + 1]] == Keys(rows[i].attrs)
    && Values(Flat(rows))[Offsets(rows)[i]..Offsets(rows)[i + 1]] == Values(rows[i].attrs)
  }

  // The span during which the dense arrays reach 2^32.
  lemma {:induction false} SlotCrossing(rows: seq<Row>, n: nat) returns (i: nat)
    requires n <= |rows| && Offset(rows, n) >= U32_LIMIT
    ensures i < n && Offset(rows, i) < U32_LIMIT <= Offset(rows, i + 1) <= |Flat(rows)|
    ensures Offset(rows, i + 1) == Offset(rows, i) + |rows[i].attrs|
  {
    if n == 0 {
      assert false;
    } else if Offset(rows, n - 1) >= U32_LIMIT {
      i := SlotCrossing(rows, n - 1);
    } else {
      i := n - 1;
      FlatAround(rows, i);
    }
  }

  /**
   Reading back works for every span if and only if the dense arrays are shorter than 2^32: the
   first span to cross that length gets a slice that is too short.
   */
  lemma SlicesExactIffRoom(rows: seq<Row>)
    ensures (forall i | 0 <= i < |rows| :: SliceExact(rows, i)) <==> |Flat(rows)| < U32_LIMIT
  {
    hide Flat;
    if |Flat(rows)| < U32_LIMIT {
      forall i | 0 <= i < |rows| ensures SliceExact(rows, i) {
        OffsetInRange(rows, i + 1);
        OffsetsExact(rows, i);
      }
    } else {
      assert rows[..|rows|] == rows;
      var i := SlotCrossing(rows, |rows|);
      assert AsU32(Offset(rows, i + 1)) < Offset(rows, i + 1);
      assert !SliceExact(rows, i);
    }
  }

  /**
   With spans of ordinary size the failure is loud: every slice can be taken without a panic if
   and only if the dense arrays are shorter than 2^32.
   */
  lemma SlicesInsideIffRoom(rows: seq<Row>)
    requires forall i | 0 <= i < |rows| :: |rows[i].attrs| < U32_LIMIT
    ensures (forall i | 0 <= i < |rows| :: SliceInside(rows, i)) <==> |Flat(rows)| < U32_LIMIT
  {
    hide Flat;
    if |Flat(rows)| < U32_LIMIT {
      SlicesExactIffRoom(rows);
      assert forall i | 0 <= i < |rows| :: SliceExact(rows, i) ==> SliceInside(rows, i);
    } else {
      assert rows[..|rows|] == rows;
      var i := SlotCrossing(rows, |rows|);
      var start, end := Offset(rows, i), Offset(rows, i + 1);
      assert AsU32(end) == end - U32_LIMIT;
      assert !SliceInside(rows, i);
    }
  }

  lemma KeysOfSlice(pairs: Pairs, a: nat, b: nat)
    requires a <= b <= |pairs|
    ensures Keys(pairs)[a..b] == Keys(pairs[a..b])
    ensures Values(pairs)[a..b] == Values(pairs[a..b])
  {
  }

  lemma KeysOfConcat(a: Pairs, b: Pairs, c: Pairs)
    ensures Keys(a + b + c) == Keys(a) + Keys(b) + Keys(c)
    ensures Values(a + b + c) == Values(a) + Values(b) + Values(c)
  {
  }

  // The splice and shift of an overwrite produce the arrays of the overwritten rows.
  lemma SpliceKeepsCsr(rows: seq<Row>, i: nat, row: Row)
    requires i < |rows|
    ensures Offset(rows, i) <= Offset(rows, i + 1) <= |Flat(rows)|
    ensures Keys(Flat(rows[i := row]))
         == Keys(Flat(rows))[..Offset(rows, i)] + Keys(row.attrs) + Keys(Flat(rows))[Offset(rows, i + 1)..]
    ensures Values(Flat(rows[i := row]))
         == Values(Flat(rows))[..Offset(rows, i)] + Values(row.attrs) + Values(Flat(rows))[Offset(rows, i + 1)..]
  {
    hide Flat;
    SpliceFlat(rows, i, row);
    var all, start, end := Flat(rows), Offset(rows, i), Offset(rows, i + 1);
    KeysOfSlice(all, 0, start);
    KeysOfSlice(all, end, |all|);
    assert all[0..start] == all[..start] && all[end..|all|] == all[end..];
    KeysOfConcat(all[..start], row.attrs, all[end..]);
  }

  lemma ShiftKeepsOffsets(rows: seq<Row>, i: nat, row: Row)
    requires i < |rows|
    ensures Offsets(rows[i := row]) == Shifted(Offsets(rows), i + 1, |row.attrs| - |rows[i].attrs|)
  {
    var shifted := Shifted(Offsets(rows), i + 1, |row.attrs| - |rows[i].attrs|);
    forall k {:trigger shifted[k]} | 0 <= k <= |rows|
      ensures shifted[k] == AsU32(Offset(rows[i := row], k))
    {
      SpliceShifts(rows, i, row, k);
      TruncatedSum(Offset(rows, k), |row.attrs| - |rows[i].attrs|);
    }
  }

  // Putting a row lengthens the dense arrays by its own attributes at most.
  lemma PutRowLength(rows: seq<Row>, row: Row)
    ensures |Flat(PutRow(rows, row))| <= |Flat(rows)| + |row.attrs|
  {
    var slot := SlotOf(rows, row.spanId);
    if slot.Some? {
      SpliceFlat(rows, slot.value, row.(parent := rows[slot.value].parent));
    } else {
      assert (rows + [row])[..|rows|] == rows;
    }
  }
}
