/**
 What the eviction budget measures: 64 bytes for every span, 24 for every stored attribute, and the
 UTF-8 length of every name.
 */
module Bytes {
  import opened Types
  import opened Rows
  import opened Csr
  import opened Sums
  import opened StoreModel

  function NameBytes(rows: seq<Row>): nat {
    if rows == [] then 0 else NameBytes(rows[..|rows| - 1]) + Utf8Len(rows[|rows| - 1].name)
  }

  /** A trace's size, from its number of spans, the length of its dense arrays and its names. */
  lemma {:induction false} TraceBytes(rows: seq<Row>)
    ensures RowsBytes(rows) == 64 * |rows| + 24 * |Flat(rows)| + NameBytes(rows)
  {
    if rows != [] {
      TraceBytes(rows[..|rows| - 1]);
    }
  }

  // UTF-8 lengths -----------------------------------------------------------------------------------------

  // The encoding of one character, by section 3 of RFC 3629.
  function Utf8(c: char): seq<int> {
    var x := c as int;
    if x < 0x80 then [x]
    else if x < 0x800 then [0xC0 + x / 0x40, 0x80 + x % 0x40]
    else if x < 0x10000 then [0xE0 + x / 0x1000, 0x80 + x / 0x40 % 0x40, 0x80 + x % 0x40]
    else [0xF0 + x / 0x40000, 0x80 + x / 0x1000 % 0x40, 0x80 + x / 0x40 % 0x40, 0x80 + x % 0x40]
  }

  function Utf8Text(s: string): seq<int> {
    if s == "" then [] else Utf8(s[0]) + Utf8Text(s[1..])
  }

  // The character a lead byte and its continuation bytes stand for.
  function Scalar(bytes: seq<int>): int {
    if |bytes| == 1 then bytes[0]
    else if |bytes| == 2 then (bytes[0] - 0xC0) * 0x40 + (bytes[1] - 0x80)
    else if |bytes| == 3 then (bytes[0] - 0xE0) * 0x1000 + (bytes[1] - 0x80) * 0x40 + (bytes[2] - 0x80)
    else if |bytes| == 4 then
      (bytes[0] - 0xF0) * 0x40000 + (bytes[1] - 0x80) * 0x1000 + (bytes[2] - 0x80) * 0x40 + (bytes[3] - 0x80)
    else 0
  }

  /** The encoding is bytes, it can be read back, and it is as long as the length in use says. */
  lemma Utf8ReadsBack(c: char)
    ensures Scalar(Utf8(c)) == c as int
    ensures forall i | 0 <= i < |Utf8(c)| :: 0 <= Utf8(c)[i] < 256
    ensures |Utf8(c)| == Utf8Len([c])
  {
    assert [c][..0] == "";
    var x := c as int;
    assert x < 0x11_0000;
    assert x / 0x40 / 0x40 == x / 0x1000 && x / 0x1000 / 0x40 == x / 0x40000;
  }

  lemma {:induction false} Utf8LenConcat(a: string, b: string)
    ensures Utf8Len(a + b) == Utf8Len(a) + Utf8Len(b)
  {
    if b == "" {
      assert a + b == a;
    } else {
      assert (a + b)[..|a + b| - 1] == a + b[..|b| - 1];
      Utf8LenConcat(a, b[..|b| - 1]);
    }
  }

  /** The length of a text is the number of bytes of its UTF-8 encoding. */
  lemma {:induction false} Utf8LenIsEncodedLength(s: string)
    ensures Utf8Len(s) == |Utf8Text(s)|
  {
    if s != "" {
      Utf8LenIsEncodedLength(s[1..]);
      Utf8LenConcat([s[0]], s[1..]);
      Utf8ReadsBack(s[0]);
      assert s == [s[0]] + s[1..];
    }
  }

  // The whole store ---------------------------------------------------------------------------------------

  ghost function AttributeCounts(traces: map<TraceId, TraceState>): map<TraceId, nat> {
    map id | id in traces :: |Flat(traces[id].rows)|
  }

  ghost function NameSizes(traces: map<TraceId, TraceState>): map<TraceId, nat> {
    map id | id in traces :: NameBytes(traces[id].rows)
  }

  lemma {:induction false} TotalsCombine(ids: set<TraceId>, traces: map<TraceId, TraceState>)
    requires ids <= traces.Keys
    ensures Total(ids, Sizes(traces))
         == 64 * Total(ids, SpanCounts(traces)) + 24 * Total(ids, AttributeCounts(traces))
            + Total(ids, NameSizes(traces))
  {
    if ids != {} {
      var id :| id in ids;
      TotalsCombine(ids - {id}, traces);
      TotalSplit(ids, Sizes(traces), id);
      TotalSplit(ids, SpanCounts(traces), id);
      TotalSplit(ids, AttributeCounts(traces), id);
      TotalSplit(ids, NameSizes(traces), id);
      TraceBytes(traces[id].rows);
    }
  }

  /** The quantity the sweep compares with its budget, from what is resident. */
  lemma StoreBytes(s: StoreState)
    ensures TotalBytes(s.traces)
         == 64 * ResidentSpans(s.traces) + 24 * Total(s.traces.Keys, AttributeCounts(s.traces))
            + Total(s.traces.Keys, NameSizes(s.traces))
  {
    TotalsCombine(s.traces.Keys, s.traces);
  }
}
