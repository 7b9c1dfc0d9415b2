/** Values shared by every component: identifiers, attribute values, decoded spans, machine widths. */
module Types {

  datatype Option<+T> = None | Some(value: T)

  newtype Byte = b: int | 0 <= b < 256

  // A trace id holds 16 bytes and a span id 8; only conversion looks at their length.
  datatype TraceId = TraceId(bytes: seq<Byte>)

  datatype SpanId = SpanId(bytes: seq<Byte>)

  // A 64-bit float is a bit pattern; its arithmetic is a parameter wherever it is used.
  datatype Double = Double(bits: nat)

  datatype AttrValue =
    | Str(text: string)
    | Int(number: int)
    | Float(double: Double)
    | Bool(flag: bool)

  type Attribute = (string, AttrValue)

  datatype NewSpan = NewSpan(
    spanId: SpanId,
    parentSpanId: Option<SpanId>,
    name: string,
    startTime: nat,
    endTime: nat,
    statusMessage: string,
    statusCode: int,
    unknownService: bool,
    serviceName: Option<string>,
    attributes: seq<Attribute>)

  const U32_LIMIT: nat := 0x1_0000_0000
  const U64_LIMIT: nat := 0x1_0000_0000_0000_0000

  // The truncating cast `x as u32`.
  function AsU32(x: int): nat {
    x % U32_LIMIT
  }

  // Truncating before an addition or after it is the same.
  lemma TruncatedSum(x: nat, delta: int)
    ensures AsU32(AsU32(x) + delta) == AsU32(x + delta)
  {
    var q := x / U32_LIMIT;
    assert x + delta == AsU32(x) + delta + q * U32_LIMIT;
    TruncatedMultiple(AsU32(x) + delta, q);
  }

  lemma {:induction false} TruncatedMultiple(x: int, q: nat)
    ensures AsU32(x + q * U32_LIMIT) == AsU32(x)
  {
    if q > 0 {
      TruncatedMultiple(x, q - 1);
      assert x + q * U32_LIMIT == (x + (q - 1) * U32_LIMIT) + U32_LIMIT;
    }
  }

  lemma Assoc<T>(a: seq<T>, b: seq<T>, c: seq<T>)
    ensures a + (b + c) == a + b + c
  {
  }

  lemma Around<T>(xs: seq<T>, i: nat)
    requires i < |xs|
    ensures xs == xs[..i] + [xs[i]] + xs[i + 1..]
  {
  }

  // Length in bytes of the UTF-8 encoding, which is what `str::len` reports.
  function Utf8Len(s: string): nat {
    if s == [] then 0 else
      Utf8Len(s[..|s| - 1]) + Utf8Width(s[|s| - 1])
  }

  function Utf8Width(c: char): nat {
    if c < '\U{80}' then 1
    else if c < '\U{800}' then 2
    else if c < '\U{10000}' then 3
    else 4
  }
}
