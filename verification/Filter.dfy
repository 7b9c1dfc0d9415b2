/**
 The filter scan: terms matched against the columns of a trace, keys as interned ids and attributes
 as slices of the dense arrays. It agrees with the obvious filter over plain spans.
 */
module Filter {
  import opened Types
  import opened Interners
  import opened Rows
  import opened Csr
  import opened Links
  import opened Traces
  import opened Numerals
  import opened Scanner
  import opened Query

  // Floating point is a parameter: reading, widening, comparing and printing a double.
  datatype FloatOps = FloatOps(
    parse: string -> Option<Double>,
    ofInt: int -> Double,
    compare: (Op, Double, Double) -> bool,
    text: Double -> string)

  // A term whose key has been looked up: `None` for a key that was never interned.
  datatype IdTerm =
    | IdService(op: Op, want: string)
    | IdStatus(op: Op, code: int)
    | IdDuration(op: Op, nanos: nat)
    | IdAttr(op: Op, keyId: Option<nat>, raw: string)
    | IdSubstring(needle: string)

  function Resolve(term: Term, ids: map<string, nat>): IdTerm {
    match term
    case Service(op, want) => IdService(op, want)
    case Status(op, code) => IdStatus(op, code)
    case Duration(op, nanos) => IdDuration(op, nanos)
    case Attr(op, key, raw) => IdAttr(op, if key in ids then Some(ids[key]) else None, raw)
    case Substring(needle) => IdSubstring(needle)
  }

  predicate Compare(op: Op, got: int, want: int) {
    match op
    case Eq => got == want
    case Ne => got != want
    case Gt => got > want
    case Gte => got >= want
    case Lt => got < want
    case Lte => got <= want
  }

  predicate OccursAt(text: string, needle: string, i: nat) {
    i + |needle| <= |text| && text[i..i + |needle|] == needle
  }

  predicate Contains(text: string, needle: string) {
    exists i | 0 <= i <= |text| :: OccursAt(text, needle, i)
  }

  predicate AttrEquals(f: FloatOps, attr: AttrValue, raw: string) {
    match attr
    case Str(s) => s == raw
    case Int(n) => ParseI64(raw) == Some(n)
    case Float(d) => f.parse(raw).Some? && f.compare(Eq, f.parse(raw).value, d)
    case Bool(b) => raw == if b then "true" else "false"
  }

  predicate AttrMatches(f: FloatOps, op: Op, attr: AttrValue, raw: string) {
    if op == Eq then AttrEquals(f, attr, raw)
    else if op == Ne then !AttrEquals(f, attr, raw)
    else
      match attr
      case Int(n) => f.parse(raw).Some? && f.compare(op, f.ofInt(n), f.parse(raw).value)
      case Float(d) => f.parse(raw).Some? && f.compare(op, d, f.parse(raw).value)
      case _ => false
  }

  predicate AttrContains(f: FloatOps, attr: AttrValue, needle: string) {
    match attr
    case Str(s) => Contains(s, needle)
    case Int(n) => Contains(IntText(n), needle)
    case Float(d) => Contains(f.text(d), needle)
    case Bool(b) => Contains(if b then "true" else "false", needle)
  }

  // The scan over columns ----------------------------------------------------------------------------

  // The values stored under one key id.
  function ValuesUnder(keys: seq<nat>, values: seq<AttrValue>, keyId: nat): seq<AttrValue>
    requires |keys| == |values|
  {
    if keys == [] then [] else
      (if keys[0] == keyId then [values[0]] else []) + ValuesUnder(keys[1..], values[1..], keyId)
  }

  predicate Matches(f: FloatOps, term: IdTerm, trace: Trace, services: Interner, idx: nat)
    requires trace.Valid() && services.Valid()
    requires idx < |trace.rows|
    requires trace.rows[idx].serviceId.Some? ==> trace.rows[idx].serviceId.value < |services.values|
    reads trace, services
  {
    match term
    case IdService(op, want) =>
      var id := trace.serviceIds[idx];
      if id.None? then op == Ne
      else if op == Eq then services.Get(id.value) == want
      else op == Ne && services.Get(id.value) != want
    case IdStatus(op, code) =>
      if op == Eq then trace.statusCodes[idx] == code else op == Ne && trace.statusCodes[idx] != code
    case IdDuration(op, nanos) =>
      trace.endTimes[idx] >= trace.startTimes[idx]
      && Compare(op, trace.endTimes[idx] - trace.startTimes[idx], nanos)
    case IdAttr(op, None, _) => false
    case IdAttr(op, Some(keyId), raw) =>
      var values := ValuesUnder(trace.AttributeKeys(idx), trace.Attributes(idx), keyId);
      if values == [] then op == Ne
      else exists k | 0 <= k < |values| :: AttrMatches(f, op, values[k], raw)
    case IdSubstring(needle) =>
      || Contains(trace.names[idx], needle)
      || (var values := trace.Attributes(idx);
          exists k | 0 <= k < |values| :: AttrContains(f, values[k], needle))
  }

  // The obvious filter ---------------------------------------------------------------------------------

  // A span as its producer would write it down.
  datatype PlainSpan = PlainSpan(
    name: string,
    service: Option<string>,
    statusCode: int,
    startTime: nat,
    endTime: nat,
    attributes: seq<Attribute>)

  ghost predicate InRange(row: Row, keys: Table, services: Table) {
    && (row.serviceId.Some? ==> row.serviceId.value < |services.strings|)
    && forall k | 0 <= k < |row.attrs| :: row.attrs[k].0 < |keys.strings|
  }

  ghost function PlainOf(row: Row, keys: Table, services: Table): PlainSpan
    requires InRange(row, keys, services)
  {
    PlainSpan(row.name, DecodeService(services, row.serviceId), row.statusCode, row.startTime, row.endTime,
              Decode(keys, row.attrs))
  }

  // Over plain spans a key is a string. A key that was never interned matches nothing, not even
  // with `!=`; a key this span lacks matches `!=` alone.
  ghost predicate PlainMatches(f: FloatOps, known: seq<string>, term: Term, span: PlainSpan) {
    match term
    case Service(op, want) =>
      if op == Eq then span.service == Some(want) else op == Ne && span.service != Some(want)
    case Status(op, code) =>
      if op == Eq then span.statusCode == code else op == Ne && span.statusCode != code
    case Duration(op, nanos) =>
      span.endTime >= span.startTime && Compare(op, span.endTime - span.startTime, nanos)
    case Attr(op, key, raw) =>
      && key in known
      && if forall k | 0 <= k < |span.attributes| :: span.attributes[k].0 != key then op == Ne
         else exists k | 0 <= k < |span.attributes| ::
                span.attributes[k].0 == key && AttrMatches(f, op, span.attributes[k].1, raw)
    case Substring(needle) =>
      || Contains(span.name, needle)
      || exists k | 0 <= k < |span.attributes| :: AttrContains(f, span.attributes[k].1, needle)
  }

  // Agreement ---------------------------------------------------------------------------------------

  lemma {:induction false} ValuesUnderMember(keys: seq<nat>, values: seq<AttrValue>, keyId: nat, v: AttrValue)
    requires |keys| == |values|
    ensures v in ValuesUnder(keys, values, keyId)
            <==> exists k | 0 <= k < |keys| :: keys[k] == keyId && values[k] == v
  {
    if keys != [] {
      ValuesUnderMember(keys[1..], values[1..], keyId, v);
      if k :| 0 <= k < |keys| - 1 && keys[1..][k] == keyId && values[1..][k] == v {
        assert keys[k + 1] == keyId && values[k + 1] == v;
      }
      if k :| 1 <= k < |keys| && keys[k] == keyId && values[k] == v {
        assert keys[1..][k - 1] == keyId && values[1..][k - 1] == v;
      }
    }
  }

  lemma SameKey(keys: Table, name: string, id: nat, k: nat)
    requires Sound(keys) && IdOf(keys, name) == Some(id) && k < |keys.strings|
    ensures k == id <==> keys.strings[k] == name
  {
  }

  // The interned slice and the decoded attributes hold the same values under a key.
  lemma AttrAgrees(f: FloatOps, op: Op, raw: string, attrs: seq<(nat, AttrValue)>, keys: Table, name: string, id: nat)
    requires Sound(keys) && IdOf(keys, name) == Some(id)
    requires forall k | 0 <= k < |attrs| :: attrs[k].0 < |keys.strings|
    ensures
      var values, plain := ValuesUnder(Keys(attrs), Values(attrs), id), Decode(keys, attrs);
      && (values == [] <==> forall k | 0 <= k < |plain| :: plain[k].0 != name)
      && ((exists k | 0 <= k < |values| :: AttrMatches(f, op, values[k], raw))
          <==> exists k | 0 <= k < |plain| :: plain[k].0 == name && AttrMatches(f, op, plain[k].1, raw))
  {
    hide AttrMatches, IdOf, ValuesUnder;
    var values, plain := ValuesUnder(Keys(attrs), Values(attrs), id), Decode(keys, attrs);
    forall k | 0 <= k < |attrs|
      ensures plain[k].1 == attrs[k].1
      ensures plain[k].0 == name <==> attrs[k].0 == id
      ensures plain[k].0 == name ==> plain[k].1 in values
    {
      SameKey(keys, name, id, attrs[k].0);
      ValuesUnderMember(Keys(attrs), Values(attrs), id, attrs[k].1);
      assert Keys(attrs)[k] == attrs[k].0 && Values(attrs)[k] == attrs[k].1;
    }
    forall j | 0 <= j < |values|
      ensures exists k | 0 <= k < |plain| :: plain[k].0 == name && plain[k].1 == values[j]
    {
      assert values[j] in values;
      ValuesUnderMember(Keys(attrs), Values(attrs), id, values[j]);
      var k :| 0 <= k < |attrs| && Keys(attrs)[k] == id && Values(attrs)[k] == values[j];
      assert plain[k].0 == name && plain[k].1 == values[j];
    }
    if values != [] {
      var v := values[0];
      assert exists k | 0 <= k < |plain| :: plain[k].0 == name && plain[k].1 == v;
    }
  }

  lemma SubstringAgrees(f: FloatOps, attrs: seq<(nat, AttrValue)>, keys: Table, needle: string)
    requires forall k | 0 <= k < |attrs| :: attrs[k].0 < |keys.strings|
    ensures
      var values, plain := Values(attrs), Decode(keys, attrs);
      (exists k | 0 <= k < |values| :: AttrContains(f, values[k], needle))
      <==> exists k | 0 <= k < |plain| :: AttrContains(f, plain[k].1, needle)
  {
    var values, plain := Values(attrs), Decode(keys, attrs);
    assert forall k | 0 <= k < |attrs| :: values[k] == plain[k].1;
    if k :| 0 <= k < |values| && AttrContains(f, values[k], needle) {
      assert AttrContains(f, plain[k].1, needle);
    }
    if k :| 0 <= k < |plain| && AttrContains(f, plain[k].1, needle) {
      assert AttrContains(f, values[k], needle);
    }
  }

  /** One term on one span: the columnar match is the plain match. */
  lemma MatchAgrees(f: FloatOps, term: Term, trace: Trace, keys: Interner, services: Interner, idx: nat)
    requires trace.Valid() && keys.Valid() && services.Valid()
    requires idx < |trace.rows| && InRange(trace.rows[idx], keys.State(), services.State())
    ensures Matches(f, Resolve(term, keys.ids), trace, services, idx)
            <==> PlainMatches(f, keys.values, term, PlainOf(trace.rows[idx], keys.State(), services.State()))
  {
    hide AttrMatches, AttrContains, Contains, Compare, ValuesUnder;
    hide Flat, Offsets, IndexOf, PendingOf, ParentSlots, OrphanFlags;
    var row := trace.rows[idx];
    match term {
      case Attr(op, key, raw) =>
        assert keys.Lookup(key) == IdOf(keys.State(), key);
        if key in keys.values {
          AttrAgrees(f, op, raw, row.attrs, keys.State(), key, keys.ids[key]);
        }
      case Substring(needle) =>
        SubstringAgrees(f, row.attrs, keys.State(), needle);
      case _ =>
    }
  }

  ghost predicate PlainMatchesAll(f: FloatOps, known: seq<string>, terms: seq<Term>, span: PlainSpan) {
    forall j | 0 <= j < |terms| :: PlainMatches(f, known, terms[j], span)
  }

  /** An integer attribute is found by its own decimal text and by no other integer's. */
  lemma IntegerFoundByItsText(f: FloatOps, n: int, m: int)
    requires -(I64_LIMIT as int) <= m < I64_LIMIT
    ensures AttrMatches(f, Eq, Int(n), IntText(m)) <==> n == m
    ensures AttrMatches(f, Ne, Int(n), IntText(m)) <==> n != m
  {
    I64RoundTrip(m);
  }

  // What each term asks of the columns ------------------------------------------------------------------

  /** Duration terms compare the span's end with its start and the wanted nanoseconds. */
  lemma DurationTermsMean(f: FloatOps, nanos: nat, trace: Trace, services: Interner, i: nat)
    requires trace.Valid() && services.Valid() && i < |trace.rows|
    requires ServiceKnown(trace.rows[i], services)
    ensures
      var start, end := trace.startTimes[i], trace.endTimes[i];
      && (Matches(f, IdDuration(Eq, nanos), trace, services, i) <==> end == start + nanos)
      && (Matches(f, IdDuration(Ne, nanos), trace, services, i) <==> start <= end && end != start + nanos)
      && (Matches(f, IdDuration(Gt, nanos), trace, services, i) <==> start + nanos < end)
      && (Matches(f, IdDuration(Gte, nanos), trace, services, i) <==> start + nanos <= end)
      && (Matches(f, IdDuration(Lt, nanos), trace, services, i) <==> start <= end < start + nanos)
      && (Matches(f, IdDuration(Lte, nanos), trace, services, i) <==> start <= end <= start + nanos)
  {
    hide Flat, Offsets, Trace.LinksMatch;
  }

  predicate ServiceKnown(row: Row, services: Interner)
    reads services
  {
    row.serviceId.Some? ==> row.serviceId.value < |services.values|
  }

  predicate IsOrdering(op: Op) {
    op == Gt || op == Gte || op == Lt || op == Lte
  }

  /** Status and service terms know equality alone; a span without a service differs from every name. */
  lemma StatusAndServiceTermsMean(f: FloatOps, op: Op, code: int, want: string, trace: Trace, services: Interner,
                                  i: nat)
    requires trace.Valid() && services.Valid() && i < |trace.rows|
    requires ServiceKnown(trace.rows[i], services)
    ensures
      var id := trace.serviceIds[i];
      var named := id.Some? && services.values[id.value] == want;
      && (Matches(f, IdStatus(Eq, code), trace, services, i) <==> trace.statusCodes[i] == code)
      && (Matches(f, IdStatus(Ne, code), trace, services, i) <==> trace.statusCodes[i] != code)
      && (Matches(f, IdService(Eq, want), trace, services, i) <==> named)
      && (Matches(f, IdService(Ne, want), trace, services, i) <==> !named)
      && (IsOrdering(op) ==> !Matches(f, IdService(op, want), trace, services, i))
      && (IsOrdering(op) ==> !Matches(f, IdStatus(op, code), trace, services, i))
  {
    hide Flat, Offsets, Trace.LinksMatch;
  }

  // The span carries the value under the key.
  ghost predicate HasValue(attrs: seq<(nat, AttrValue)>, keyId: nat, value: AttrValue) {
    exists k | 0 <= k < |attrs| :: attrs[k].0 == keyId && attrs[k].1 == value
  }

  lemma UnderIsHasValue(attrs: seq<(nat, AttrValue)>, keyId: nat, value: AttrValue)
    ensures value in ValuesUnder(Keys(attrs), Values(attrs), keyId) <==> HasValue(attrs, keyId, value)
  {
    hide ValuesUnder;
    var keys, values := Keys(attrs), Values(attrs);
    ValuesUnderMember(keys, values, keyId, value);
    if k :| 0 <= k < |attrs| && attrs[k].0 == keyId && attrs[k].1 == value {
      assert keys[k] == keyId && values[k] == value;
    }
    if k :| 0 <= k < |keys| && keys[k] == keyId && values[k] == value {
      assert attrs[k].0 == keyId && attrs[k].1 == value;
    }
  }

  /** An attribute term is met by some value under its key; with no such value, only by `!=`. */
  lemma AttributeTermsMean(f: FloatOps, op: Op, keyId: nat, raw: string, trace: Trace, services: Interner, i: nat)
    requires trace.Valid() && services.Valid() && i < |trace.rows|
    requires ServiceKnown(trace.rows[i], services)
    ensures
      var attrs := trace.rows[i].attrs;
      Matches(f, IdAttr(op, Some(keyId), raw), trace, services, i) <==>
      if exists value :: HasValue(attrs, keyId, value)
      then exists value :: HasValue(attrs, keyId, value) && AttrMatches(f, op, value, raw)
      else op == Ne
    ensures !Matches(f, IdAttr(op, None, raw), trace, services, i)
  {
    hide AttrMatches, ValuesUnder, HasValue, Keys, Values, Flat, Offsets, Trace.LinksMatch;
    var attrs := trace.rows[i].attrs;
    var under := ValuesUnder(Keys(attrs), Values(attrs), keyId);
    forall value ensures value in under <==> HasValue(attrs, keyId, value) {
      UnderIsHasValue(attrs, keyId, value);
    }
    assert forall j | 0 <= j < |under| :: HasValue(attrs, keyId, under[j]);
    assert Matches(f, IdAttr(op, Some(keyId), raw), trace, services, i)
           <==> if under == [] then op == Ne else exists k | 0 <= k < |under| :: AttrMatches(f, op, under[k], raw);
    if under != [] {
      assert HasValue(attrs, keyId, under[0]);
    }
  }

  predicate Surrounds(text: string, before: string, needle: string, after: string) {
    text == before + needle + after
  }

  /** Containing a text is being that text with something, or nothing, on either side. */
  lemma ContainsExactly(text: string, needle: string)
    ensures Contains(text, needle) <==> exists before, after :: Surrounds(text, before, needle, after)
  {
    if i :| 0 <= i <= |text| && OccursAt(text, needle, i) {
      assert text == text[..i] + text[i..i + |needle|] + text[i + |needle|..];
      assert Surrounds(text, text[..i], needle, text[i + |needle|..]);
    }
    if before, after :| Surrounds(text, before, needle, after) {
      assert text[|before|..|before| + |needle|] == needle;
      assert OccursAt(text, needle, |before|);
    }
  }

  // A value as it is searched: strings as they are, the rest as they are printed.
  predicate PrintsAs(f: FloatOps, attr: AttrValue, text: string) {
    match attr
    case Str(s) => text == s
    case Int(n) => text == IntText(n)
    case Float(d) => text == f.text(d)
    case Bool(b) => text == if b then "true" else "false"
  }

  ghost predicate Holds(text: string, needle: string) {
    exists before, after :: Surrounds(text, before, needle, after)
  }

  /** A substring term is met by a span whose name, or some value as printed, has the text in it. */
  lemma SubstringTermsMean(f: FloatOps, needle: string, trace: Trace, services: Interner, i: nat)
    requires trace.Valid() && services.Valid() && i < |trace.rows|
    requires ServiceKnown(trace.rows[i], services)
    ensures
      var attrs := trace.rows[i].attrs;
      Matches(f, IdSubstring(needle), trace, services, i) <==>
      || Holds(trace.names[i], needle)
      || exists k | 0 <= k < |attrs| :: PrintHolds(f, attrs[k].1, needle)
  {
    hide Contains, Holds, AttrContains, PrintHolds, Flat, Offsets, Trace.LinksMatch;
    var attrs := trace.rows[i].attrs;
    var values := Values(attrs);
    NameHolds(trace.names[i], needle);
    forall k | 0 <= k < |attrs| ensures AttrContains(f, values[k], needle) <==> PrintHolds(f, attrs[k].1, needle) {
      ValueHolds(f, attrs[k].1, needle);
    }
    assert trace.Attributes(i) == values;
    assert Matches(f, IdSubstring(needle), trace, services, i)
           <==> Contains(trace.names[i], needle) || exists k | 0 <= k < |values| :: AttrContains(f, values[k], needle);
    if k :| 0 <= k < |values| && AttrContains(f, values[k], needle) {
      assert PrintHolds(f, attrs[k].1, needle);
    }
    if k :| 0 <= k < |attrs| && PrintHolds(f, attrs[k].1, needle) {
      assert AttrContains(f, values[k], needle);
    }
  }

  ghost predicate PrintHolds(f: FloatOps, attr: AttrValue, needle: string) {
    exists text | PrintsAs(f, attr, text) :: Holds(text, needle)
  }

  lemma NameHolds(text: string, needle: string)
    ensures Contains(text, needle) <==> Holds(text, needle)
  {
    ContainsExactly(text, needle);
  }

  lemma ValueHolds(f: FloatOps, attr: AttrValue, needle: string)
    ensures AttrContains(f, attr, needle) <==> PrintHolds(f, attr, needle)
  {
    hide Contains, Holds;
    var printed := match attr case Str(s) => s case Int(n) => IntText(n) case Float(d) => f.text(d)
                   case Bool(b) => if b then "true" else "false";
    assert PrintsAs(f, attr, printed);
    NameHolds(printed, needle);
  }

  /** The same meanings over plain spans, which is how the filter's answer is stated. */
  lemma PlainTermsMean(f: FloatOps, known: seq<string>, op: Op, nanos: nat, code: int, want: string, span: PlainSpan)
    ensures
      var start, end := span.startTime, span.endTime;
      && (PlainMatches(f, known, Duration(Eq, nanos), span) <==> end == start + nanos)
      && (PlainMatches(f, known, Duration(Ne, nanos), span) <==> start <= end && end != start + nanos)
      && (PlainMatches(f, known, Duration(Gt, nanos), span) <==> start + nanos < end)
      && (PlainMatches(f, known, Duration(Gte, nanos), span) <==> start + nanos <= end)
      && (PlainMatches(f, known, Duration(Lt, nanos), span) <==> start <= end < start + nanos)
      && (PlainMatches(f, known, Duration(Lte, nanos), span) <==> start <= end <= start + nanos)
    ensures PlainMatches(f, known, Status(Eq, code), span) <==> span.statusCode == code
    ensures PlainMatches(f, known, Status(Ne, code), span) <==> span.statusCode != code
    ensures PlainMatches(f, known, Service(Eq, want), span) <==> span.service == Some(want)
    ensures PlainMatches(f, known, Service(Ne, want), span) <==> span.service != Some(want)
    ensures IsOrdering(op) ==>
              !PlainMatches(f, known, Status(op, code), span) && !PlainMatches(f, known, Service(op, want), span)
    ensures PlainMatches(f, known, Substring(want), span) <==>
            || Holds(span.name, want)
            || exists k | 0 <= k < |span.attributes| :: PrintHolds(f, span.attributes[k].1, want)
  {
    hide Contains, Holds, AttrContains, PrintHolds;
    NameHolds(span.name, want);
    forall k | 0 <= k < |span.attributes|
      ensures AttrContains(f, span.attributes[k].1, want) <==> PrintHolds(f, span.attributes[k].1, want)
    {
      ValueHolds(f, span.attributes[k].1, want);
    }
  }

  /** An attribute term over plain spans: its key must be known, and some value under it must match. */
  lemma PlainAttributesMean(f: FloatOps, known: seq<string>, op: Op, key: string, raw: string, span: PlainSpan)
    ensures PlainMatches(f, known, Attr(op, key, raw), span) <==>
            && key in known
            && if exists value :: (key, value) in span.attributes
               then exists value :: (key, value) in span.attributes && AttrMatches(f, op, value, raw)
               else op == Ne
  {
    hide AttrMatches;
    var attrs := span.attributes;
    if k :| 0 <= k < |attrs| && attrs[k].0 == key && AttrMatches(f, op, attrs[k].1, raw) {
      assert (key, attrs[k].1) in attrs;
    }
    if k :| 0 <= k < |attrs| && attrs[k].0 == key {
      assert (key, attrs[k].1) in attrs;
    }
    if value :| (key, value) in attrs {
      var k :| 0 <= k < |attrs| && attrs[k] == (key, value);
      assert attrs[k].0 == key;
    }
    if value :| (key, value) in attrs && AttrMatches(f, op, value, raw) {
      var k :| 0 <= k < |attrs| && attrs[k] == (key, value);
      assert attrs[k].0 == key && AttrMatches(f, op, attrs[k].1, raw);
    }
  }

  // Values -----------------------------------------------------------------------------------------------

  /** Equality, kind by kind: `!=` is the opposite of `=`, and a value equals only a text of its own kind. */
  lemma EqualityMeans(f: FloatOps, s: string, n: int, b: bool, raw: string)
    ensures AttrMatches(f, Eq, Str(s), raw) <==> raw == s
    ensures AttrMatches(f, Ne, Str(s), raw) <==> raw != s
    ensures AttrMatches(f, Eq, Bool(b), raw) <==> (b && raw == "true") || (!b && raw == "false")
    ensures AttrMatches(f, Ne, Bool(b), raw) <==> !((b && raw == "true") || (!b && raw == "false"))
    ensures AttrMatches(f, Eq, Int(n), raw) <==>
            && -0x8000_0000_0000_0000 <= n < 0x8000_0000_0000_0000
            && (|| (n >= 0 && (Spells(raw, n) || (raw != "" && raw[0] == '+' && Spells(raw[1..], n))))
                || (n <= 0 && raw != "" && raw[0] == '-' && Spells(raw[1..], -n)))
    ensures AttrMatches(f, Ne, Int(n), raw) <==> !AttrMatches(f, Eq, Int(n), raw)
  {
    hide Spells, ParseI64;
    I64Exactly(raw, n);
  }

  // Double arithmetic that agrees with the order of the numbers the doubles stand for.
  ghost predicate Ordered(f: FloatOps, value: Double -> real) {
    forall a, b ::
      && (f.compare(Eq, a, b) <==> value(a) == value(b))
      && (f.compare(Ne, a, b) <==> value(a) != value(b))
      && (f.compare(Gt, a, b) <==> value(a) > value(b))
      && (f.compare(Gte, a, b) <==> value(a) >= value(b))
      && (f.compare(Lt, a, b) <==> value(a) < value(b))
      && (f.compare(Lte, a, b) <==> value(a) <= value(b))
  }

  /**
   Only integers and doubles can satisfy an ordering, and only against a number: the value stands
   on the left of the operator and the text's number on the right.
   */
  lemma OrderingMeans(f: FloatOps, value: Double -> real, attr: AttrValue, raw: string)
    requires Ordered(f, value)
    ensures
      var want := f.parse(raw);
      if want.None? || attr.Str? || attr.Bool? then
        forall op | IsOrdering(op) :: !AttrMatches(f, op, attr, raw)
      else
        var got := value(if attr.Int? then f.ofInt(attr.number) else attr.double);
        && (AttrMatches(f, Gt, attr, raw) <==> got > value(want.value))
        && (AttrMatches(f, Gte, attr, raw) <==> got >= value(want.value))
        && (AttrMatches(f, Lt, attr, raw) <==> got < value(want.value))
        && (AttrMatches(f, Lte, attr, raw) <==> got <= value(want.value))
        && (attr.Float? ==> (AttrMatches(f, Eq, attr, raw) <==> got == value(want.value)))
        && (attr.Float? ==> (AttrMatches(f, Ne, attr, raw) <==> got != value(want.value)))
  {
  }

  // Two queries joined by whitespace keep exactly the spans that pass both.
  lemma QueriesIntersect(f: FloatOps, known: seq<string>, q1: string, gap: char, q2: string, span: PlainSpan)
    requires IsWhitespace(gap)
    requires AtRest(Feed(BLANK, q1))
    ensures PlainMatchesAll(f, known, TermsOf(Tokens(q1 + [gap] + q2)), span)
            <==> PlainMatchesAll(f, known, TermsOf(Tokens(q1)), span)
                 && PlainMatchesAll(f, known, TermsOf(Tokens(q2)), span)
  {
    hide PlainMatches, Feed, TermsOf, Tokens, AtRest;
    QueriesCompose(q1, gap, q2);
    MatchesAllConcat(f, known, TermsOf(Tokens(q1)), TermsOf(Tokens(q2)), span);
  }

  lemma MatchesAllConcat(f: FloatOps, known: seq<string>, a: seq<Term>, b: seq<Term>, span: PlainSpan)
    ensures PlainMatchesAll(f, known, a + b, span)
            <==> PlainMatchesAll(f, known, a, span) && PlainMatchesAll(f, known, b, span)
  {
    hide PlainMatches;
    if PlainMatchesAll(f, known, a + b, span) {
      assert forall j | 0 <= j < |a| :: a[j] == (a + b)[j];
      assert forall j | 0 <= j < |b| :: b[j] == (a + b)[|a| + j];
    }
  }

  // Every interned id the trace holds is in range, as it is in every reachable store.
  ghost predicate IdsResolve(trace: Trace, keys: Interner, services: Interner)
    reads trace, keys, services
  {
    forall i | 0 <= i < |trace.rows| :: InRange(trace.rows[i], keys.State(), services.State())
  }

  method ScanTrace(f: FloatOps, terms: seq<IdTerm>, trace: Trace, services: Interner, ghost keys: Interner)
    returns (indices: seq<nat>)
    requires trace.Valid() && services.Valid() && IdsResolve(trace, keys, services)
    ensures forall a, b | 0 <= a < b < |indices| :: indices[a] < indices[b]
    ensures forall i: nat :: i in indices <==>
              i < |trace.rows| && forall j | 0 <= j < |terms| :: Matches(f, terms[j], trace, services, i)
  {
    hide Matches;
    indices := [];
    for idx := 0 to trace.SpanCount()
      invariant forall a, b | 0 <= a < b < |indices| :: indices[a] < indices[b]
      invariant forall i: nat :: i in indices <==>
                  i < idx && forall j | 0 <= j < |terms| :: Matches(f, terms[j], trace, services, i)
    {
      ServiceInRange(trace, keys, services, idx);
      if forall j | 0 <= j < |terms| :: Matches(f, terms[j], trace, services, idx) {
        assert forall a | 0 <= a < |indices| :: indices[a] in indices;
        indices := indices + [idx];
      }
    }
  }

  lemma ServiceInRange(trace: Trace, keys: Interner, services: Interner, idx: nat)
    requires IdsResolve(trace, keys, services) && idx < |trace.rows|
    ensures InRange(trace.rows[idx], keys.State(), services.State())
    ensures trace.rows[idx].serviceId.Some? ==> trace.rows[idx].serviceId.value < |services.values|
  {
  }

  function ResolveAll(terms: seq<Term>, ids: map<string, nat>): (resolved: seq<IdTerm>)
    ensures |resolved| == |terms|
    ensures forall j | 0 <= j < |terms| :: resolved[j] == Resolve(terms[j], ids)
  {
    seq(|terms|, j requires 0 <= j < |terms| => Resolve(terms[j], ids))
  }

  lemma AllAgree(f: FloatOps, terms: seq<Term>, trace: Trace, keys: Interner, services: Interner, i: nat)
    requires trace.Valid() && keys.Valid() && services.Valid() && IdsResolve(trace, keys, services)
    requires i < |trace.rows|
    ensures
      var resolved := ResolveAll(terms, keys.ids);
      (forall j | 0 <= j < |resolved| :: Matches(f, resolved[j], trace, services, i))
      <==> PlainMatchesAll(f, keys.values, terms, PlainOf(trace.rows[i], keys.State(), services.State()))
  {
    hide Matches, PlainMatches, Resolve, PlainOf, Trace.Valid, Interner.Valid;
    ServiceInRange(trace, keys, services, i);
    var resolved := ResolveAll(terms, keys.ids);
    forall j | 0 <= j < |terms|
      ensures Matches(f, resolved[j], trace, services, i)
              <==> PlainMatches(f, keys.values, terms[j], PlainOf(trace.rows[i], keys.State(), services.State()))
    {
      MatchAgrees(f, terms[j], trace, keys, services, i);
    }
  }

  /** The whole filter: parse, resolve keys, scan. */
  method GetFilter(f: FloatOps, q: string, trace: Trace, keys: Interner, services: Interner)
    returns (indices: seq<nat>, dropped: seq<string>)
    requires trace.Valid() && keys.Valid() && services.Valid() && IdsResolve(trace, keys, services)
    ensures dropped == DroppedOf(Tokens(q))
    ensures forall a, b | 0 <= a < b < |indices| :: indices[a] < indices[b]
    ensures forall i: nat :: i in indices <==>
              && i < |trace.rows|
              && PlainMatchesAll(f, keys.values, TermsOf(Tokens(q)),
                                 PlainOf(trace.rows[i], keys.State(), services.State()))
  {
    hide Matches, PlainMatchesAll, TermsOf, DroppedOf, Tokens, ResolveAll, Trace.Valid, Interner.Valid;
    var terms;
    terms, dropped := ParseQuery(q);
    var resolved := ResolveAll(terms, keys.ids);
    indices := ScanTrace(f, resolved, trace, services, keys);
    forall i: nat | i < |trace.rows|
      ensures (forall j | 0 <= j < |resolved| :: Matches(f, resolved[j], trace, services, i))
              <==> PlainMatchesAll(f, keys.values, terms, PlainOf(trace.rows[i], keys.State(), services.State()))
    {
      AllAgree(f, terms, trace, keys, services, i);
    }
  }
}
