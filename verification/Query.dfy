/**
 Filter terms: `KEY OP VALUE`, or a bare substring. A term that cannot be read is dropped and
 reported; the rest of the query still applies.
 */
module Query {
  import opened Types
  import opened Numerals
  import opened Scanner

  datatype Op = Eq | Ne | Gt | Gte | Lt | Lte

  // A term with its attribute key still a string; matching resolves keys through the interner.
  datatype Term =
    | Service(op: Op, want: string)
    | Status(op: Op, code: int)
    | Duration(op: Op, nanos: nat)
    | Attr(op: Op, key: string, raw: string)
    | Substring(needle: string)

  datatype Parsed = Ok(term: Term) | Malformed(text: string)

  predicate IsAlpha(c: char) {
    'a' <= c <= 'z' || 'A' <= c <= 'Z'
  }

  predicate IsKeyStart(c: char) {
    IsAlpha(c) || c == '_'
  }

  predicate IsKeyChar(c: char) {
    IsAlpha(c) || IsDigit(c) || c == '_' || c == '.'
  }

  function KeyChars(text: string): nat {
    if text == "" || !IsKeyChar(text[0]) then 0 else 1 + KeyChars(text[1..])
  }

  function KeyLength(text: string): (n: nat)
    ensures n <= |text|
  {
    KeyCharsBound(text);
    if text != "" && IsKeyStart(text[0]) then KeyChars(text) else 0
  }

  lemma {:induction false} KeyCharsBound(text: string)
    ensures KeyChars(text) <= |text|
  {
    if text != "" && IsKeyChar(text[0]) {
      KeyCharsBound(text[1..]);
    }
  }

  // Two-character operators are tried before their one-character prefixes.
  function FindOp(rest: string): Option<Op> {
    if ">=" <= rest then Some(Gte)
    else if "<=" <= rest then Some(Lte)
    else if "!=" <= rest then Some(Ne)
    else if "=" <= rest then Some(Eq)
    else if ">" <= rest then Some(Gt)
    else if "<" <= rest then Some(Lt)
    else None
  }

  function OpText(op: Op): string {
    match op
    case Eq => "="
    case Ne => "!="
    case Gt => ">"
    case Gte => ">="
    case Lt => "<"
    case Lte => "<="
  }

  function StripSuffix(s: string, suffix: string): Option<string> {
    if |suffix| <= |s| && s[|s| - |suffix|..] == suffix then Some(s[..|s| - |suffix|]) else None
  }

  function CheckedMul(n: Option<nat>, unit: nat): Option<nat> {
    if n.Some? && n.value * unit < U64_LIMIT then Some(n.value * unit) else None
  }

  function ParseDuration(raw: string): Option<nat> {
    if StripSuffix(raw, "ms").Some? then CheckedMul(ParseU64(StripSuffix(raw, "ms").value), 1_000_000)
    else if StripSuffix(raw, "us").Some? then CheckedMul(ParseU64(StripSuffix(raw, "us").value), 1_000)
    else if StripSuffix(raw, "ns").Some? then CheckedMul(ParseU64(StripSuffix(raw, "ns").value), 1)
    else if StripSuffix(raw, "s").Some? then CheckedMul(ParseU64(StripSuffix(raw, "s").value), 1_000_000_000)
    else CheckedMul(ParseU64(raw), 1)
  }

  function ParseTerm(text: string, startsQuoted: bool): Parsed {
    var n := KeyLength(text);
    if startsQuoted || n == 0 || n == |text| then Ok(Substring(text)) else
      var key, rest := text[..n], text[n..];
      match FindOp(rest)
      case None => if rest[0] == '!' || rest[0] == '~' then Malformed(text) else Ok(Substring(text))
      case Some(op) => ParseValue(text, key, op, rest[|OpText(op)|..])
  }

  function ParseValue(text: string, key: string, op: Op, value: string): Parsed {
    if key == "service" then
      if op == Eq || op == Ne then Ok(Service(op, value)) else Malformed(text)
    else if key == "status" then
      if op == Eq || op == Ne then
        if value == "unset" then Ok(Status(op, 0))
        else if value == "ok" then Ok(Status(op, 1))
        else if value == "error" then Ok(Status(op, 2))
        else Malformed(text)
      else Malformed(text)
    else if key == "duration" then
      var nanos := ParseDuration(value);
      if nanos.Some? then Ok(Duration(op, nanos.value)) else Malformed(text)
    else Ok(Attr(op, key, value))
  }

  // What a list of tokens means: the terms that apply and the texts that were dropped.
  function ParseToken(token: Token): Parsed {
    if token.unterminated then Malformed(token.text) else ParseTerm(token.text, token.startsQuoted)
  }

  function TermsOf(tokens: seq<Token>): seq<Term> {
    if tokens == [] then [] else
      var last := ParseToken(tokens[|tokens| - 1]);
      TermsOf(tokens[..|tokens| - 1]) + if last.Ok? then [last.term] else []
  }

  function DroppedOf(tokens: seq<Token>): seq<string> {
    if tokens == [] then [] else
      var last := ParseToken(tokens[|tokens| - 1]);
      DroppedOf(tokens[..|tokens| - 1]) + if last.Malformed? then [last.text] else []
  }

  method ParseQuery(q: string) returns (terms: seq<Term>, dropped: seq<string>)
    ensures terms == TermsOf(Tokens(q))
    ensures dropped == DroppedOf(Tokens(q))
  {
    var tokens := Tokenize(q);
    terms, dropped := [], [];
    for i := 0 to |tokens|
      invariant terms == TermsOf(tokens[..i])
      invariant dropped == DroppedOf(tokens[..i])
    {
      assert tokens[..i + 1][..i] == tokens[..i];
      var Token(text, unterminated, startsQuoted) := tokens[i];
      if unterminated {
        dropped := dropped + [text];
        continue;
      }
      match ParseTerm(text, startsQuoted) {
        case Ok(term) => terms := terms + [term];
        case Malformed(raw) => dropped := dropped + [raw];
      }
    }
    assert tokens[..|tokens|] == tokens;
  }

  lemma {:induction false} ParsingConcat(a: seq<Token>, b: seq<Token>)
    ensures TermsOf(a + b) == TermsOf(a) + TermsOf(b)
    ensures DroppedOf(a + b) == DroppedOf(a) + DroppedOf(b)
  {
    hide ParseToken;
    if b == [] {
      assert a + b == a;
    } else {
      var n := |b| - 1;
      assert (a + b)[..|a + b| - 1] == a + b[..n];
      ParsingConcat(a, b[..n]);
    }
  }

  /** A query that leaves the scanner at rest can be extended: terms and dropped texts concatenate. */
  lemma QueriesCompose(q1: string, gap: char, q2: string)
    requires IsWhitespace(gap)
    requires AtRest(Feed(BLANK, q1))
    ensures TermsOf(Tokens(q1 + [gap] + q2)) == TermsOf(Tokens(q1)) + TermsOf(Tokens(q2))
    ensures DroppedOf(Tokens(q1 + [gap] + q2)) == DroppedOf(Tokens(q1)) + DroppedOf(Tokens(q2))
  {
    RestComposes(q1, gap, q2);
    ParsingConcat(Tokens(q1), Tokens(q2));
  }

  lemma {:induction false} EveryTokenCounts(tokens: seq<Token>)
    ensures |TermsOf(tokens)| + |DroppedOf(tokens)| == |tokens|
  {
    hide ParseToken;
    if tokens != [] {
      EveryTokenCounts(tokens[..|tokens| - 1]);
    }
  }

  lemma ParsingSnoc(front: seq<Token>, token: Token)
    ensures TermsOf(front + [token]) == TermsOf(front) + if ParseToken(token).Ok? then [ParseToken(token).term] else []
    ensures DroppedOf(front + [token])
         == DroppedOf(front) + if ParseToken(token).Malformed? then [ParseToken(token).text] else []
  {
    hide ParseToken;
    assert (front + [token])[..|front|] == front;
  }

  /**
   Every token is answered for, in its place: after the terms and dropped texts of the tokens
   before it comes its own term, or its own text among the dropped, and nothing else is listed.
   */
  lemma NothingVanishes(tokens: seq<Token>, k: nat)
    requires k < |tokens|
    ensures |TermsOf(tokens)| + |DroppedOf(tokens)| == |tokens|
    ensures
      var terms, dropped := |TermsOf(tokens[..k])|, |DroppedOf(tokens[..k])|;
      match ParseToken(tokens[k])
      case Ok(term) => terms < |TermsOf(tokens)| && TermsOf(tokens)[terms] == term
      case Malformed(text) => dropped < |DroppedOf(tokens)| && DroppedOf(tokens)[dropped] == text == tokens[k].text
  {
    hide ParseToken, TermsOf, DroppedOf;
    EveryTokenCounts(tokens);
    MalformedIsText(tokens[k]);
    var front, token, rest := tokens[..k], tokens[k], tokens[k + 1..];
    assert tokens == front + [token] + rest;
    ParsingSnoc(front, token);
    ParsingConcat(front + [token], rest);
  }

  lemma MalformedIsText(token: Token)
    ensures ParseToken(token).Malformed? ==> ParseToken(token).text == token.text
  {
    hide ParseDuration, FindOp, KeyLength;
  }

  // Rendering ---------------------------------------------------------------------------------------

  function StatusText(code: int): string {
    if code == 0 then "unset" else if code == 1 then "ok" else "error"
  }

  // The token a term is written as, before quoting.
  function Text(term: Term): string {
    match term
    case Service(op, want) => "service" + OpText(op) + want
    case Status(op, code) => "status" + OpText(op) + StatusText(code)
    case Duration(op, nanos) => "duration" + OpText(op) + (Decimal(nanos) + "ns")
    case Attr(op, key, raw) => key + OpText(op) + raw
    case Substring(needle) => needle
  }

  function Render(term: Term): string {
    match term
    case Service(op, want) => "service" + OpText(op) + Quoted(want)
    case Status(_, _) => Text(term)
    case Duration(_, _) => Text(term)
    case Attr(op, key, raw) => key + OpText(op) + Quoted(raw)
    case Substring(needle) => Quoted(needle)
  }

  predicate IsKey(key: string) {
    key != "" && IsKeyStart(key[0]) && forall i | 0 <= i < |key| :: IsKeyChar(key[i])
  }

  predicate IsEquality(op: Op) {
    op == Eq || op == Ne
  }

  // A term the grammar has a place for.
  predicate Expressible(term: Term) {
    match term
    case Service(op, _) => IsEquality(op)
    case Status(op, code) => IsEquality(op) && 0 <= code <= 2
    case Duration(_, nanos) => nanos < U64_LIMIT
    case Attr(_, key, _) => IsKey(key) && key != "service" && key != "status" && key != "duration"
    case Substring(_) => true
  }

  // The values whose quoted form the scanner and the operator table read back.
  predicate Readable(term: Term) {
    match term
    case Service(_, want) => !EndsInBackslash(want)
    case Status(_, _) => true
    case Duration(_, _) => true
    case Attr(op, _, raw) => !EndsInBackslash(raw) && !((op == Gt || op == Lt) && "=" <= raw)
    case Substring(needle) => !EndsInBackslash(needle) && needle != ""
  }

  function QuotedValue(term: Term): string {
    match term
    case Service(_, want) => want
    case Attr(_, _, raw) => raw
    case Substring(needle) => needle
    case _ => ""
  }

  // Reading back ------------------------------------------------------------------------------------

  lemma {:induction false} KeyCharsOf(key: string, rest: string)
    requires forall i | 0 <= i < |key| :: IsKeyChar(key[i])
    requires rest == "" || !IsKeyChar(rest[0])
    ensures KeyChars(key + rest) == |key|
  {
    if key == "" {
      assert key + rest == rest;
    } else {
      assert (key + rest)[1..] == key[1..] + rest;
      KeyCharsOf(key[1..], rest);
    }
  }

  // A key, an operator and a value are told apart, unless the value completes a longer operator.
  lemma KeyOpValue(key: string, op: Op, value: string)
    requires IsKey(key)
    ensures
      var text := key + OpText(op) + value;
      var longer := (op == Gt || op == Lt) && "=" <= value;
      ParseTerm(text, false)
      == if longer then ParseValue(text, key, if op == Gt then Gte else Lte, value[1..])
         else ParseValue(text, key, op, value)
  {
    hide FindOp, OpText, ParseValue;
    var text, rest := key + OpText(op) + value, OpText(op) + value;
    OpFound(op, value);
    assert text == key + rest;
    KeyCharsOf(key, rest);
    assert text[0] == key[0];
    assert text[..|key|] == key && text[|key|..] == rest;
  }

  lemma OpFound(op: Op, value: string)
    ensures
      var rest := OpText(op) + value;
      var longer := (op == Gt || op == Lt) && "=" <= value;
      var found := if !longer then op else if op == Gt then Gte else Lte;
      && rest != "" && !IsKeyChar(rest[0])
      && FindOp(rest) == Some(found)
      && |OpText(found)| <= |rest|
      && rest[|OpText(found)|..] == if longer then value[1..] else value
  {
    var rest := OpText(op) + value;
    if (op == Gt || op == Lt) && "=" <= value {
      assert rest[2..] == value[1..];
    } else {
      assert rest[|OpText(op)|..] == value;
    }
  }

  /** After a key, a lone `!` or `~` is an unknown operator, dropped; any other mark makes a bareword. */
  lemma UnknownOperators(key: string, mark: char, tail: string)
    requires IsKey(key) && !IsKeyChar(mark)
    requires mark != '=' && mark != '<' && mark != '>' && !(mark == '!' && "=" <= tail)
    ensures
      var text := key + [mark] + tail;
      ParseTerm(text, false) == if mark == '!' || mark == '~' then Malformed(text) else Ok(Substring(text))
  {
    var text, rest := key + [mark] + tail, [mark] + tail;
    assert text == key + rest;
    KeyCharsOf(key, rest);
    assert text[0] == key[0];
    assert text[..|key|] == key && text[|key|..] == rest;
    assert tail != "" ==> rest[1] == tail[0];
  }

  // The operators and values the three reserved keys accept.
  predicate ReservedKeyAccepts(key: string, op: Op, value: string) {
    && (key == "service" ==> IsEquality(op))
    && (key == "status" ==> IsEquality(op) && (value == "unset" || value == "ok" || value == "error"))
    && (key == "duration" ==> ParseDuration(value).Some?)
  }

  /** A `KEY OP VALUE` term is dropped exactly when its key is reserved and does not accept it. */
  lemma DroppedIffRefused(key: string, op: Op, value: string)
    requires IsKey(key)
    requires !((op == Gt || op == Lt) && "=" <= value)
    ensures
      var parsed := ParseTerm(key + OpText(op) + value, false);
      && (parsed.Malformed? <==> !ReservedKeyAccepts(key, op, value))
      && (parsed.Malformed? ==> parsed.text == key + OpText(op) + value)
  {
    hide ParseTerm, OpText, ParseDuration;
    KeyOpValue(key, op, value);
  }

  // The text is a key followed by a mark that starts no operator ...
  predicate HasUnknownOperator(text: string, key: string, mark: char, tail: string) {
    && IsKey(key)
    && text == key + [mark] + tail
    && (mark == '~' || (mark == '!' && !("=" <= tail)))
  }

  // ... or a key, an operator and a value that the key does not accept.
  predicate HasRefusedValue(text: string, key: string, op: Op, value: string) {
    && IsKey(key)
    && text == key + OpText(op) + value
    && !((op == Gt || op == Lt) && "=" <= value)
    && !ReservedKeyAccepts(key, op, value)
  }

  lemma {:induction false} KeyPrefix(text: string, n: nat)
    requires n <= KeyChars(text) <= |text|
    ensures forall i | 0 <= i < n :: IsKeyChar(text[i])
  {
    if n > 0 {
      KeyCharsBound(text[1..]);
      KeyPrefix(text[1..], n - 1);
      forall i | 0 <= i < n ensures IsKeyChar(text[i]) {
        assert i > 0 ==> text[i] == text[1..][i - 1];
      }
    }
  }

  lemma NoOperator(key: string, rest: string)
    requires IsKey(key) && rest != "" && FindOp(rest).None? && (rest[0] == '!' || rest[0] == '~')
    ensures HasUnknownOperator(key + rest, key, rest[0], rest[1..])
  {
    var mark, tail := rest[0], rest[1..];
    assert rest == [mark] + tail;
    assert key + rest == key + [mark] + tail;
    assert "=" <= tail ==> rest[1] == '=';
  }

  lemma OperatorSplits(rest: string, op: Op)
    requires FindOp(rest) == Some(op)
    ensures |OpText(op)| <= |rest|
    ensures
      var value := rest[|OpText(op)|..];
      rest == OpText(op) + value && !((op == Gt || op == Lt) && "=" <= value)
  {
    var value := rest[|OpText(op)|..];
    assert rest == OpText(op) + value;
  }

  // A key that is not the whole text: the longest run of key characters at its start.
  lemma KeySplits(text: string)
    requires KeyLength(text) > 0
    ensures
      var n := KeyLength(text);
      IsKey(text[..n]) && text == text[..n] + text[n..]
  {
    KeyCharsBound(text);
    KeyPrefix(text, KeyLength(text));
  }

  // Why a text was dropped.
  lemma DroppedForAReason(text: string)
    requires ParseTerm(text, false).Malformed?
    ensures || (exists key, mark, tail :: HasUnknownOperator(text, key, mark, tail))
            || (exists key, op, value :: HasRefusedValue(text, key, op, value))
  {
    hide ParseValue, ReservedKeyAccepts, FindOp, OpText, KeyLength, IsKey, HasUnknownOperator;
    var n := KeyLength(text);
    KeySplits(text);
    var key, rest := text[..n], text[n..];
    match FindOp(rest) {
      case None =>
        NoOperator(key, rest);
        assert HasUnknownOperator(text, key, rest[0], rest[1..]);
      case Some(op) =>
        OperatorSplits(rest, op);
        var value := rest[|OpText(op)|..];
        Assoc(key, OpText(op), value);
        DroppedIffRefused(key, op, value);
        assert HasRefusedValue(text, key, op, value);
    }
  }

  /**
   A token is dropped if and only if its quote was never closed, or it does not begin with a quote
   and reads as a key with an unknown operator or with a value the key does not accept.
   */
  lemma DroppedExactly(token: Token)
    ensures ParseToken(token).Malformed? <==>
            || token.unterminated
            || (!token.startsQuoted
                && (|| (exists key, mark, tail :: HasUnknownOperator(token.text, key, mark, tail))
                    || (exists key, op, value :: HasRefusedValue(token.text, key, op, value))))
  {
    hide ParseTerm, ReservedKeyAccepts;
    QuotedIsSubstring(token.text);
    if !token.unterminated && !token.startsQuoted {
      if ParseTerm(token.text, false).Malformed? {
        DroppedForAReason(token.text);
      }
      if key, mark, tail :| HasUnknownOperator(token.text, key, mark, tail) {
        UnknownOperators(key, mark, tail);
      }
      if key, op, value :| HasRefusedValue(token.text, key, op, value) {
        DroppedIffRefused(key, op, value);
      }
    }
  }

  // ASCII letters and the underscore; digits and the dot, by code point.
  predicate IsLetterCode(x: int) {
    0x41 <= x <= 0x5A || 0x61 <= x <= 0x7A || x == 0x5F
  }

  predicate IsTailCode(x: int) {
    IsLetterCode(x) || 0x30 <= x <= 0x39 || x == 0x2E
  }

  /** A key begins with an ASCII letter or underscore, and goes on with letters, digits, underscores and dots. */
  lemma KeyAlphabet(key: string)
    ensures IsKey(key) <==>
            key != "" && IsLetterCode(key[0] as int) && forall i | 0 <= i < |key| :: IsTailCode(key[i] as int)
  {
    forall i | 0 <= i < |key| ensures IsKeyChar(key[i]) <==> IsTailCode(key[i] as int) {
      assert 'a' as int == 0x61 && 'z' as int == 0x7A && 'A' as int == 0x41 && 'Z' as int == 0x5A;
    }
  }

  // How each form of token reads --------------------------------------------------------------------------

  predicate IsReserved(key: string) {
    key == "service" || key == "status" || key == "duration"
  }

  /** The six operators after an attribute key, the longer ones first. */
  lemma OperatorsRead(key: string, value: string)
    requires IsKey(key) && !IsReserved(key)
    ensures ParseTerm(key + "=" + value, false) == Ok(Attr(Eq, key, value))
    ensures ParseTerm(key + "!=" + value, false) == Ok(Attr(Ne, key, value))
    ensures ParseTerm(key + ">=" + value, false) == Ok(Attr(Gte, key, value))
    ensures ParseTerm(key + "<=" + value, false) == Ok(Attr(Lte, key, value))
    ensures !("=" <= value) ==> ParseTerm(key + ">" + value, false) == Ok(Attr(Gt, key, value))
    ensures !("=" <= value) ==> ParseTerm(key + "<" + value, false) == Ok(Attr(Lt, key, value))
  {
    hide ParseTerm, IsKey;
    KeyOpValue(key, Eq, value);
    KeyOpValue(key, Ne, value);
    KeyOpValue(key, Gte, value);
    KeyOpValue(key, Lte, value);
    KeyOpValue(key, Gt, value);
    KeyOpValue(key, Lt, value);
  }

  /** Service terms compare for equality only. */
  lemma ServiceReads(value: string)
    ensures ParseTerm("service=" + value, false) == Ok(Service(Eq, value))
    ensures ParseTerm("service!=" + value, false) == Ok(Service(Ne, value))
    ensures ParseTerm("service>" + value, false).Malformed? && ParseTerm("service<" + value, false).Malformed?
    ensures ParseTerm("service>=" + value, false).Malformed? && ParseTerm("service<=" + value, false).Malformed?
  {
    hide ParseTerm, IsKey;
    ReservedWordsAreKeys();
    KeyOpValue("service", Eq, value);
    KeyOpValue("service", Ne, value);
    KeyOpValue("service", Gte, value);
    KeyOpValue("service", Lte, value);
    KeyOpValue("service", Gt, value);
    KeyOpValue("service", Lt, value);
    assert "service" + "=" == "service=" && "service" + "!=" == "service!=";
    assert "service" + ">" == "service>" && "service" + "<" == "service<";
    assert "service" + ">=" == "service>=" && "service" + "<=" == "service<=";
  }

  /** Status terms know three codes, and compare for equality only. */
  lemma StatusReads(value: string)
    ensures ParseTerm("status=unset", false) == Ok(Status(Eq, 0))
    ensures ParseTerm("status!=unset", false) == Ok(Status(Ne, 0))
    ensures ParseTerm("status=ok", false) == Ok(Status(Eq, 1))
    ensures ParseTerm("status!=ok", false) == Ok(Status(Ne, 1))
    ensures ParseTerm("status=error", false) == Ok(Status(Eq, 2))
    ensures ParseTerm("status!=error", false) == Ok(Status(Ne, 2))
    ensures value != "unset" && value != "ok" && value != "error" ==>
              ParseTerm("status=" + value, false).Malformed? && ParseTerm("status!=" + value, false).Malformed?
    ensures ParseTerm("status>" + value, false).Malformed? && ParseTerm("status<" + value, false).Malformed?
    ensures ParseTerm("status>=" + value, false).Malformed? && ParseTerm("status<=" + value, false).Malformed?
  {
    hide ParseTerm;
    StatusValueReads("unset");
    StatusValueReads("ok");
    StatusValueReads("error");
    StatusValueReads(value);
    assert "status=" + "unset" == "status=unset" && "status!=" + "unset" == "status!=unset";
    assert "status=" + "ok" == "status=ok" && "status!=" + "ok" == "status!=ok";
    assert "status=" + "error" == "status=error" && "status!=" + "error" == "status!=error";
  }

  lemma StatusValueReads(value: string)
    ensures
      var code := if value == "unset" then Some(0) else if value == "ok" then Some(1)
                  else if value == "error" then Some(2) else None;
      && (code.Some? ==> ParseTerm("status=" + value, false) == Ok(Status(Eq, code.value)))
      && (code.Some? ==> ParseTerm("status!=" + value, false) == Ok(Status(Ne, code.value)))
      && (code.None? ==> ParseTerm("status=" + value, false).Malformed?)
      && (code.None? ==> ParseTerm("status!=" + value, false).Malformed?)
    ensures ParseTerm("status>" + value, false).Malformed? && ParseTerm("status<" + value, false).Malformed?
    ensures ParseTerm("status>=" + value, false).Malformed? && ParseTerm("status<=" + value, false).Malformed?
  {
    hide ParseTerm, IsKey;
    ReservedWordsAreKeys();
    KeyOpValue("status", Eq, value);
    KeyOpValue("status", Ne, value);
    KeyOpValue("status", Gte, value);
    KeyOpValue("status", Lte, value);
    KeyOpValue("status", Gt, value);
    KeyOpValue("status", Lt, value);
    assert "status" + "=" == "status=" && "status" + "!=" == "status!=";
    assert "status" + ">" == "status>" && "status" + "<" == "status<";
    assert "status" + ">=" == "status>=" && "status" + "<=" == "status<=";
  }

  /** Duration terms take any operator, and are dropped exactly when the duration cannot be read. */
  lemma DurationReads(value: string)
    ensures
      var nanos, longer := ParseDuration(value), "=" <= value;
      && (nanos.None? ==>
            && ParseTerm("duration=" + value, false).Malformed? && ParseTerm("duration!=" + value, false).Malformed?
            && ParseTerm("duration>=" + value, false).Malformed? && ParseTerm("duration<=" + value, false).Malformed?
            && (!longer ==> ParseTerm("duration>" + value, false).Malformed?)
            && (!longer ==> ParseTerm("duration<" + value, false).Malformed?))
      && (nanos.Some? ==>
            && ParseTerm("duration=" + value, false) == Ok(Duration(Eq, nanos.value))
            && ParseTerm("duration!=" + value, false) == Ok(Duration(Ne, nanos.value))
            && ParseTerm("duration>=" + value, false) == Ok(Duration(Gte, nanos.value))
            && ParseTerm("duration<=" + value, false) == Ok(Duration(Lte, nanos.value))
            && (!longer ==> ParseTerm("duration>" + value, false) == Ok(Duration(Gt, nanos.value)))
            && (!longer ==> ParseTerm("duration<" + value, false) == Ok(Duration(Lt, nanos.value))))
  {
    hide ParseTerm, IsKey, ParseDuration;
    ReservedWordsAreKeys();
    KeyOpValue("duration", Eq, value);
    KeyOpValue("duration", Ne, value);
    KeyOpValue("duration", Gte, value);
    KeyOpValue("duration", Lte, value);
    KeyOpValue("duration", Gt, value);
    KeyOpValue("duration", Lt, value);
    assert "duration" + "=" == "duration=" && "duration" + "!=" == "duration!=";
    assert "duration" + ">" == "duration>" && "duration" + "<" == "duration<";
    assert "duration" + ">=" == "duration>=" && "duration" + "<=" == "duration<=";
  }

  // A key followed by a mark that neither starts an operator nor looks like one.
  predicate IsPunctuated(text: string, key: string, mark: char, tail: string) {
    && IsKey(key)
    && text == key + [mark] + tail
    && !IsKeyChar(mark)
    && mark != '=' && mark != '<' && mark != '>' && mark != '!' && mark != '~'
  }

  /**
   A closed token is a substring term if and only if it begins with a quote, does not begin like a
   key, is a key and nothing else, or is a key followed by a mark that is no operator; and then it
   looks for its whole text.
   */
  lemma SubstringExactly(token: Token)
    requires token.text != "" && !token.unterminated
    ensures ParseToken(token).Ok? && ParseToken(token).term.Substring? <==>
            || token.startsQuoted
            || !IsKeyStart(token.text[0])
            || IsKey(token.text)
            || exists key, mark, tail :: IsPunctuated(token.text, key, mark, tail)
    ensures ParseToken(token).Ok? && ParseToken(token).term.Substring? ==> ParseToken(token).term.needle == token.text
  {
    hide FindOp, ParseValue, IsPunctuated;
    var text := token.text;
    if !token.startsQuoted && IsKeyStart(text[0]) {
      KeySplits(text);
      var n := KeyLength(text);
      var key, rest := text[..n], text[n..];
      WholeKey(text);
      if rest != "" {
        KeyEnds(text);
        TermKind(text, key, rest);
      }
    }
  }

  // A text that starts like a key has a key, and is one exactly when the key is all of it.
  lemma WholeKey(text: string)
    requires text != "" && IsKeyStart(text[0])
    ensures KeyLength(text) > 0
    ensures IsKey(text) <==> KeyLength(text) == |text|
    ensures KeyLength(text) == |text| ==> ParseTerm(text, false) == Ok(Substring(text))
  {
    KeyCharsBound(text);
    if IsKey(text) {
      KeyCharsOf(text, "");
      assert text + "" == text;
    }
    if KeyLength(text) == |text| {
      KeyPrefix(text, |text|);
    }
  }

  lemma KeyEnds(text: string)
    requires KeyLength(text) > 0 && KeyLength(text) < |text|
    ensures !IsKeyChar(text[KeyLength(text)])
  {
    CharsEnd(text);
  }

  lemma {:induction false} CharsEnd(text: string)
    requires KeyChars(text) < |text|
    ensures !IsKeyChar(text[KeyChars(text)])
  {
    if IsKeyChar(text[0]) {
      CharsEnd(text[1..]);
    }
  }

  // What follows the key decides: an operator, an unknown operator, or punctuation.
  lemma TermKind(text: string, key: string, rest: string)
    requires IsKey(key) && text == key + rest && rest != "" && !IsKeyChar(rest[0])
    ensures ParseTerm(text, false).Ok? && ParseTerm(text, false).term.Substring?
            <==> exists mark, tail :: IsPunctuated(text, key, mark, tail)
    ensures (exists k, mark, tail :: IsPunctuated(text, k, mark, tail))
            <==> exists mark, tail :: IsPunctuated(text, key, mark, tail)
    ensures ParseTerm(text, false).Ok? && ParseTerm(text, false).term.Substring?
            ==> ParseTerm(text, false).term.needle == text
  {
    hide ParseTerm, ParseValue;
    var mark, tail := rest[0], rest[1..];
    Assoc(key, [mark], tail);
    assert rest == [mark] + tail;
    forall k, m, l | IsPunctuated(text, k, m, l) ensures IsPunctuated(text, key, m, l) {
      SameKeySplit(text, k, m, l, key, mark, tail);
    }
    if IsPunctuated(text, key, mark, tail) {
      UnknownOperators(key, mark, tail);
    } else {
      forall m, l ensures !IsPunctuated(text, key, m, l) {
        if IsPunctuated(text, key, m, l) {
          SameKeySplit(text, key, m, l, key, mark, tail);
        }
      }
      NotSubstring(text, key, rest);
    }
  }

  // The key of a text is determined: it is the run of key characters before the first other one.
  lemma SameKeySplit(text: string, k1: string, m1: char, t1: string, k2: string, m2: char, t2: string)
    requires IsKey(k1) && IsKey(k2) && !IsKeyChar(m1) && !IsKeyChar(m2)
    requires text == k1 + [m1] + t1 == k2 + [m2] + t2
    ensures k1 == k2 && m1 == m2 && t1 == t2
  {
    Assoc(k1, [m1], t1);
    Assoc(k2, [m2], t2);
    KeyCharsOf(k1, [m1] + t1);
    KeyCharsOf(k2, [m2] + t2);
    assert text[..|k1|] == k1 && text[..|k2|] == k2;
    assert text[|k1|] == m1 && text[|k2|] == m2;
    assert text[|k1| + 1..] == t1 && text[|k2| + 1..] == t2;
  }

  lemma NotSubstring(text: string, key: string, rest: string)
    requires IsKey(key) && text == key + rest && rest != "" && !IsKeyChar(rest[0])
    requires rest[0] == '=' || rest[0] == '<' || rest[0] == '>' || rest[0] == '!' || rest[0] == '~'
    ensures !(ParseTerm(text, false).Ok? && ParseTerm(text, false).term.Substring?)
  {
    hide ParseTerm;
    match FindOp(rest) {
      case Some(op) =>
        OperatorSplits(rest, op);
        var value := rest[|OpText(op)|..];
        Assoc(key, OpText(op), value);
        KeyOpValue(key, op, value);
      case None =>
        NoOperator(key, rest);
        Assoc(key, [rest[0]], rest[1..]);
        assert rest == [rest[0]] + rest[1..];
        UnknownOperators(key, rest[0], rest[1..]);
    }
  }

  /** An unquoted word that is a key, or does not begin like one, is searched for as it stands. */
  lemma BarewordIsSubstring(word: string)
    requires word != "" && AllPlain(word)
    requires IsKey(word) || !IsKeyStart(word[0])
    ensures TermsOf(Tokens(word)) == [Substring(word)]
    ensures DroppedOf(Tokens(word)) == []
  {
    hide Feed, ParseToken, IsKey;
    FeedPlain(BLANK, word);
    assert "" + word == word;
    var token := Token(word, false, false);
    assert Tokens(word) == [token];
    SubstringExactly(token);
    ParsingSnoc([], token);
    assert [] + [token] == [token];
    assert TermsOf([]) == [] && DroppedOf([]) == [];
  }

  // Durations ---------------------------------------------------------------------------------------------

  predicate IsUnit(suffix: string, unit: nat) {
    || (suffix == "s" && unit == 1_000_000_000)
    || (suffix == "ms" && unit == 1_000_000)
    || (suffix == "us" && unit == 1_000)
    || (suffix == "ns" && unit == 1)
    || (suffix == "" && unit == 1)
  }

  // The text is a number and a unit, worth this many nanoseconds.
  ghost predicate Measures(raw: string, num: string, suffix: string, unit: nat, nanos: nat) {
    && IsUnit(suffix, unit)
    && raw == num + suffix
    && ParseU64(num).Some?
    && nanos == ParseU64(num).value * unit
  }

  lemma NumberEndsInDigit(num: string)
    requires ParseU64(num).Some?
    ensures num != "" && IsDigit(num[|num| - 1])
  {
    var digits := if num[0] == '+' then num[1..] else num;
    assert digits[|digits| - 1] == num[|num| - 1];
  }

  lemma ReadsMeasure(num: string, suffix: string, unit: nat)
    requires IsUnit(suffix, unit) && ParseU64(num).Some?
    ensures ParseDuration(num + suffix) == CheckedMul(ParseU64(num), unit)
  {
    hide StripSuffix, ParseU64;
    NumberEndsInDigit(num);
    SuffixOf(num, "s");
    SuffixOf(num, "ms");
    SuffixOf(num, "us");
    NanosSuffix(num);
    assert suffix == "" ==> num + suffix == num;
  }

  lemma NanosSuffix(num: string)
    ensures StripSuffix(num + "ns", "ns") == Some(num)
    ensures StripSuffix(num + "ns", "ms").None? && StripSuffix(num + "ns", "us").None?
  {
    Strips(num, "ns");
    var raw := num + "ns";
    assert raw[|raw| - 2] == 'n';
    BeforeLastDiffers(raw, "ms");
    BeforeLastDiffers(raw, "us");
  }

  lemma StripsBack(raw: string, suffix: string)
    ensures StripSuffix(raw, suffix).Some? ==> raw == StripSuffix(raw, suffix).value + suffix
  {
  }

  /**
   A text is a duration of so many nanoseconds if and only if it is a number followed by `s`, `ms`,
   `us`, `ns` or nothing, and number times unit fits 64 bits.
   */
  lemma DurationExactly(raw: string, nanos: nat)
    ensures ParseDuration(raw) == Some(nanos)
            <==> nanos < 0x1_0000_0000_0000_0000 && exists num, suffix, unit :: Measures(raw, num, suffix, unit, nanos)
  {
    hide StripSuffix, ParseU64;
    if ParseDuration(raw) == Some(nanos) {
      StripsBack(raw, "ms");
      StripsBack(raw, "us");
      StripsBack(raw, "ns");
      StripsBack(raw, "s");
      var suffix := if StripSuffix(raw, "ms").Some? then "ms" else if StripSuffix(raw, "us").Some? then "us"
                    else if StripSuffix(raw, "ns").Some? then "ns" else if StripSuffix(raw, "s").Some? then "s" else "";
      var num := if suffix == "" then raw else StripSuffix(raw, suffix).value;
      var unit := if suffix == "ms" then 1_000_000 else if suffix == "us" then 1_000
                  else if suffix == "s" then 1_000_000_000 else 1;
      assert raw + "" == raw;
      assert Measures(raw, num, suffix, unit, nanos);
    }
    if num, suffix, unit :| Measures(raw, num, suffix, unit, nanos) {
      ReadsMeasure(num, suffix, unit);
    }
  }

  lemma NanosReadBack(nanos: nat)
    requires nanos < U64_LIMIT
    ensures ParseDuration(Decimal(nanos) + "ns") == Some(nanos)
  {
    U64RoundTrip(nanos);
    var raw := Decimal(nanos) + "ns";
    assert raw[|raw| - 2..] == "ns";
    assert raw[..|raw| - 2] == Decimal(nanos);
    assert "ns"[0] == 'n' && "ms"[0] == 'm' && "us"[0] == 'u';
  }

  /** The five ways to write a duration, each refused exactly when it overflows 64 bits of nanoseconds. */
  lemma DurationUnits(n: nat)
    requires n < U64_LIMIT
    ensures ParseDuration(Decimal(n) + "s") == if n * 1_000_000_000 < U64_LIMIT then Some(n * 1_000_000_000) else None
    ensures ParseDuration(Decimal(n) + "ms") == if n * 1_000_000 < U64_LIMIT then Some(n * 1_000_000) else None
    ensures ParseDuration(Decimal(n) + "us") == if n * 1_000 < U64_LIMIT then Some(n * 1_000) else None
    ensures ParseDuration(Decimal(n) + "ns") == Some(n)
    ensures ParseDuration(Decimal(n)) == Some(n)
  {
    U64RoundTrip(n);
    DecimalRoundTrip(n);
    var digits := Decimal(n);
    assert IsDigit(digits[|digits| - 1]);
    SuffixOf(digits, "s");
    SuffixOf(digits, "ms");
    SuffixOf(digits, "us");
    NanosReadBack(n);
  }

  lemma SuffixOf(digits: string, suffix: string)
    requires digits != "" && IsDigit(digits[|digits| - 1])
    requires suffix == "s" || suffix == "ms" || suffix == "us"
    ensures StripSuffix(digits + suffix, suffix) == Some(digits)
    ensures suffix != "ms" ==> StripSuffix(digits + suffix, "ms").None?
    ensures suffix == "s" ==> StripSuffix(digits + suffix, "us").None? && StripSuffix(digits + suffix, "ns").None?
    ensures StripSuffix(digits, "s").None? && StripSuffix(digits, "ms").None?
    ensures StripSuffix(digits, "us").None? && StripSuffix(digits, "ns").None?
  {
    hide StripSuffix;
    var raw := digits + suffix;
    Strips(digits, suffix);
    LastDiffers(digits, "s");
    LastDiffers(digits, "ms");
    LastDiffers(digits, "us");
    LastDiffers(digits, "ns");
    assert suffix == "s" ==> raw[|raw| - 2] == digits[|digits| - 1];
    assert suffix == "us" ==> raw[|raw| - 2] == 'u';
    if suffix == "s" {
      BeforeLastDiffers(raw, "ms");
      BeforeLastDiffers(raw, "us");
      BeforeLastDiffers(raw, "ns");
    } else if suffix == "us" {
      BeforeLastDiffers(raw, "ms");
    }
  }

  lemma Strips(s: string, suffix: string)
    ensures StripSuffix(s + suffix, suffix) == Some(s)
  {
    var raw := s + suffix;
    assert raw[|raw| - |suffix|..] == suffix && raw[..|raw| - |suffix|] == s;
  }

  lemma LastDiffers(s: string, suffix: string)
    requires s != "" && suffix != "" && s[|s| - 1] != suffix[|suffix| - 1]
    ensures StripSuffix(s, suffix).None?
  {
    if |suffix| <= |s| {
      assert s[|s| - |suffix|..][|suffix| - 1] == s[|s| - 1];
    }
  }

  lemma BeforeLastDiffers(s: string, suffix: string)
    requires |s| >= 2 && |suffix| == 2 && s[|s| - 2] != suffix[0]
    ensures StripSuffix(s, suffix).None?
  {
    assert s[|s| - 2..][0] == s[|s| - 2];
  }

  lemma ReservedWordsAreKeys()
    ensures IsKey("service") && IsKey("status") && IsKey("duration")
  {
  }

  lemma QuotedIsSubstring(text: string)
    ensures ParseTerm(text, true) == Ok(Substring(text))
  {
  }

  lemma TextReadsBack(term: Term)
    requires Expressible(term)
    requires Readable(term)
    ensures ParseTerm(Text(term), term.Substring?) == Ok(term)
  {
    hide ParseTerm, IsKey, ParseDuration, Decimal;
    ReservedWordsAreKeys();
    match term {
      case Service(op, want) => KeyOpValue("service", op, want);
      case Status(op, code) => KeyOpValue("status", op, StatusText(code));
      case Duration(op, nanos) =>
        NanosReadBack(nanos);
        DecimalRoundTrip(nanos);
        assert IsDigit(Decimal(nanos)[0]);
        assert (Decimal(nanos) + "ns")[0] == Decimal(nanos)[0];
        KeyOpValue("duration", op, Decimal(nanos) + "ns");
      case Attr(op, key, raw) => KeyOpValue(key, op, raw);
      case Substring(needle) => QuotedIsSubstring(needle);
    }
  }

  // Scanning a rendered term leaves its text pending, at rest unless a backslash ate the quote.
  lemma ScanRendered(sc: Scan, term: Term)
    requires sc.cur == "" && !sc.inQuotes && !sc.startsQuoted
    requires Expressible(term)
    ensures !EndsInBackslash(QuotedValue(term)) ==>
              Feed(sc, Render(term)) == Scan(sc.tokens, Text(term), false, term.Substring?)
    ensures EndsInBackslash(QuotedValue(term)) ==>
              Feed(sc, Render(term)).inQuotes && Feed(sc, Render(term)).cur != ""
              && Feed(sc, Render(term)).tokens == sc.tokens
  {
    hide Feed, AllPlain, Quoted, Decimal, IsKey, EndsInBackslash, StatusText;
    ReservedWordsAreKeys();
    match term {
      case Service(op, want) =>
        PlainPrefix("service", op);
        ScanPrefixed(sc, "service" + OpText(op), want);
      case Attr(op, key, raw) =>
        PlainPrefix(key, op);
        ScanPrefixed(sc, key + OpText(op), raw);
      case Status(op, code) =>
        StatusIsPlain(op, code);
        ScanBare(sc, Text(term));
      case Duration(op, nanos) =>
        DurationIsPlain(op, nanos);
        ScanBare(sc, Text(term));
      case Substring(needle) =>
        ScanSubstring(sc, needle);
    }
  }

  lemma PlainPrefix(key: string, op: Op)
    requires IsKey(key)
    ensures AllPlain(key + OpText(op))
    ensures (key + OpText(op))[|key + OpText(op)| - 1] != '\\'
  {
  }

  lemma StatusIsPlain(op: Op, code: int)
    ensures AllPlain("status" + OpText(op) + StatusText(code))
  {
    ReservedWordsAreKeys();
    PlainPrefix("status", op);
    assert AllPlain(StatusText(code));
    PlainConcat("status" + OpText(op), StatusText(code));
  }

  lemma DurationIsPlain(op: Op, nanos: nat)
    ensures AllPlain("duration" + OpText(op) + (Decimal(nanos) + "ns"))
  {
    ReservedWordsAreKeys();
    PlainPrefix("duration", op);
    DecimalRoundTrip(nanos);
    assert AllPlain(Decimal(nanos)) by {
      assert forall i | 0 <= i < |Decimal(nanos)| :: IsDigit(Decimal(nanos)[i]);
    }
    assert AllPlain("ns");
    PlainConcat(Decimal(nanos), "ns");
    PlainConcat("duration" + OpText(op), Decimal(nanos) + "ns");
  }

  lemma PlainConcat(a: string, b: string)
    requires AllPlain(a) && AllPlain(b)
    ensures AllPlain(a + b)
  {
  }

  lemma ScanBare(sc: Scan, text: string)
    requires sc.cur == "" && !sc.inQuotes && !sc.startsQuoted
    requires AllPlain(text)
    ensures Feed(sc, text) == Scan(sc.tokens, text, false, false)
    ensures !EndsInBackslash("")
  {
    FeedPlain(sc, text);
    assert sc.cur + text == text;
  }

  lemma ScanSubstring(sc: Scan, needle: string)
    requires sc.cur == "" && !sc.inQuotes && !sc.startsQuoted
    ensures !EndsInBackslash(needle) ==> Feed(sc, Quoted(needle)) == Scan(sc.tokens, needle, false, true)
    ensures EndsInBackslash(needle) ==>
              Feed(sc, Quoted(needle)) == Scan(sc.tokens, needle[..|needle| - 1] + "\"", true, true)
  {
    FeedQuoted(sc, needle);
    assert sc.cur + needle == needle;
    if EndsInBackslash(needle) {
      assert sc.cur + needle[..|needle| - 1] == needle[..|needle| - 1];
    }
  }

  lemma ScanPrefixed(sc: Scan, prefix: string, value: string)
    requires sc.cur == "" && !sc.inQuotes && !sc.startsQuoted
    requires prefix != "" && AllPlain(prefix)
    requires prefix[|prefix| - 1] != '\\'
    ensures !EndsInBackslash(value) ==>
              Feed(sc, prefix + Quoted(value)) == Scan(sc.tokens, prefix + value, false, false)
    ensures EndsInBackslash(value) ==>
              Feed(sc, prefix + Quoted(value)) == Scan(sc.tokens, prefix + value[..|value| - 1] + "\"", true, false)
  {
    hide Feed;
    FeedConcat(sc, prefix, Quoted(value));
    FeedPlain(sc, prefix);
    assert sc.cur + prefix == prefix;
    FeedQuoted(sc.(cur := prefix), value);
  }

  // Whole queries -----------------------------------------------------------------------------------

  predicate IsGap(gap: string) {
    gap != "" && forall i | 0 <= i < |gap| :: IsWhitespace(gap[i])
  }

  // `gaps[i]` stands between term `i` and term `i + 1`.
  function RenderAll(terms: seq<Term>, gaps: seq<string>): string
    requires |gaps| >= |terms|
  {
    var n := |terms|;
    if n == 0 then ""
    else if n == 1 then Render(terms[0])
    else RenderAll(terms[..n - 1], gaps) + gaps[n - 2] + Render(terms[n - 1])
  }

  function TokensFor(terms: seq<Term>): seq<Token> {
    seq(|terms|, i requires 0 <= i < |terms| => Token(Text(terms[i]), false, terms[i].Substring?))
  }

  lemma TextIsNotEmpty(term: Term)
    requires Expressible(term) && Readable(term)
    ensures Text(term) != ""
  {
  }

  lemma AfterGap(sc: Scan, gap: string)
    requires AtRest(sc) && IsGap(gap)
    ensures Feed(sc, gap) == BLANK.(tokens := Finish(sc))
  {
    GapFlushes(sc, gap[0]);
    FeedGap(Finish(sc), gap[1..]);
  }

  lemma {:induction false} ScanAll(terms: seq<Term>, gaps: seq<string>)
    requires terms != [] && |gaps| >= |terms|
    requires forall i | 0 <= i < |terms| :: Expressible(terms[i]) && Readable(terms[i])
    requires forall i | 0 <= i < |gaps| :: IsGap(gaps[i])
    ensures
      var last := terms[|terms| - 1];
      Feed(BLANK, RenderAll(terms, gaps)) == Scan(TokensFor(terms[..|terms| - 1]), Text(last), false, last.Substring?)
  {
    hide Feed, Expressible, Readable, Render, Text;
    var n := |terms|;
    var front, last := terms[..n - 1], terms[n - 1];
    NotBackslash(last);
    if n == 1 {
      ScanRendered(BLANK, last);
      assert TokensFor(front) == [];
    } else {
      var before, gap := RenderAll(front, gaps), gaps[n - 2];
      ScanAll(front, gaps);
      TextIsNotEmpty(front[n - 2]);
      var sc := Feed(BLANK, before);
      assert Finish(sc) == TokensFor(front);
      FeedConcat(BLANK, before, gap);
      AfterGap(sc, gap);
      GapSeams(before, gap, Render(last));
      FeedConcat(BLANK, before + gap, Render(last));
      ScanRendered(BLANK.(tokens := TokensFor(front)), last);
    }
  }

  lemma NotBackslash(term: Term)
    requires Readable(term)
    ensures !EndsInBackslash(QuotedValue(term))
  {
  }

  lemma GapSeams(a: string, gap: string, b: string)
    requires IsGap(gap)
    ensures CleanSeam(a, gap) && CleanSeam(a + gap, b)
  {
    assert (a + gap)[|a + gap| - 1] == gap[|gap| - 1];
  }

  lemma {:induction false} ReadAll(terms: seq<Term>)
    requires forall i | 0 <= i < |terms| :: Expressible(terms[i]) && Readable(terms[i])
    ensures TermsOf(TokensFor(terms)) == terms
    ensures DroppedOf(TokensFor(terms)) == []
  {
    hide ParseTerm, Text, Expressible, Readable;
    if terms != [] {
      var n := |terms| - 1;
      assert TokensFor(terms)[..n] == TokensFor(terms[..n]);
      ReadAll(terms[..n]);
      TextReadsBack(terms[n]);
      assert terms == terms[..n] + [terms[n]];
    }
  }

  lemma EmptyQuery(gaps: seq<string>)
    ensures Tokens(RenderAll([], gaps)) == []
  {
  }

  /** Every list of readable terms, rendered and joined by whitespace, parses back to itself. */
  lemma QueryRoundTrip(terms: seq<Term>, gaps: seq<string>)
    requires |gaps| >= |terms|
    requires forall i | 0 <= i < |terms| :: Expressible(terms[i]) && Readable(terms[i])
    requires forall i | 0 <= i < |gaps| :: IsGap(gaps[i])
    ensures TermsOf(Tokens(RenderAll(terms, gaps))) == terms
    ensures DroppedOf(Tokens(RenderAll(terms, gaps))) == []
  {
    hide Feed, RenderAll, Text, ParseTerm, Expressible, Readable;
    if terms == [] {
      EmptyQuery(gaps);
    } else {
      var n := |terms| - 1;
      ScanAll(terms, gaps);
      TextIsNotEmpty(terms[n]);
      assert TokensFor(terms) == TokensFor(terms[..n]) + [Token(Text(terms[n]), false, terms[n].Substring?)];
      ReadAll(terms);
    }
  }

  /** A term that the grammar can express reads back from its rendering if and only if it is readable. */
  lemma RoundTripIffReadable(term: Term)
    requires Expressible(term)
    ensures TermsOf(Tokens(Render(term))) == [term] <==> Readable(term)
  {
    if Readable(term) {
      QueryRoundTrip([term], [" "]);
    } else if EndsInBackslash(QuotedValue(term)) {
      ScanRendered(BLANK, term);
      UnterminatedIsDropped(Feed(BLANK, Render(term)));
    } else {
      ScanRendered(BLANK, term);
      MisreadTerm(term);
    }
  }

  lemma UnterminatedIsDropped(sc: Scan)
    requires sc.tokens == [] && sc.inQuotes && sc.cur != ""
    ensures TermsOf(Finish(sc)) == []
  {
    assert Finish(sc)[..0] == [];
  }

  lemma OneToken(token: Token)
    ensures TermsOf([token]) == if ParseToken(token).Ok? then [ParseToken(token).term] else []
  {
    assert [token][..0] == [];
    assert TermsOf([]) == [];
  }

  // `key>` followed by a value that begins with `=` is read as `key>=`.
  lemma MisreadAttr(op: Op, key: string, raw: string)
    requires IsKey(key) && (op == Gt || op == Lt) && "=" <= raw
    ensures ParseTerm(key + OpText(op) + raw, false) != Ok(Attr(op, key, raw))
  {
    hide ParseTerm;
    KeyOpValue(key, op, raw);
  }

  lemma MisreadTerm(term: Term)
    requires Expressible(term) && !Readable(term) && !EndsInBackslash(QuotedValue(term))
    ensures TermsOf(Finish(Scan([], Text(term), false, term.Substring?))) != [term]
  {
    hide TermsOf, ParseTerm, IsKey, Decimal, StatusText, EndsInBackslash;
    if term.Attr? {
      var token := Token(Text(term), false, false);
      MisreadAttr(term.op, term.key, term.raw);
      OneToken(token);
      assert Text(term) != "";
      assert Finish(Scan([], Text(term), false, false)) == [token];
    } else {
      assert Text(term) == "";
      NoTokens();
    }
  }

  lemma NoTokens()
    ensures TermsOf([]) == []
  {
  }
}
