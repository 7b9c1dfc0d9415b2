/**
 The quote-aware scanner of filter queries. It splits on whitespace outside quotes; inside quotes a
 backslash before a quote is the one escape. Each token says whether its quote was never closed and
 whether it began with a quote.
 */
module Scanner {
  import opened Types

  datatype Token = Token(text: string, unterminated: bool, startsQuoted: bool)

  // The scanner between two characters.
  datatype Scan = Scan(tokens: seq<Token>, cur: string, inQuotes: bool, startsQuoted: bool)

  const BLANK := Scan([], "", false, false)

  // The Unicode White_Space property.
  predicate IsWhitespace(c: char) {
    || '\U{9}' <= c <= '\U{D}'
    || c == ' '
    || c == '\U{85}'
    || c == '\U{A0}'
    || c == '\U{1680}'
    || '\U{2000}' <= c <= '\U{200A}'
    || c == '\U{2028}'
    || c == '\U{2029}'
    || c == '\U{202F}'
    || c == '\U{205F}'
    || c == '\U{3000}'
  }

  predicate IsEscape(sc: Scan, q: string) {
    sc.inQuotes && |q| > 1 && q[0] == '\\' && q[1] == '"'
  }

  function ScanChar(sc: Scan, c: char): Scan {
    if c == '"' then
      sc.(inQuotes := !sc.inQuotes, startsQuoted := sc.startsQuoted || (sc.cur == "" && !sc.inQuotes))
    else if IsWhitespace(c) && !sc.inQuotes then
      if sc.cur == "" then sc
      else Scan(sc.tokens + [Token(sc.cur, false, sc.startsQuoted)], "", false, false)
    else
      sc.(cur := sc.cur + [c])
  }

  function Feed(sc: Scan, q: string): Scan
    decreases |q|
  {
    if q == "" then sc
    else if IsEscape(sc, q) then Feed(sc.(cur := sc.cur + "\""), q[2..])
    else Feed(ScanChar(sc, q[0]), q[1..])
  }

  function Finish(sc: Scan): seq<Token> {
    if sc.cur == "" then sc.tokens else sc.tokens + [Token(sc.cur, sc.inQuotes, sc.startsQuoted)]
  }

  function Tokens(q: string): seq<Token> {
    Finish(Feed(BLANK, q))
  }

  method Tokenize(q: string) returns (tokens: seq<Token>)
    ensures tokens == Tokens(q)
  {
    tokens := [];
    var cur, inQuotes, startsQuoted, i := "", false, false, 0;
    assert q[0..] == q;
    while i < |q|
      invariant i <= |q|
      invariant Feed(Scan(tokens, cur, inQuotes, startsQuoted), q[i..]) == Feed(BLANK, q)
    {
      var c := q[i];
      assert q[i..][1..] == q[i + 1..];
      if inQuotes && c == '\\' && i + 1 < |q| && q[i + 1] == '"' {
        assert q[i..][2..] == q[i + 2..];
        cur := cur + "\"";
        i := i + 2;
      } else {
        if c == '"' {
          if cur == "" && !inQuotes {
            startsQuoted := true;
          }
          inQuotes := !inQuotes;
        } else if IsWhitespace(c) && !inQuotes {
          if cur != "" {
            tokens := tokens + [Token(cur, false, startsQuoted)];
            cur, startsQuoted := "", false;
          }
        } else {
          cur := cur + [c];
        }
        i := i + 1;
      }
    }
    if cur != "" {
      tokens := tokens + [Token(cur, inQuotes, startsQuoted)];
    }
  }

  // How scanning composes ----------------------------------------------------------------------------

  // The seam between two pieces does not fall inside an escape.
  predicate CleanSeam(a: string, b: string) {
    a == "" || b == "" || a[|a| - 1] != '\\' || b[0] != '"'
  }

  lemma {:induction false} FeedConcat(sc: Scan, a: string, b: string)
    requires CleanSeam(a, b)
    ensures Feed(sc, a + b) == Feed(Feed(sc, a), b)
    decreases |a|
  {
    if a == "" {
      assert a + b == b;
    } else if IsEscape(sc, a) {
      assert (a + b)[2..] == a[2..] + b;
      FeedConcat(sc.(cur := sc.cur + "\""), a[2..], b);
    } else {
      assert (a + b)[1..] == a[1..] + b;
      assert !IsEscape(sc, a + b);
      FeedConcat(ScanChar(sc, a[0]), a[1..], b);
    }
  }

  // Tokens already emitted never matter to what follows.
  lemma {:induction false} FeedPrepends(before: seq<Token>, sc: Scan, q: string)
    ensures Feed(sc.(tokens := before + sc.tokens), q)
         == Feed(sc, q).(tokens := before + Feed(sc, q).tokens)
    decreases |q|
  {
    var sc' := sc.(tokens := before + sc.tokens);
    if q == "" {
    } else if IsEscape(sc, q) {
      FeedPrepends(before, sc.(cur := sc.cur + "\""), q[2..]);
    } else {
      FeedPrepends(before, ScanChar(sc, q[0]), q[1..]);
      assert ScanChar(sc', q[0]) == ScanChar(sc, q[0]).(tokens := before + ScanChar(sc, q[0]).tokens);
    }
  }

  // Outside quotes, and not just past an empty pair of quotes.
  predicate AtRest(sc: Scan) {
    !sc.inQuotes && !(sc.cur == "" && sc.startsQuoted)
  }

  lemma GapFlushes(sc: Scan, gap: char)
    requires IsWhitespace(gap)
    requires AtRest(sc)
    ensures ScanChar(sc, gap) == BLANK.(tokens := Finish(sc))
  {
  }

  lemma TokensAcrossGap(q1: string, gap: char, q2: string)
    requires IsWhitespace(gap)
    ensures Tokens(q1 + [gap] + q2) == Finish(Feed(ScanChar(Feed(BLANK, q1), gap), q2))
  {
    FeedConcat(BLANK, q1 + [gap], q2);
    FeedConcat(BLANK, q1, [gap]);
    var sc := Feed(BLANK, q1);
    assert [gap][1..] == "";
    assert Feed(sc, [gap]) == ScanChar(sc, gap);
  }

  lemma RestComposes(q1: string, gap: char, q2: string)
    requires IsWhitespace(gap)
    requires AtRest(Feed(BLANK, q1))
    ensures Tokens(q1 + [gap] + q2) == Tokens(q1) + Tokens(q2)
  {
    TokensAcrossGap(q1, gap, q2);
    GapFlushes(Feed(BLANK, q1), gap);
    assert Tokens(q1) + BLANK.tokens == Tokens(q1);
    FeedPrepends(Tokens(q1), BLANK, q2);
  }

  lemma UnrestBreaks(q1: string, gap: char)
    requires IsWhitespace(gap)
    requires !AtRest(Feed(BLANK, q1))
    ensures Tokens(q1 + [gap] + "x") != Tokens(q1) + Tokens("x")
  {
    var sc := Feed(BLANK, q1);
    TokensAcrossGap(q1, gap, "x");
    var sc' := ScanChar(sc, gap);
    assert "x"[1..] == "";
    assert Feed(sc', "x") == ScanChar(sc', 'x');
    assert Tokens("x") == [Token("x", false, false)] by {
      assert Feed(BLANK, "x") == ScanChar(BLANK, 'x');
      assert "" + ['x'] == "x";
    }
    var combined, apart := Tokens(q1 + [gap] + "x"), Tokens(q1) + Tokens("x");
    assert combined[|combined| - 1] == Token(sc'.cur + "x", sc'.inQuotes, sc'.startsQuoted);
    assert apart[|apart| - 1] == Token("x", false, false);
  }

  /**
   Two queries joined by whitespace scan to their tokens side by side, whatever the second is, if
   and only if the first leaves the scanner outside quotes with no empty quote pending.
   */
  lemma ScanningComposes(q1: string, gap: char)
    requires IsWhitespace(gap)
    ensures (forall q2 :: Tokens(q1 + [gap] + q2) == Tokens(q1) + Tokens(q2)) <==> AtRest(Feed(BLANK, q1))
  {
    if AtRest(Feed(BLANK, q1)) {
      forall q2 ensures Tokens(q1 + [gap] + q2) == Tokens(q1) + Tokens(q2) {
        RestComposes(q1, gap, q2);
      }
    } else {
      UnrestBreaks(q1, gap);
    }
  }

  lemma {:induction false} EmittedAreTerminated(sc: Scan, q: string)
    requires forall t | t in sc.tokens :: !t.unterminated && t.text != ""
    ensures forall t | t in Feed(sc, q).tokens :: !t.unterminated && t.text != ""
    decreases |q|
  {
    if q == "" {
    } else if IsEscape(sc, q) {
      EmittedAreTerminated(sc.(cur := sc.cur + "\""), q[2..]);
    } else {
      EmittedAreTerminated(ScanChar(sc, q[0]), q[1..]);
    }
  }

  /**
   Only the last token of a query can be unterminated, and it is so exactly when the query ends
   inside quotes with text pending. A lone quote at the end leaves no text, and so no token.
   */
  lemma OnlyLastUnterminated(q: string, k: nat)
    requires k < |Tokens(q)|
    ensures Tokens(q)[k].text != ""
    ensures Tokens(q)[k].unterminated
            <==> k == |Tokens(q)| - 1 && Feed(BLANK, q).inQuotes && Feed(BLANK, q).cur != ""
  {
    var sc := Feed(BLANK, q);
    EmittedAreTerminated(BLANK, q);
    if k < |sc.tokens| {
      assert sc.tokens[k] in sc.tokens;
    }
  }

  // Pieces of a query --------------------------------------------------------------------------------

  predicate IsPlain(c: char) {
    c != '"' && !IsWhitespace(c)
  }

  predicate AllPlain(s: string) {
    forall i | 0 <= i < |s| :: IsPlain(s[i])
  }

  lemma {:induction false} FeedPlain(sc: Scan, s: string)
    requires !sc.inQuotes && AllPlain(s)
    ensures Feed(sc, s) == sc.(cur := sc.cur + s)
    decreases |s|
  {
    if s == "" {
      assert sc.cur + s == sc.cur;
    } else {
      var sc' := ScanChar(sc, s[0]);
      FeedPlain(sc', s[1..]);
      assert sc.cur + [s[0]] + s[1..] == sc.cur + s;
    }
  }

  lemma {:induction false} FeedGap(tokens: seq<Token>, gap: string)
    requires forall i | 0 <= i < |gap| :: IsWhitespace(gap[i])
    ensures Feed(BLANK.(tokens := tokens), gap) == BLANK.(tokens := tokens)
    decreases |gap|
  {
    if gap != "" {
      FeedGap(tokens, gap[1..]);
    }
  }

  // Backslash before every quote.
  function Escaped(v: string): string {
    if v == "" then "" else (if v[0] == '"' then "\\\"" else [v[0]]) + Escaped(v[1..])
  }

  function Quoted(v: string): string {
    "\"" + Escaped(v) + "\""
  }

  predicate EndsInBackslash(v: string) {
    v != "" && v[|v| - 1] == '\\'
  }

  // Inside quotes, an escaped value and its closing quote: the value, unless it ends in a backslash,
  // which then swallows the closing quote.
  lemma {:induction false} FeedEscaped(sc: Scan, v: string)
    requires sc.inQuotes
    ensures !EndsInBackslash(v) ==> Feed(sc, Escaped(v) + "\"") == sc.(cur := sc.cur + v, inQuotes := false)
    ensures EndsInBackslash(v) ==> Feed(sc, Escaped(v) + "\"") == sc.(cur := sc.cur + v[..|v| - 1] + "\"")
    decreases |v|
  {
    var q := Escaped(v) + "\"";
    if v == "" {
      assert q == "\"" && q[1..] == "";
      assert sc.cur + v == sc.cur;
    } else {
      var rest := Escaped(v[1..]) + "\"";
      if v[0] == '"' {
        assert q == "\\\"" + rest && q[2..] == rest;
        FeedEscaped(sc.(cur := sc.cur + "\""), v[1..]);
        assert sc.cur + "\"" + v[1..] == sc.cur + v;
      } else {
        assert q == [v[0]] + rest && q[1..] == rest;
        FirstOfEscaped(v[1..]);
        if v == "\\" {
          assert q[2..] == "";
          assert v[..0] == "" && sc.cur + v[..0] == sc.cur;
        } else {
          assert !IsEscape(sc, q);
          FeedEscaped(sc.(cur := sc.cur + [v[0]]), v[1..]);
          assert sc.cur + [v[0]] + v[1..] == sc.cur + v;
        }
      }
      if EndsInBackslash(v) && |v| > 1 {
        assert v[1..][..|v| - 2] == v[1..|v| - 1];
        assert sc.cur + [v[0]] + v[1..|v| - 1] == sc.cur + v[..|v| - 1];
      }
    }
  }

  lemma FirstOfEscaped(v: string)
    ensures v != "" ==> Escaped(v) != "" && Escaped(v)[0] != '"'
    ensures (Escaped(v) + "\"")[0] == '"' <==> v == ""
  {
  }

  // A quoted value after whatever the scanner holds.
  lemma FeedQuoted(sc: Scan, v: string)
    requires !sc.inQuotes
    ensures
      var quoted := sc.(startsQuoted := sc.startsQuoted || sc.cur == "");
      Feed(sc, Quoted(v))
      == if EndsInBackslash(v) then quoted.(cur := sc.cur + v[..|v| - 1] + "\"", inQuotes := true)
         else quoted.(cur := sc.cur + v)
  {
    var q := Quoted(v);
    assert q == "\"" + (Escaped(v) + "\"") && q[1..] == Escaped(v) + "\"";
    FeedEscaped(ScanChar(sc, '"'), v);
  }

  // What a query is made of ---------------------------------------------------------------------------

  // Tab, line feed, vertical tab, form feed, carriage return, space, next line, no-break space, and
  // the spaces and separators beyond Latin-1.
  const SEPARATORS: set<char> := {
    '\U{9}', '\U{A}', '\U{B}', '\U{C}', '\U{D}', '\U{20}', '\U{85}', '\U{A0}', '\U{1680}',
    '\U{2000}', '\U{2001}', '\U{2002}', '\U{2003}', '\U{2004}', '\U{2005}', '\U{2006}', '\U{2007}',
    '\U{2008}', '\U{2009}', '\U{200A}', '\U{2028}', '\U{2029}', '\U{202F}', '\U{205F}', '\U{3000}'}

  lemma SeparatorsAreWhitespace(c: char)
    ensures IsWhitespace(c) <==> c in SEPARATORS
  {
    var x := c as int;
    if '\U{9}' <= c <= '\U{D}' {
      assert x == 9 || x == 10 || x == 11 || x == 12 || x == 13;
    }
    if '\U{2000}' <= c <= '\U{200A}' {
      assert || x == 0x2000 || x == 0x2001 || x == 0x2002 || x == 0x2003 || x == 0x2004 || x == 0x2005
             || x == 0x2006 || x == 0x2007 || x == 0x2008 || x == 0x2009 || x == 0x200A;
    }
  }

  // A word is written as runs of bare characters and quoted stretches, side by side.
  datatype Segment = Bare(text: string) | InQuotes(value: string)

  // Outside quotes a backslash is like any other character.
  predicate SegmentOk(segment: Segment) {
    match segment
    case Bare(text) => text != "" && forall i | 0 <= i < |text| :: text[i] != '"' && text[i] !in SEPARATORS
    case InQuotes(value) => !EndsInBackslash(value)
  }

  type Word = seq<Segment>

  function Written(word: Word): string {
    if word == [] then "" else
      (match word[0] case Bare(text) => text case InQuotes(value) => Quoted(value)) + Written(word[1..])
  }

  function Meant(word: Word): string {
    if word == [] then "" else
      (match word[0] case Bare(text) => text case InQuotes(value) => value) + Meant(word[1..])
  }

  predicate StartsQuoted(word: Word) {
    word != [] && word[0].InQuotes?
  }

  predicate WordOk(word: Word) {
    Meant(word) != "" && forall i | 0 <= i < |word| :: SegmentOk(word[i])
  }

  predicate IsSeparation(gap: string) {
    forall i | 0 <= i < |gap| :: gap[i] in SEPARATORS
  }

  // `gaps[0]` before the first word, `gaps[i]` after word `i - 1`.
  function Line(words: seq<Word>, gaps: seq<string>): string
    requires |gaps| == |words| + 1
  {
    if words == [] then gaps[0] else gaps[0] + Written(words[0]) + Line(words[1..], gaps[1..])
  }

  function Read(words: seq<Word>): seq<Token> {
    seq(|words|, i requires 0 <= i < |words| => Token(Meant(words[i]), false, StartsQuoted(words[i])))
  }

  lemma {:induction false} FeedBareThen(sc: Scan, text: string, rest: string)
    requires !sc.inQuotes && AllPlain(text)
    ensures Feed(sc, text + rest) == Feed(sc.(cur := sc.cur + text), rest)
    decreases |text|
  {
    if text == "" {
      assert text + rest == rest && sc.cur + text == sc.cur;
    } else {
      var sc' := ScanChar(sc, text[0]);
      assert (text + rest)[1..] == text[1..] + rest && (text + rest)[0] == text[0];
      FeedBareThen(sc', text[1..], rest);
      assert sc'.cur + text[1..] == sc.cur + text;
    }
  }

  lemma {:induction false} FeedEscapedThen(sc: Scan, v: string, rest: string)
    requires sc.inQuotes && !EndsInBackslash(v)
    ensures Feed(sc, Escaped(v) + "\"" + rest) == Feed(sc.(cur := sc.cur + v, inQuotes := false), rest)
  {
    FeedEscaped(sc, v);
    EscapedEnds(v);
    FeedConcat(sc, Escaped(v) + "\"", rest);
  }

  lemma EscapedEnds(v: string)
    ensures (Escaped(v) + "\"")[|Escaped(v)|] == '"'
  {
  }

  lemma FeedQuotedThen(sc: Scan, v: string, rest: string)
    requires !sc.inQuotes && !EndsInBackslash(v)
    ensures Feed(sc, Quoted(v) + rest)
         == Feed(sc.(cur := sc.cur + v, startsQuoted := sc.startsQuoted || sc.cur == ""), rest)
  {
    var q := Quoted(v) + rest;
    assert q[0] == '"' && q[1..] == Escaped(v) + "\"" + rest;
    FeedEscapedThen(ScanChar(sc, '"'), v, rest);
  }

  lemma BareIsPlain(text: string)
    requires SegmentOk(Bare(text))
    ensures AllPlain(text)
  {
    forall i | 0 <= i < |text| ensures IsPlain(text[i]) {
      SeparatorsAreWhitespace(text[i]);
    }
  }

  // A word is read as what it means, and remembers whether it began with a quote.
  lemma {:induction false} FeedWord(sc: Scan, word: Word, rest: string)
    requires !sc.inQuotes
    requires forall i | 0 <= i < |word| :: SegmentOk(word[i])
    ensures Feed(sc, Written(word) + rest)
         == Feed(sc.(cur := sc.cur + Meant(word),
                     startsQuoted := sc.startsQuoted || (sc.cur == "" && StartsQuoted(word))),
                 rest)
    decreases |word|
  {
    hide Feed, Quoted, SegmentOk;
    if word == [] {
      assert Written(word) + rest == rest && sc.cur + Meant(word) == sc.cur;
    } else {
      var more := Written(word[1..]) + rest;
      assert SegmentOk(word[0]);
      match word[0] {
        case Bare(text) =>
          Assoc(text, Written(word[1..]), rest);
          BareIsPlain(text);
          FeedBareThen(sc, text, more);
          BareIsText(text);
          FeedWord(sc.(cur := sc.cur + text), word[1..], rest);
          Assoc(sc.cur, text, Meant(word[1..]));
        case InQuotes(value) =>
          Assoc(Quoted(value), Written(word[1..]), rest);
          QuotableValue(value);
          FeedQuotedThen(sc, value, more);
          FeedWord(sc.(cur := sc.cur + value, startsQuoted := sc.startsQuoted || sc.cur == ""), word[1..], rest);
          Assoc(sc.cur, value, Meant(word[1..]));
      }
    }
  }

  lemma BareIsText(text: string)
    requires SegmentOk(Bare(text))
    ensures text != ""
  {
  }

  lemma QuotableValue(value: string)
    requires SegmentOk(InQuotes(value))
    ensures !EndsInBackslash(value)
  {
  }

  // Between words.
  lemma {:induction false} FeedSeparation(tokens: seq<Token>, gap: string, rest: string)
    requires IsSeparation(gap)
    ensures Feed(BLANK.(tokens := tokens), gap + rest) == Feed(BLANK.(tokens := tokens), rest)
    decreases |gap|
  {
    if gap == "" {
      assert gap + rest == rest;
    } else {
      SeparatorsAreWhitespace(gap[0]);
      assert (gap + rest)[0] == gap[0] && (gap + rest)[1..] == gap[1..] + rest;
      FeedSeparation(tokens, gap[1..], rest);
    }
  }

  lemma FeedFirstSeparator(sc: Scan, gap: string, rest: string)
    requires AtRest(sc) && gap != "" && IsSeparation(gap)
    ensures Feed(sc, gap + rest) == Feed(BLANK.(tokens := Finish(sc)), gap[1..] + rest)
  {
    SeparatorsAreWhitespace(gap[0]);
    GapFlushes(sc, gap[0]);
    assert (gap + rest)[0] == gap[0] && (gap + rest)[1..] == gap[1..] + rest;
  }

  ghost predicate LineOk(words: seq<Word>, gaps: seq<string>) {
    && |gaps| == |words| + 1
    && (forall i | 0 <= i < |words| :: WordOk(words[i]))
    && (forall i | 0 <= i < |gaps| :: IsSeparation(gaps[i]))
    && (forall i | 0 < i < |words| :: gaps[i] != "")
  }

  lemma {:induction false} LineScans(tokens: seq<Token>, words: seq<Word>, gaps: seq<string>)
    requires LineOk(words, gaps)
    ensures Finish(Feed(BLANK.(tokens := tokens), Line(words, gaps))) == tokens + Read(words)
    decreases |words|, 0
  {
    hide Feed, WordOk, IsSeparation, Written, Meant, StartsQuoted, Read;
    var start := BLANK.(tokens := tokens);
    ReadCons(words);
    if words == [] {
      assert gaps[0] + "" == gaps[0];
      FeedSeparation(tokens, gaps[0], "");
      FeedNothing(start);
      assert tokens + Read(words) == tokens;
    } else {
      var word, more := words[0], Line(words[1..], gaps[1..]);
      Assoc(gaps[0], Written(word), more);
      FeedSeparation(tokens, gaps[0], Written(word) + more);
      WordIsOk(word);
      FeedWord(start, word, more);
      assert "" + Meant(word) == Meant(word);
      var sc := Scan(tokens, Meant(word), false, StartsQuoted(word));
      RestScans(sc, words[1..], gaps[1..]);
      Assoc(tokens, [Token(Meant(word), false, StartsQuoted(word))], Read(words[1..]));
    }
  }

  lemma ReadCons(words: seq<Word>)
    ensures words == [] ==> Read(words) == []
    ensures words != [] ==>
              Read(words) == [Token(Meant(words[0]), false, StartsQuoted(words[0]))] + Read(words[1..])
  {
  }

  // From a finished word to the end of the line.
  lemma {:induction false} RestScans(sc: Scan, words: seq<Word>, gaps: seq<string>)
    requires sc.cur != "" && !sc.inQuotes
    requires LineOk(words, gaps) && (words != [] ==> gaps[0] != "")
    ensures Finish(Feed(sc, Line(words, gaps))) == Finish(sc) + Read(words)
    decreases |words|, 1
  {
    hide Feed, WordOk, IsSeparation, Written, Read;
    var gap := gaps[0];
    ReadCons(words);
    if gap == "" {
      FeedNothing(sc);
      assert Finish(sc) + Read(words) == Finish(sc);
    } else {
      var rest := if words == [] then "" else Written(words[0]) + Line(words[1..], gaps[1..]);
      assert Line(words, gaps) == gap + rest;
      var gaps' := gaps[0 := gap[1..]];
      assert gaps'[1..] == gaps[1..];
      assert Line(words, gaps') == gap[1..] + rest;
      SeparationTail(gap);
      assert LineOk(words, gaps');
      FeedFirstSeparator(sc, gap, rest);
      LineScans(Finish(sc), words, gaps');
    }
  }

  lemma FeedNothing(sc: Scan)
    ensures Feed(sc, "") == sc
  {
  }

  lemma WordIsOk(word: Word)
    requires WordOk(word)
    ensures Meant(word) != "" && forall i | 0 <= i < |word| :: SegmentOk(word[i])
  {
  }

  lemma SeparationTail(gap: string)
    requires gap != "" && IsSeparation(gap)
    ensures IsSeparation(gap[1..])
  {
  }

  /**
   Words written with bare and quoted stretches, with any mix of separators before, between and
   after them, scan to exactly those words: each token is what its word means, quotes and escapes
   removed, closed, and marked as quoted exactly when its word begins with a quote.
   */
  lemma WordsScan(words: seq<Word>, gaps: seq<string>)
    requires LineOk(words, gaps)
    ensures Tokens(Line(words, gaps)) == Read(words)
  {
    hide Feed;
    LineScans([], words, gaps);
    assert [] + Read(words) == Read(words);
  }

  lemma {:induction false} FeedOpen(sc: Scan, v: string)
    requires sc.inQuotes
    ensures Feed(sc, Escaped(v)) == sc.(cur := sc.cur + v)
    decreases |v|
  {
    var q := Escaped(v);
    if v == "" {
      assert sc.cur + v == sc.cur;
    } else if v[0] == '"' {
      assert q[2..] == Escaped(v[1..]) && q[0] == '\\' && q[1] == '"';
      FeedOpen(sc.(cur := sc.cur + "\""), v[1..]);
      assert sc.cur + "\"" + v[1..] == sc.cur + v;
    } else {
      assert q[1..] == Escaped(v[1..]) && q[0] == v[0];
      FirstOfEscaped(v[1..]);
      FeedOpen(sc.(cur := sc.cur + [v[0]]), v[1..]);
      assert sc.cur + [v[0]] + v[1..] == sc.cur + v;
    }
  }

  /** A quote that is never closed swallows the rest of the query into one unterminated token. */
  lemma OpenQuoteScans(word: Word, v: string)
    requires forall i | 0 <= i < |word| :: SegmentOk(word[i])
    requires v != ""
    ensures Tokens(Written(word) + "\"" + Escaped(v))
         == [Token(Meant(word) + v, true, StartsQuoted(word) || Meant(word) == "")]
  {
    hide Feed, Escaped, SegmentOk;
    Assoc(Written(word), "\"", Escaped(v));
    FeedWord(BLANK, word, "\"" + Escaped(v));
    assert "" + Meant(word) == Meant(word);
    var sc := Scan([], Meant(word), false, StartsQuoted(word));
    FeedQuoteThen(sc, Escaped(v));
    FeedOpen(sc.(inQuotes := true, startsQuoted := sc.startsQuoted || sc.cur == ""), v);
  }

  lemma FeedQuoteThen(sc: Scan, rest: string)
    requires !sc.inQuotes
    ensures Feed(sc, "\"" + rest) == Feed(sc.(inQuotes := true, startsQuoted := sc.startsQuoted || sc.cur == ""), rest)
  {
    var q := "\"" + rest;
    assert q[0] == '"' && q[1..] == rest;
  }
}
