/** Decimal integers as the standard library reads and writes them. */
module Numerals {
  import opened Types

  predicate IsDigit(c: char) {
    '0' <= c <= '9'
  }

  predicate AllDigits(s: string) {
    forall i | 0 <= i < |s| :: IsDigit(s[i])
  }

  function DigitValue(c: char): nat
    requires IsDigit(c)
  {
    c as int - '0' as int
  }

  function DigitsValue(s: string): nat
    requires AllDigits(s)
  {
    if s == "" then 0 else 10 * DigitsValue(s[..|s| - 1]) + DigitValue(s[|s| - 1])
  }

  // Digits only, at least one of them.
  function ParseDigits(s: string): Option<nat> {
    if s != "" && AllDigits(s) then Some(DigitsValue(s)) else None
  }

  // `str::parse::<u64>`: an optional plus sign, then digits, within range.
  function ParseU64(s: string): Option<nat> {
    var n := ParseDigits(if s != "" && s[0] == '+' then s[1..] else s);
    if n.Some? && n.value < U64_LIMIT then n else None
  }

  const I64_LIMIT: nat := 0x8000_0000_0000_0000

  // `str::parse::<i64>`: an optional sign, then digits, within range.
  function ParseI64(s: string): Option<int> {
    if s != "" && s[0] == '-' then
      var n := ParseDigits(s[1..]);
      if n.Some? && n.value <= I64_LIMIT then Some(0 - n.value as int) else None
    else
      var n := ParseDigits(if s != "" && s[0] == '+' then s[1..] else s);
      if n.Some? && n.value < I64_LIMIT then Some(n.value) else None
  }

  function Decimal(n: nat): string {
    if n < 10 then [('0' as int + n) as char]
    else Decimal(n / 10) + [('0' as int + n % 10) as char]
  }

  function IntText(n: int): string {
    if n < 0 then "-" + Decimal(-n) else Decimal(n)
  }

  lemma {:induction false} DecimalRoundTrip(n: nat)
    ensures Decimal(n) != "" && AllDigits(Decimal(n))
    ensures DigitsValue(Decimal(n)) == n
  {
    if n >= 10 {
      DecimalRoundTrip(n / 10);
      var front, last := Decimal(n / 10), ('0' as int + n % 10) as char;
      assert Decimal(n)[..|Decimal(n)| - 1] == front;
    }
  }

  lemma U64RoundTrip(n: nat)
    requires n < U64_LIMIT
    ensures ParseU64(Decimal(n)) == Some(n)
  {
    DecimalRoundTrip(n);
    assert IsDigit(Decimal(n)[0]);
  }

  lemma I64RoundTrip(n: int)
    requires -(I64_LIMIT as int) <= n < I64_LIMIT
    ensures ParseI64(IntText(n)) == Some(n)
  {
    hide Decimal, DigitsValue;
    if n < 0 {
      DecimalRoundTrip(-n);
      assert IntText(n)[1..] == Decimal(-n);
    } else {
      DecimalRoundTrip(n);
      assert IsDigit(Decimal(n)[0]);
    }
  }

  // What the texts mean ------------------------------------------------------------------------------

  /** Decimal text is positional: a digit appended multiplies by ten and adds. */
  lemma DecimalAppends(n: nat, d: nat)
    requires d < 10
    ensures Decimal(d) == ["0123456789"[d]]
    ensures n > 0 ==> Decimal(10 * n + d) == Decimal(n) + ["0123456789"[d]]
  {
    assert "0123456789"[d] == ('0' as int + d) as char;
    assert (10 * n + d) / 10 == n && (10 * n + d) % 10 == d;
  }

  function Zeros(n: nat): string {
    seq(n, _ => '0')
  }

  lemma {:induction false} LeadingZeros(z: nat, s: string)
    requires AllDigits(s)
    ensures AllDigits(Zeros(z) + s)
    ensures DigitsValue(Zeros(z) + s) == DigitsValue(s)
  {
    if s == "" {
      assert Zeros(z) + s == Zeros(z);
      if z > 0 {
        LeadingZeros(z - 1, s);
        assert Zeros(z)[..z - 1] == Zeros(z - 1);
        assert Zeros(z - 1) + s == Zeros(z - 1);
      }
    } else {
      var front := s[..|s| - 1];
      LeadingZeros(z, front);
      assert (Zeros(z) + s)[..|Zeros(z) + s| - 1] == Zeros(z) + front;
    }
  }

  // A text of digits is its value in decimal, after some zeros.
  lemma {:induction false} DigitsAreDecimal(s: string) returns (z: nat)
    requires s != "" && AllDigits(s)
    ensures s == Zeros(z) + Decimal(DigitsValue(s))
  {
    var front, last := s[..|s| - 1], s[|s| - 1];
    assert s == front + [last];
    if front == "" {
      z := 0;
      assert Zeros(0) + Decimal(DigitsValue(s)) == Decimal(DigitsValue(s));
    } else {
      z := DigitsAreDecimal(front);
      var n := DigitsValue(front);
      DecimalAppends(n, DigitValue(last));
      if n == 0 {
        assert front == Zeros(z) + "0" == Zeros(z + 1);
        z := z + 1;
        assert s == Zeros(z) + [last];
      } else {
        assert Zeros(z) + (Decimal(n) + [last]) == front + [last];
      }
    }
  }

  // The text spells `n`: its decimal digits after any number of zeros.
  ghost predicate Spells(s: string, n: nat) {
    exists z: nat :: s == Zeros(z) + Decimal(n)
  }

  lemma DigitsSpell(s: string, n: nat)
    ensures ParseDigits(s) == Some(n) <==> Spells(s, n)
  {
    if s != "" && AllDigits(s) {
      var z := DigitsAreDecimal(s);
      assert Spells(s, DigitsValue(s));
    }
    if z: nat :| s == Zeros(z) + Decimal(n) {
      DecimalRoundTrip(n);
      LeadingZeros(z, Decimal(n));
    }
  }

  lemma SpellsNoSign(s: string, n: nat)
    requires Spells(s, n)
    ensures s != "" && s[0] != '+' && s[0] != '-'
  {
    DigitsSpell(s, n);
    assert IsDigit(s[0]);
  }

  /** A text reads as a 64-bit unsigned number exactly when it spells it, with or without a plus sign. */
  lemma U64Exactly(s: string, n: nat)
    ensures ParseU64(s) == Some(n)
            <==> n < 0x1_0000_0000_0000_0000 && (Spells(s, n) || (s != "" && s[0] == '+' && Spells(s[1..], n)))
  {
    hide ParseDigits, Spells;
    DigitsSpell(s, n);
    if s != "" {
      DigitsSpell(s[1..], n);
    }
    if Spells(s, n) {
      SpellsNoSign(s, n);
    }
  }

  /** Signed numbers likewise, a minus sign negating. */
  lemma I64Exactly(s: string, n: int)
    ensures ParseI64(s) == Some(n) <==>
            && -0x8000_0000_0000_0000 <= n < 0x8000_0000_0000_0000
            && (|| (n >= 0 && (Spells(s, n) || (s != "" && s[0] == '+' && Spells(s[1..], n))))
                || (n <= 0 && s != "" && s[0] == '-' && Spells(s[1..], -n)))
  {
    hide ParseDigits, Spells;
    var m := if n < 0 then -n else n;
    DigitsSpell(s, m);
    if s != "" {
      DigitsSpell(s[1..], m);
      if ParseDigits(s[1..]).Some? {
        DigitsSpell(s[1..], ParseDigits(s[1..]).value);
      }
    }
    if Spells(s, m) {
      SpellsNoSign(s, m);
    }
  }

  /** A negative integer is written as a minus sign and its magnitude. */
  lemma IntTextSigns(n: int)
    ensures n >= 0 ==> IntText(n) == Decimal(n)
    ensures n < 0 ==> IntText(n) == "-" + Decimal(-n)
  {
  }
}
