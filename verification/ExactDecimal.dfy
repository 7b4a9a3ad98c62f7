/**
 Exact numbers and the JSON number grammar (section 6 of RFC 8259), over which
 scripts/telemetry_canonical_record.py `normalize_exact_decimal` is specified.
 */
module ExactDecimal {
  import opened Outcomes
  import opened Digits

  /** The exact number `± mantissa * 10^exponent`. */
  datatype Decimal = Decimal(negative: bool, mantissa: nat, exponent: int)

  /** `m * 10^e == n * 10^f`, without fractions. */
  ghost predicate SameMagnitude(m: nat, e: int, n: nat, f: int) {
    if e <= f then m == n * Pow10(f - e) else n == m * Pow10(e - f)
  }

  /** Numeric equality; negative zero is zero. */
  ghost predicate SameValue(a: Decimal, b: Decimal) {
    && (a.mantissa == 0 <==> b.mantissa == 0)
    && (a.mantissa != 0 ==>
          a.negative == b.negative && SameMagnitude(a.mantissa, a.exponent, b.mantissa, b.exponent))
  }

  /** The representative whose mantissa does not end in zero; zero has exponent 0 and no sign. */
  function Reduced(d: Decimal): Decimal
    decreases d.mantissa
  {
    if d.mantissa == 0 then Decimal(false, 0, 0)
    else if d.mantissa % 10 == 0 then Reduced(Decimal(d.negative, d.mantissa / 10, d.exponent + 1))
    else d
  }

  lemma ScaleStep(m: nat, k: nat)
    requires k > 0
    ensures (m * Pow10(k)) % 10 == 0 && (m * Pow10(k)) / 10 == m * Pow10(k - 1)
    ensures m > 0 ==> m * Pow10(k) > 0
  {
    var p := Pow10(k - 1);
    assert m * (10 * p) == 10 * (m * p);
    if m > 0 {
      Positive(m, p);
    }
  }

  lemma Positive(m: nat, p: nat)
    requires m > 0 && p > 0
    ensures m * p > 0
  {
  }

  lemma {:induction false} ReducedScale(negative: bool, m: nat, k: nat, e: int)
    ensures Reduced(Decimal(negative, m * Pow10(k), e)) == Reduced(Decimal(negative, m, e + k))
    decreases k
  {
    if k > 0 {
      ScaleStep(m, k);
      ReducedScale(negative, m, k - 1, e + 1);
    }
  }

  lemma {:induction false} ReducedUnscales(d: Decimal)
    requires d.mantissa > 0
    ensures var r := Reduced(d);
            && r.negative == d.negative && r.exponent >= d.exponent && r.mantissa > 0 && r.mantissa % 10 != 0
            && d.mantissa == r.mantissa * Pow10(r.exponent - d.exponent)
    decreases d.mantissa
  {
    if d.mantissa % 10 == 0 {
      var next := Decimal(d.negative, d.mantissa / 10, d.exponent + 1);
      ReducedUnscales(next);
      var r := Reduced(next);
      var k := r.exponent - next.exponent;
      ScaleStep(r.mantissa, k + 1);
    }
  }

  /** Two numbers are equal exactly when they have the same reduced form. */
  lemma SameValueIffReduced(a: Decimal, b: Decimal)
    ensures SameValue(a, b) <==> Reduced(a) == Reduced(b)
  {
    if a.mantissa == 0 || b.mantissa == 0 {
      if a.mantissa != 0 { ReducedUnscales(a); }
      if b.mantissa != 0 { ReducedUnscales(b); }
    } else if a.exponent <= b.exponent {
      SameValueOrdered(a, b);
    } else {
      SameValueOrdered(b, a);
    }
  }

  lemma SameValueOrdered(a: Decimal, b: Decimal)
    requires a.mantissa > 0 && b.mantissa > 0 && a.exponent <= b.exponent
    ensures Reduced(a) == Reduced(b) <==>
            a.negative == b.negative && a.mantissa == b.mantissa * Pow10(b.exponent - a.exponent)
  {
    if Reduced(a) == Reduced(b) {
      SameReduced(a, b);
    }
    if a.negative == b.negative && a.mantissa == b.mantissa * Pow10(b.exponent - a.exponent) {
      ScaledReduced(a, b);
    }
  }

  lemma ScaledReduced(a: Decimal, b: Decimal)
    requires a.exponent <= b.exponent
    requires a.negative == b.negative && a.mantissa == b.mantissa * Pow10(b.exponent - a.exponent)
    ensures Reduced(a) == Reduced(b)
  {
    hide Reduced, Pow10;
    var k := b.exponent - a.exponent;
    ReducedScale(b.negative, b.mantissa, k, a.exponent);
    assert a == Decimal(b.negative, b.mantissa * Pow10(k), a.exponent);
    assert b == Decimal(b.negative, b.mantissa, a.exponent + k);
  }

  lemma SameReduced(a: Decimal, b: Decimal)
    requires a.mantissa > 0 && b.mantissa > 0 && a.exponent <= b.exponent && Reduced(a) == Reduced(b)
    ensures a.negative == b.negative && a.mantissa == b.mantissa * Pow10(b.exponent - a.exponent)
  {
    hide Reduced, Pow10;
    ReducedUnscales(a);
    ReducedUnscales(b);
    var r := Reduced(b);
    var i, k := r.exponent - b.exponent, b.exponent - a.exponent;
    Pow10Add(i, k);
    assert i + k == r.exponent - a.exponent;
    Associate(r.mantissa, Pow10(i), Pow10(k), a.mantissa, b.mantissa);
  }

  lemma Associate(r: nat, p: nat, q: nat, m: nat, n: nat)
    requires m == r * (p * q) && n == r * p
    ensures m == n * q
  {
  }

  // ----- the grammar

  datatype Exponent = NoExponent | Exponent(letter: char, sign: string, digits: string)

  /** The parts of a JSON number; an absent fraction is the empty string. */
  datatype Token = Token(negative: bool, integer: string, fraction: string, exponent: Exponent)

  predicate ValidExponent(e: Exponent) {
    e.Exponent? ==>
      e.letter in {'e', 'E'} && e.sign in {"", "+", "-"} && e.digits != "" && AllDigits(e.digits)
  }

  predicate ValidToken(t: Token) {
    Canonical(t.integer) && AllDigits(t.fraction) && ValidExponent(t.exponent)
  }

  function ExponentText(e: Exponent): string {
    match e
    case NoExponent => ""
    case Exponent(letter, sign, digits) => [letter] + sign + digits
  }

  function FractionText(fraction: string): string {
    if fraction == "" then "" else "." + fraction
  }

  function SignText(negative: bool): string {
    if negative then "-" else ""
  }

  function UnsignedText(t: Token): string {
    t.integer + (FractionText(t.fraction) + ExponentText(t.exponent))
  }

  function TokenText(t: Token): string {
    SignText(t.negative) + UnsignedText(t)
  }

  function ExponentValue(e: Exponent): int
    requires ValidExponent(e)
  {
    match e
    case NoExponent => 0
    case Exponent(_, sign, digits) => if sign == "-" then -(Val(digits) as int) else Val(digits)
  }

  function TokenValue(t: Token): Decimal
    requires ValidToken(t)
  {
    Decimal(t.negative, Val(t.integer + t.fraction), ExponentValue(t.exponent) - |t.fraction|)
  }

  ghost predicate IsJsonNumber(text: string) {
    exists t :: ValidToken(t) && TokenText(t) == text
  }

  /** Length of the longest prefix of digits. */
  function DigitRun(s: string): (n: nat)
    ensures n <= |s| && AllDigits(s[..n])
    ensures n < |s| ==> !IsDigit(s[n])
  {
    if s != "" && IsDigit(s[0]) then
      var n := DigitRun(s[1..]);
      assert s[..n + 1] == [s[0]] + s[1..][..n];
      n + 1
    else 0
  }

  function ScanExponent(s: string): Option<Exponent> {
    if s == "" then Some(NoExponent)
    else if s[0] in {'e', 'E'} then
      var sign := if |s| > 1 && s[1] in {'+', '-'} then s[1..2] else "";
      var digits := s[1 + |sign|..];
      if digits != "" && AllDigits(digits) then Some(Exponent(s[0], sign, digits)) else None
    else None
  }

  function ScanFraction(s: string): Option<(string, Exponent)> {
    if s != "" && s[0] == '.' then
      var n := DigitRun(s[1..]);
      var exponent := ScanExponent(s[1 + n..]);
      if n > 0 && exponent.Some? then Some((s[1..1 + n], exponent.value)) else None
    else
      var exponent := ScanExponent(s);
      if exponent.Some? then Some(("", exponent.value)) else None
  }

  function ScanUnsigned(negative: bool, s: string): Option<Token> {
    var n := DigitRun(s);
    var rest := ScanFraction(s[n..]);
    if Canonical(s[..n]) && rest.Some? then Some(Token(negative, s[..n], rest.value.0, rest.value.1)) else None
  }

  /** The full match against the JSON number pattern, with its parts. */
  function Scan(text: string): Option<Token> {
    if text != "" && text[0] == '-' then ScanUnsigned(true, text[1..]) else ScanUnsigned(false, text)
  }

  lemma ScanExponentSound(s: string)
    ensures ScanExponent(s).Some? ==>
              ValidExponent(ScanExponent(s).value) && ExponentText(ScanExponent(s).value) == s
  {
    if |s| > 1 {
      assert s[1] == '+' ==> s[1..2] == "+";
      assert s[1] == '-' ==> s[1..2] == "-";
    }
  }

  lemma ScanExponentComplete(e: Exponent)
    requires ValidExponent(e)
    ensures ScanExponent(ExponentText(e)) == Some(e)
  {
    if e.Exponent? {
      var s := ExponentText(e);
      assert IsDigit(e.digits[0]);
      assert s[1 + |e.sign|..] == e.digits;
      assert e.sign != "" ==> s[1] == e.sign[0] && s[1..2] == e.sign;
      assert e.sign == "" ==> s[1] == e.digits[0];
    }
  }

  lemma ScanFractionSound(s: string)
    ensures ScanFraction(s).Some? ==>
              var (fraction, exponent) := ScanFraction(s).value;
              && AllDigits(fraction) && ValidExponent(exponent)
              && FractionText(fraction) + ExponentText(exponent) == s
  {
    if s != "" && s[0] == '.' {
      var n := DigitRun(s[1..]);
      ScanExponentSound(s[1 + n..]);
      assert s[1..][..n] == s[1..1 + n];
      assert s == "." + s[1..1 + n] + s[1 + n..];
    } else {
      ScanExponentSound(s);
    }
  }

  lemma {:induction false} DigitRunExact(digits: string, rest: string)
    requires AllDigits(digits) && (rest != "" ==> !IsDigit(rest[0]))
    ensures DigitRun(digits + rest) == |digits|
  {
    if digits != "" {
      assert (digits + rest)[1..] == digits[1..] + rest;
      DigitRunExact(digits[1..], rest);
    } else {
      assert digits + rest == rest;
    }
  }

  lemma FractionSplit(fraction: string, rest: string)
    requires fraction != ""
    ensures var s := FractionText(fraction) + rest;
            && s[0] == '.' && s[1..] == fraction + rest
            && s[1 + |fraction|..] == rest && s[1..1 + |fraction|] == fraction
  {
  }

  lemma ScanFractionComplete(fraction: string, exponent: Exponent)
    requires AllDigits(fraction) && ValidExponent(exponent)
    ensures ScanFraction(FractionText(fraction) + ExponentText(exponent)) == Some((fraction, exponent))
  {
    hide DigitRun, ScanExponent;
    ScanExponentComplete(exponent);
    var rest := ExponentText(exponent);
    assert rest != "" ==> rest[0] in {'e', 'E'};
    if fraction == "" {
      assert FractionText(fraction) + rest == rest;
    } else {
      hide ExponentText;
      FractionSplit(fraction, rest);
      DigitRunExact(fraction, rest);
    }
  }

  lemma ScanUnsignedSound(negative: bool, s: string)
    requires ScanUnsigned(negative, s).Some?
    ensures var t := ScanUnsigned(negative, s).value;
            ValidToken(t) && t.negative == negative && UnsignedText(t) == s
  {
    var n := DigitRun(s);
    ScanFractionSound(s[n..]);
    assert s == s[..n] + s[n..];
  }

  lemma ScanUnsignedComplete(t: Token)
    requires ValidToken(t)
    ensures ScanUnsigned(t.negative, UnsignedText(t)) == Some(t)
  {
    var rest := FractionText(t.fraction) + ExponentText(t.exponent);
    var s := t.integer + rest;
    ScanFractionComplete(t.fraction, t.exponent);
    NoDigitAfter(t);
    DigitRunExact(t.integer, rest);
    assert s[..|t.integer|] == t.integer && s[|t.integer|..] == rest;
  }

  lemma NoDigitAfter(t: Token)
    requires ValidToken(t)
    ensures var rest := FractionText(t.fraction) + ExponentText(t.exponent);
            rest != "" ==> rest[0] in {'.', 'e', 'E'}
  {
  }

  lemma SignedSplit(negative: bool, s: string)
    ensures negative ==> (SignText(true) + s)[0] == '-' && (SignText(true) + s)[1..] == s
    ensures !negative ==> SignText(false) + s == s
  {
  }

  /** A scanned token spells the text it was scanned from. */
  lemma ScanSound(text: string)
    ensures Scan(text).Some? ==> ValidToken(Scan(text).value) && TokenText(Scan(text).value) == text
  {
    if Scan(text).Some? {
      if text[0] == '-' {
        ScanUnsignedSound(true, text[1..]);
        assert text == "-" + text[1..];
      } else {
        ScanUnsignedSound(false, text);
        assert text == "" + text;
      }
    }
  }

  /** Every token is recovered from its text, so the grammar is unambiguous. */
  lemma ScanComplete(t: Token)
    requires ValidToken(t)
    ensures Scan(TokenText(t)) == Some(t)
  {
    var s := UnsignedText(t);
    ScanUnsignedComplete(t);
    SignedSplit(t.negative, s);
    assert s[0] == t.integer[0] && IsDigit(s[0]);
  }

  /** The scanner decides the grammar. */
  lemma ScanDecides(text: string)
    ensures Scan(text).Some? <==> IsJsonNumber(text)
  {
    ScanSound(text);
    if IsJsonNumber(text) {
      var t :| ValidToken(t) && TokenText(t) == text;
      ScanComplete(t);
    }
  }
}
