/**
 scripts/telemetry_canonical_record.py `normalize_exact_decimal`: the shortest exact spelling of a
 JSON number, computed on digit strings and specified on exact numbers.
 */
module CanonicalNumber {
  import opened Outcomes
  import opened Digits
  import opened ExactDecimal

  const MAX_CANONICAL_VALUE_BYTES: nat := 1_048_576

  datatype NumberError = TooLong | NotJsonNumber

  /** Length of the UTF-8 encoding. */
  function Utf8Length(s: string): nat {
    if s == "" then 0
    else Utf8Length(s[..|s| - 1]) + var c := s[|s| - 1] as int;
      if c < 0x80 then 1 else if c < 0x800 then 2 else if c < 0x10000 then 3 else 4
  }

  predicate IsAscii(s: string) {
    forall i | 0 <= i < |s| :: s[i] as int < 0x80
  }

  lemma {:induction false} AsciiLength(s: string)
    requires IsAscii(s)
    ensures Utf8Length(s) == |s|
  {
    if s != "" {
      AsciiLength(s[..|s| - 1]);
    }
  }

  lemma TokenIsAscii(t: Token)
    requires ValidToken(t)
    ensures IsAscii(TokenText(t))
  {
    assert IsAscii(FractionText(t.fraction));
    assert IsAscii(ExponentText(t.exponent));
  }

  // ----- which spelling is chosen

  /** One digit, the others as a fraction, and an exponent unless it is zero. */
  function ScientificToken(negative: bool, digits: string, exponent: int): (t: Token)
    requires digits != ""
    ensures t.negative == negative
  {
    Token(negative, digits[..1], digits[1..], ExponentPart(exponent))
  }

  function Magnitude(i: int): nat {
    if i < 0 then -i else i
  }

  function ExponentPart(x: int): Exponent {
    if x == 0 then NoExponent else Exponent('e', if x < 0 then "-" else "", Text(Magnitude(x)))
  }

  /** `digits` with the decimal point moved `point` places from their left end, if that fits the size bound. */
  function PlainToken(negative: bool, digits: string, point: int): (t: Option<Token>)
    requires digits != ""
    ensures t.Some? ==> t.value.negative == negative && t.value.exponent.NoExponent?
  {
    if point <= 0 then
      if 2 - point + |digits| <= MAX_CANONICAL_VALUE_BYTES
      then Some(Token(negative, "0", Zeros(-point) + digits, NoExponent)) else None
    else if point >= |digits| then
      if point <= MAX_CANONICAL_VALUE_BYTES
      then Some(Token(negative, digits + Zeros(point - |digits|), "", NoExponent)) else None
    else if |digits| + 1 <= MAX_CANONICAL_VALUE_BYTES
    then Some(Token(negative, digits[..point], digits[point..], NoExponent)) else None
  }

  /** The token of a reduced number: the shorter of the two forms, plain when they tie. */
  function TokenOf(r: Decimal): Token {
    if r.mantissa == 0 then Token(false, "0", "", NoExponent)
    else
      var digits := Text(r.mantissa);
      Shorter(PlainToken(r.negative, digits, r.exponent + |digits|),
              ScientificToken(r.negative, digits, r.exponent + |digits| - 1))
  }

  function Shorter(plain: Option<Token>, scientific: Token): Token {
    if plain.Some? && |UnsignedText(plain.value)| <= |UnsignedText(scientific)| then plain.value else scientific
  }

  function CanonicalToken(d: Decimal): Token {
    TokenOf(Reduced(d))
  }

  function Spelling(d: Decimal): string {
    TokenText(CanonicalToken(d))
  }

  /** What `normalize_exact_decimal` returns or raises. */
  function Normalized(text: string): (r: Result<string, NumberError>) {
    if Utf8Length(text) > MAX_CANONICAL_VALUE_BYTES then Err(TooLong)
    else match Scan(text)
      case None => Err(NotJsonNumber)
      case Some(t) => ScanSound(text); Ok(Spelling(TokenValue(t)))
  }

  // ----- the chosen spelling denotes the number

  lemma ExponentPartDenotes(x: int)
    ensures ValidExponent(ExponentPart(x)) && ExponentValue(ExponentPart(x)) == x
  {
    hide Val, Text;
    TextCanonical(Magnitude(x));
  }

  lemma ScientificDenotes(negative: bool, digits: string, x: int)
    requires Canonical(digits)
    ensures var t := ScientificToken(negative, digits, x);
            ValidToken(t) && TokenValue(t) == Decimal(negative, Val(digits), x + 1 - |digits|)
  {
    hide Val, ExponentPart, ExponentValue, ValidExponent;
    ExponentPartDenotes(x);
    assert digits[..1] + digits[1..] == digits;
  }

  lemma {:induction false} LeadingZeros(k: nat, digits: string)
    requires AllDigits(digits)
    ensures AllDigits(Zeros(k) + digits) && Val(Zeros(k) + digits) == Val(digits)
  {
    if k == 0 {
      assert Zeros(k) + digits == digits;
    } else {
      LeadingZeros(k - 1, digits);
      assert (Zeros(k) + digits)[1..] == Zeros(k - 1) + digits;
      DropZero(Zeros(k) + digits);
    }
  }

  lemma ZerosStep(k: nat, digits: string)
    ensures Zeros(k + 1) + digits == "0" + (Zeros(k) + digits)
  {
  }

  lemma AppendNothing(s: string)
    ensures s + "" == s
  {
  }

  /** The value of a spelling without exponent. */
  lemma PlainValue(negative: bool, integer: string, fraction: string, all: string)
    requires Canonical(integer) && AllDigits(fraction) && all == integer + fraction
    ensures var t := Token(negative, integer, fraction, NoExponent);
            ValidToken(t) && TokenValue(t) == Decimal(negative, Val(all), 0 - |fraction|)
  {
  }

  lemma PlainSmall(negative: bool, digits: string, k: nat)
    requires AllDigits(digits)
    ensures var t := Token(negative, "0", Zeros(k) + digits, NoExponent);
            ValidToken(t) && TokenValue(t) == Decimal(negative, Val(digits), 0 - k - |digits|)
  {
    var all := Zeros(k + 1) + digits;
    LeadingZeros(k + 1, digits);
    ZerosStep(k, digits);
    PlainValue(negative, "0", Zeros(k) + digits, all);
  }

  lemma PlainLarge(negative: bool, digits: string, k: nat)
    requires Canonical(digits) && digits[0] != '0'
    ensures var t := Token(negative, digits + Zeros(k), "", NoExponent);
            ValidToken(t) && Reduced(TokenValue(t)) == Reduced(Decimal(negative, Val(digits), k))
  {
    hide Val, Reduced, Pow10;
    var all := digits + Zeros(k);
    var m := Val(digits);
    ValAppend(digits, Zeros(k));
    ValZeros(k);
    AppendNothing(all);
    PlainValue(negative, all, "", all);
    AddZero(Val(all), m * Pow10(k), Val(Zeros(k)));
    ScaledReduced(Decimal(negative, Val(all), 0), Decimal(negative, m, k));
  }

  lemma AddZero(a: nat, b: nat, c: nat)
    requires a == b + c && c == 0
    ensures a == b
  {
  }

  lemma PlainMiddle(negative: bool, digits: string, point: nat)
    requires Canonical(digits) && digits[0] != '0' && 0 < point <= |digits|
    ensures var t := Token(negative, digits[..point], digits[point..], NoExponent);
            ValidToken(t) && TokenValue(t) == Decimal(negative, Val(digits), point - |digits|)
  {
    assert digits == digits[..point] + digits[point..];
    PlainValue(negative, digits[..point], digits[point..], digits);
  }

  lemma PlainDenotes(negative: bool, digits: string, point: int)
    requires Canonical(digits) && digits[0] != '0' && PlainToken(negative, digits, point).Some?
    ensures var t := PlainToken(negative, digits, point).value;
            ValidToken(t) && Reduced(TokenValue(t)) == Reduced(Decimal(negative, Val(digits), point - |digits|))
  {
    hide Val, Zeros, Reduced, TokenValue, ValidToken;
    if point <= 0 {
      PlainSmall(negative, digits, -point);
    } else if point >= |digits| {
      PlainLarge(negative, digits, point - |digits|);
    } else {
      PlainMiddle(negative, digits, point);
    }
  }

  lemma {:induction false} ReducedIdempotent(d: Decimal)
    ensures Reduced(Reduced(d)) == Reduced(d)
    decreases d.mantissa
  {
    if d.mantissa != 0 && d.mantissa % 10 == 0 {
      ReducedIdempotent(Decimal(d.negative, d.mantissa / 10, d.exponent + 1));
    }
  }

  lemma ZeroToken()
    ensures var t := Token(false, "0", "", NoExponent); ValidToken(t) && TokenValue(t) == Decimal(false, 0, 0)
  {
    assert "0" + "" == "0";
    ValSingle('0');
  }

  lemma NonzeroText(m: nat)
    requires m > 0
    ensures Canonical(Text(m)) && Text(m)[0] != '0' && Val(Text(m)) == m
  {
    TextCanonical(m);
    CanonicalBounds(Text(m));
  }

  lemma TokenOfReduced(r: Decimal)
    requires r.mantissa > 0
    ensures ValidToken(TokenOf(r)) && Reduced(TokenValue(TokenOf(r))) == Reduced(r)
    ensures TokenOf(r).negative == r.negative
  {
    hide Reduced, Text, PlainToken, ScientificToken, UnsignedText, TokenValue, Val, ValidToken;
    var digits := Text(r.mantissa);
    NonzeroText(r.mantissa);
    var point := r.exponent + |digits|;
    ScientificDenotes(r.negative, digits, point - 1);
    if PlainToken(r.negative, digits, point).Some? {
      PlainDenotes(r.negative, digits, point);
    }
  }

  lemma CanonicalTokenReduced(d: Decimal)
    ensures ValidToken(CanonicalToken(d)) && Reduced(TokenValue(CanonicalToken(d))) == Reduced(d)
  {
    if d.mantissa == 0 {
      ZeroToken();
    } else {
      ReducedUnscales(d);
      TokenOfReduced(Reduced(d));
      ReducedIdempotent(d);
    }
  }

  lemma NormalizedReduced(text: string)
    requires Normalized(text).Ok?
    ensures var out := Normalized(text).value;
            && Scan(text).Some? && ValidToken(Scan(text).value)
            && Scan(out) == Some(CanonicalToken(TokenValue(Scan(text).value)))
            && ValidToken(Scan(out).value)
            && Reduced(TokenValue(Scan(out).value)) == Reduced(TokenValue(Scan(text).value))
  {
    ScanSound(text);
    var d := TokenValue(Scan(text).value);
    CanonicalTokenReduced(d);
    ScanComplete(CanonicalToken(d));
  }

  /** Value preservation: the output is a JSON number and denotes exactly the input's number. */
  lemma PreservesValue(text: string)
    ensures Normalized(text).Ok? ==>
              var out := Normalized(text).value;
              && Scan(text).Some? && ValidToken(Scan(text).value)
              && Scan(out).Some? && ValidToken(Scan(out).value)
              && SameValue(TokenValue(Scan(out).value), TokenValue(Scan(text).value))
  {
    if Normalized(text).Ok? {
      NormalizedReduced(text);
      SameValueIffReduced(TokenValue(Scan(Normalized(text).value).value), TokenValue(Scan(text).value));
    }
  }

  lemma SpellingDecidedByReduced(a: Decimal, b: Decimal)
    ensures Spelling(a) == Spelling(b) <==> Reduced(a) == Reduced(b)
  {
    CanonicalTokenReduced(a);
    CanonicalTokenReduced(b);
    if Spelling(a) == Spelling(b) {
      ScanComplete(CanonicalToken(a));
      ScanComplete(CanonicalToken(b));
    }
  }

  /** Canonicity: two accepted inputs get the same text exactly when they are numerically equal. */
  lemma SameTextIffSameValue(a: string, b: string)
    ensures Normalized(a).Ok? && Normalized(b).Ok? ==>
              && ValidToken(Scan(a).value) && ValidToken(Scan(b).value)
              && (Normalized(a) == Normalized(b) <==>
                  SameValue(TokenValue(Scan(a).value), TokenValue(Scan(b).value)))
  {
    hide Spelling, Reduced, SameValue, Utf8Length;
    if Normalized(a).Ok? && Normalized(b).Ok? {
      ScanSound(a);
      ScanSound(b);
      SpellingDecidedByReduced(TokenValue(Scan(a).value), TokenValue(Scan(b).value));
      SameValueIffReduced(TokenValue(Scan(a).value), TokenValue(Scan(b).value));
    }
  }

  /** What is accepted: JSON numbers within the size bound, and nothing else. */
  lemma AcceptsExactly(text: string)
    ensures Normalized(text).Ok? <==> IsJsonNumber(text) && |text| <= 1024 * 1024
  {
    ScanDecides(text);
    ScanSound(text);
    if Scan(text).Some? {
      TokenIsAscii(Scan(text).value);
      AsciiLength(text);
    }
  }

  /** Normalising again changes nothing; the only other outcome is an output that outgrew the bound. */
  lemma NormalizedTwice(text: string)
    ensures Normalized(text).Ok? ==>
              var out := Normalized(text).value;
              Normalized(out) == if |out| <= MAX_CANONICAL_VALUE_BYTES then Ok(out) else Err(TooLong)
  {
    if Normalized(text).Ok? {
      var out := Normalized(text).value;
      NormalizedReduced(text);
      ScanSound(out);
      TokenIsAscii(Scan(out).value);
      AsciiLength(out);
      SpellingDecidedByReduced(TokenValue(Scan(out).value), TokenValue(Scan(text).value));
    }
  }

  // ----- the form of an output

  /**
   A small `e` after one digit that is not zero, an exponent without plus sign and leading zeros, no zeros at the end
   of a fraction, and no sign on zero.
   */
  predicate InForm(t: Token) {
    && (t.exponent.Exponent? ==>
          && t.exponent.letter == 'e' && (t.exponent.sign == "" || t.exponent.sign == "-")
          && Canonical(t.exponent.digits) && t.exponent.digits != "0"
          && |t.integer| == 1 && t.integer != "0")
    && (t.fraction != "" ==> t.fraction[|t.fraction| - 1] != '0')
    && (t.negative ==> exists i | 0 <= i < |t.integer + t.fraction| :: (t.integer + t.fraction)[i] != '0')
  }

  lemma LastDigit(m: nat)
    requires m % 10 != 0
    ensures Text(m)[|Text(m)| - 1] != '0'
  {
  }

  lemma PositiveText(k: nat)
    requires k > 0
    ensures Canonical(Text(k)) && Text(k) != "0"
  {
    NonzeroText(k);
  }

  lemma ScientificForm(negative: bool, digits: string, x: int)
    requires Canonical(digits) && digits[0] != '0' && digits[|digits| - 1] != '0'
    ensures InForm(ScientificToken(negative, digits, x))
  {
    var t := ScientificToken(negative, digits, x);
    if x != 0 {
      PositiveText(Magnitude(x));
    }
    assert (t.integer + t.fraction)[0] == digits[0];
    hide Text;
  }

  lemma PlainForm(negative: bool, digits: string, point: int)
    requires Canonical(digits) && digits[0] != '0' && digits[|digits| - 1] != '0'
    requires PlainToken(negative, digits, point).Some?
    ensures InForm(PlainToken(negative, digits, point).value)
  {
    var t := PlainToken(negative, digits, point).value;
    if point <= 0 {
      var zeros := Zeros(-point);
      assert t.fraction[|t.fraction| - 1] == digits[|digits| - 1];
      assert (t.integer + t.fraction)[|t.integer + t.fraction| - 1] == digits[|digits| - 1];
    } else {
      assert (t.integer + t.fraction)[0] == digits[0];
    }
  }

  /** Every output is written in this form. */
  lemma OutputForm(d: Decimal)
    ensures ValidToken(CanonicalToken(d)) && InForm(CanonicalToken(d))
  {
    CanonicalTokenReduced(d);
    if d.mantissa > 0 {
      ReducedUnscales(d);
      var r := Reduced(d);
      var digits := Text(r.mantissa);
      NonzeroText(r.mantissa);
      LastDigit(r.mantissa);
      hide Reduced, Text, InForm, PlainToken, ScientificToken;
      ScientificForm(r.negative, digits, r.exponent + |digits| - 1);
      if PlainToken(r.negative, digits, r.exponent + |digits|).Some? {
        PlainForm(r.negative, digits, r.exponent + |digits|);
      }
    }
  }

  // ----- the chosen spelling is short

  lemma {:induction false} StripRightReduces(negative: bool, s: string, e: int)
    requires AllDigits(s) && s != "" && s[0] != '0'
    ensures var trimmed := StripRight(s);
            && Canonical(trimmed) && trimmed[0] != '0' && |trimmed| <= |s| && Val(trimmed) > 0
            && Reduced(Decimal(negative, Val(s), e)) == Decimal(negative, Val(trimmed), e + |s| - |trimmed|)
  {
    ValLeading(s);
    if s[|s| - 1] == '0' {
      var init := s[..|s| - 1];
      StripRightReduces(negative, init, e + 1);
      ValLeading(init);
      assert Val(s) == 10 * Val(init);
      ReducedTimesTen(negative, Val(init), e);
      hide Reduced, Val, Text;
    } else {
      assert Val(s) % 10 == DigitOf(s[|s| - 1]);
    }
  }

  lemma ReducedTimesTen(negative: bool, m: nat, e: int)
    requires m > 0
    ensures Reduced(Decimal(negative, 10 * m, e)) == Reduced(Decimal(negative, m, e + 1))
  {
    assert 10 * m % 10 == 0 && 10 * m / 10 == m;
  }

  /** How the digits of any spelling relate to the reduced mantissa. */
  lemma DigitsOfToken(t: Token)
    requires ValidToken(t) && TokenValue(t).mantissa != 0
    ensures var r := Reduced(TokenValue(t));
            var digits := Text(r.mantissa);
            var stripped := StripLeft(t.integer + t.fraction);
            && r.negative == t.negative && r.mantissa > 0
            && |digits| <= |stripped| <= |t.integer + t.fraction|
            && r.exponent == ExponentValue(t.exponent) - |t.fraction| + |stripped| - |digits|
  {
    var all := t.integer + t.fraction;
    StripLeftFacts(all);
    var stripped := StripLeft(all);
    StripRightReduces(t.negative, stripped, ExponentValue(t.exponent) - |t.fraction|);
    CanonicalIsText(StripRight(stripped));
  }

  /** The plain form is as short as any plain spelling of the number that fits the bound. */
  lemma PlainIsShortest(t: Token)
    requires ValidToken(t) && TokenValue(t).mantissa != 0
    requires t.exponent.NoExponent? && |UnsignedText(t)| <= MAX_CANONICAL_VALUE_BYTES
    ensures var r := Reduced(TokenValue(t));
            var plain := PlainToken(r.negative, Text(r.mantissa), r.exponent + |Text(r.mantissa)|);
            plain.Some? && |UnsignedText(plain.value)| <= |UnsignedText(t)|
  {
    hide Reduced, TokenValue, Val, Text, StripLeft, Zeros;
    DigitsOfToken(t);
    var r := Reduced(TokenValue(t));
    var stripped := StripLeft(t.integer + t.fraction);
    var digits := Text(r.mantissa);
    var point := r.exponent + |digits|;
    assert point == |stripped| - |t.fraction|;
    assert |UnsignedText(t)| == |t.integer| + |t.fraction| + (if t.fraction == "" then 0 else 1);
  }

  lemma ExponentShortest(e: Exponent)
    requires ValidExponent(e)
    ensures var x := ExponentValue(e);
            x != 0 ==> |ExponentText(e)| >= 1 + (if x < 0 then 1 else 0) + |Text(Magnitude(x))|
  {
    if ExponentValue(e) != 0 {
      StripLeftFacts(e.digits);
      StripLeftCanonical(e.digits);
    }
  }

  lemma LeadingDigitStays(t: Token)
    requires ValidToken(t) && |t.integer| == 1 && t.integer != "0"
    ensures TokenValue(t).mantissa != 0
    ensures StripLeft(t.integer + t.fraction) == t.integer + t.fraction
  {
    ValLeading(t.integer + t.fraction);
  }

  /** The scientific form is as short as any spelling with a single, nonzero digit before the point. */
  lemma ScientificIsShortest(t: Token)
    requires ValidToken(t) && |t.integer| == 1 && t.integer != "0"
    ensures TokenValue(t).mantissa != 0
    ensures var r := Reduced(TokenValue(t));
            var scientific := ScientificToken(r.negative, Text(r.mantissa), r.exponent + |Text(r.mantissa)| - 1);
            |UnsignedText(scientific)| <= |UnsignedText(t)|
  {
    LeadingDigitStays(t);
    DigitsOfToken(t);
    ExponentShortest(t.exponent);
    var r := Reduced(TokenValue(t));
    var digits := Text(r.mantissa);
    assert r.exponent + |digits| - 1 == ExponentValue(t.exponent);
  }

  predicate IsPlain(t: Token) {
    t.exponent.NoExponent? && |TokenText(t)| <= MAX_CANONICAL_VALUE_BYTES
  }

  predicate IsScientific(t: Token) {
    |t.integer| == 1 && t.integer != "0"
  }

  /**
   The chosen spelling is no longer than any in-bound plain spelling of the same number nor any
   spelling with one nonzero digit before the point; against an equally long plain one it has no exponent.
   */
  lemma ShortestSpelling(d: Decimal, t: Token)
    requires ValidToken(t) && SameValue(TokenValue(t), d)
    requires IsPlain(t) || IsScientific(t)
    ensures |Spelling(d)| <= |TokenText(t)|
    ensures IsPlain(t) && |Spelling(d)| == |TokenText(t)| ==> CanonicalToken(d).exponent.NoExponent?
  {
    SameValueIffReduced(TokenValue(t), d);
    if TokenValue(t).mantissa != 0 {
      DigitsOfToken(t);
      ShortestUnsigned(t);
      SignedLength(t);
      SignedLength(TokenOf(Reduced(d)));
    }
  }

  lemma SignedLength(t: Token)
    ensures |TokenText(t)| == |UnsignedText(t)| + if t.negative then 1 else 0
  {
  }

  lemma ShorterFacts(plain: Option<Token>, scientific: Token)
    ensures var chosen := Shorter(plain, scientific);
            && (chosen == scientific || (plain.Some? && chosen == plain.value))
            && |UnsignedText(chosen)| <= |UnsignedText(scientific)|
            && (plain.Some? ==> |UnsignedText(chosen)| <= |UnsignedText(plain.value)|)
            && (plain.Some? && |UnsignedText(chosen)| == |UnsignedText(plain.value)| ==> chosen == plain.value)
  {
  }

  lemma ShortestUnsigned(t: Token)
    requires ValidToken(t) && TokenValue(t).mantissa != 0 && Reduced(TokenValue(t)).mantissa != 0
    requires IsPlain(t) || IsScientific(t)
    ensures var chosen := TokenOf(Reduced(TokenValue(t)));
            && |UnsignedText(chosen)| <= |UnsignedText(t)|
            && (IsPlain(t) && |UnsignedText(chosen)| == |UnsignedText(t)| ==> chosen.exponent.NoExponent?)
            && chosen.negative == Reduced(TokenValue(t)).negative
  {
    hide Reduced, Text, PlainToken, ScientificToken, UnsignedText, TokenValue, Shorter;
    SignedLength(t);
    var r := Reduced(TokenValue(t));
    var digits := Text(r.mantissa);
    var plain := PlainToken(r.negative, digits, r.exponent + |digits|);
    var scientific := ScientificToken(r.negative, digits, r.exponent + |digits| - 1);
    assert TokenOf(r) == Shorter(plain, scientific);
    ShorterFacts(plain, scientific);
    if IsPlain(t) {
      PlainIsShortest(t);
    } else {
      ScientificIsShortest(t);
    }
  }

  lemma {:induction false} Pow10Exceeds(n: nat)
    ensures Pow10(n) > n
  {
    if n > 0 {
      Pow10Exceeds(n - 1);
    }
  }

  lemma SumLength(x: nat, k: nat, n: nat)
    requires x < Pow10(k) + n
    ensures |Text(x)| <= k + n + 1
  {
    Pow10Exceeds(n);
    Pow10Monotone(k, k + n);
    Pow10Monotone(n, k + n);
    Pow10Monotone(k + n, k + n + 1);
    TextLength(x, k + n + 1);
  }

  lemma ExponentBound(e: Exponent)
    requires ValidExponent(e)
    ensures Magnitude(ExponentValue(e)) < Pow10(|ExponentText(e)|)
  {
    if e.Exponent? {
      ValBound(e.digits);
      Pow10Monotone(|e.digits|, |ExponentText(e)|);
    }
  }

  /** An output is never much longer than its input. */
  lemma ShortStaysShort(text: string)
    ensures Normalized(text).Ok? ==> |Normalized(text).value| <= 2 * |text| + 6
  {
    hide TokenText, UnsignedText, CanonicalToken, Reduced, TokenValue, Scan;
    if Normalized(text).Ok? {
      ScanSound(text);
      var t := Scan(text).value;
      SignedLength(t);
      SignedLength(CanonicalToken(TokenValue(t)));
      ChosenLength(t);
    }
  }

  lemma ChosenLength(t: Token)
    requires ValidToken(t)
    ensures |UnsignedText(CanonicalToken(TokenValue(t)))| <= 2 * |UnsignedText(t)| + 5
  {
    hide Reduced, Text, TokenValue, Shorter, PlainToken, ScientificToken;
    var r := Reduced(TokenValue(t));
    if r.mantissa == 0 {
      ZeroSpelling(TokenValue(t));
    } else {
      NonzeroMantissa(TokenValue(t));
      ScientificLength(t);
      ShorterFacts(PlainToken(r.negative, Text(r.mantissa), r.exponent + |Text(r.mantissa)|),
                   ScientificToken(r.negative, Text(r.mantissa), r.exponent + |Text(r.mantissa)| - 1));
    }
  }

  lemma NonzeroMantissa(d: Decimal)
    ensures d.mantissa == 0 <==> Reduced(d).mantissa == 0
  {
    if d.mantissa != 0 {
      ReducedUnscales(d);
    }
  }

  lemma ScientificLength(t: Token)
    requires ValidToken(t) && TokenValue(t).mantissa != 0
    ensures var r := Reduced(TokenValue(t));
            var digits := Text(r.mantissa);
            |UnsignedText(ScientificToken(r.negative, digits, r.exponent + |digits| - 1))| <= 2 * |UnsignedText(t)| + 5
  {
    hide Reduced, Text, TokenValue, ExponentValue, StripLeft, Pow10;
    DigitsOfToken(t);
    ExponentBound(t.exponent);
    var r := Reduced(TokenValue(t));
    var digits := Text(r.mantissa);
    var x := r.exponent + |digits| - 1;
    SumLength(Magnitude(x), |ExponentText(t.exponent)|, |t.integer + t.fraction|);
  }

  // ----- the computation

  /** An arbitrary-size integer as a sign and a canonical digit string. */
  datatype Signed = Signed(sign: int, digits: string)

  function SignedOf(i: int): Signed {
    if i == 0 then Signed(0, "0") else if i < 0 then Signed(-1, Text(-i)) else Signed(1, Text(i))
  }

  /** scripts/telemetry_canonical_record.py `_signed_decimal`. */
  function SignedDecimal(text: string): Signed {
    SignedMagnitude(text != "" && text[0] == '-',
                    if text != "" && text[0] in {'-', '+'} then text[1..] else text)
  }

  function SignedMagnitude(negative: bool, unsigned: string): Signed {
    var digits := StripLeft(unsigned);
    if digits == "" then Signed(0, "0") else Signed(if negative then -1 else 1, digits)
  }

  lemma SignedMagnitudeIsInt(negative: bool, s: string)
    requires AllDigits(s)
    ensures SignedMagnitude(negative, s) == SignedOf(if negative then -(Val(s) as int) else Val(s))
  {
    StripLeftFacts(s);
    if Val(s) != 0 {
      StripLeftCanonical(s);
    }
  }

  lemma SignedDecimalIsInt(e: Exponent)
    requires ValidExponent(e) && e.Exponent?
    ensures SignedDecimal(e.sign + e.digits) == SignedOf(ExponentValue(e))
  {
    var text := e.sign + e.digits;
    assert IsDigit(e.digits[0]);
    assert text[|e.sign|..] == e.digits;
    assert text[0] == if e.sign == "" then e.digits[0] else e.sign[0];
    SignedMagnitudeIsInt(e.sign == "-", e.digits);
  }

  /** scripts/telemetry_canonical_record.py `_signed_add_small`: exact integer addition. */
  method SignedAddSmall(value: Signed, delta: int, ghost i: int) returns (sum: Signed)
    requires value == SignedOf(i)
    ensures sum == SignedOf(i + delta)
  {
    hide Text, Val, UnsignedCompare;
    if delta == 0 {
      return value;
    }
    var deltaSign := if delta < 0 then -1 else 1;
    var magnitude := Magnitude(delta);
    var deltaDigits := Text(magnitude);
    if value.sign == 0 {
      return Signed(deltaSign, deltaDigits);
    }
    TextCanonical(magnitude);
    TextCanonical(Magnitude(i));
    if value.sign == deltaSign {
      var digits := UnsignedAdd(value.digits, deltaDigits);
      CanonicalIsText(digits);
      return Signed(value.sign, digits);
    }
    CompareIsOrder(value.digits, deltaDigits);
    var comparison := UnsignedCompare(value.digits, deltaDigits);
    if comparison == 0 {
      return Signed(0, "0");
    }
    if comparison > 0 {
      var digits := UnsignedSubtract(value.digits, deltaDigits);
      return Signed(value.sign, digits);
    }
    var digits := UnsignedSubtract(deltaDigits, value.digits);
    return Signed(deltaSign, digits);
  }

  /** scripts/telemetry_canonical_record.py `_signed_text`. */
  function SignedText(value: Signed): string {
    (if value.sign < 0 then "-" else "") + (if value.sign == 0 then "0" else value.digits)
  }

  /** scripts/telemetry_canonical_record.py `_signed_bounded_int`. */
  function SignedBoundedInt(value: Signed, bound: nat): Option<int>
    requires AllDigits(value.digits)
  {
    if UnsignedCompare(value.digits, Text(bound)) > 0 then None
    else Some(if value.sign < 0 then -(Val(value.digits) as int) else Val(value.digits))
  }

  lemma SignedBoundedIntIsInt(i: int, bound: nat)
    ensures AllDigits(SignedOf(i).digits)
    ensures SignedBoundedInt(SignedOf(i), bound) == if Magnitude(i) <= bound then Some(i) else None
  {
    TextCanonical(Magnitude(i));
    TextCanonical(bound);
    assert Text(0) == "0";
    CompareIsOrder(SignedOf(i).digits, Text(bound));
  }

  /** Python's `find` of one character. */
  function Find(s: string, c: char): (at: int)
    ensures -1 <= at < |s|
    ensures at >= 0 ==> s[at] == c && c !in s[..at]
    ensures at < 0 ==> c !in s
  {
    if s == "" then -1
    else if s[0] == c then 0
    else
      var at := Find(s[1..], c);
      assert s == [s[0]] + s[1..];
      assert at >= 0 ==> s[..at + 1] == [s[0]] + s[1..][..at];
      if at < 0 then -1 else at + 1
  }

  lemma {:induction false} FindFirst(prefix: string, c: char, rest: string)
    requires c !in prefix
    ensures Find(prefix + [c] + rest, c) == |prefix|
  {
    var s := prefix + [c] + rest;
    if prefix != "" {
      assert prefix[0] != c && s[0] == prefix[0];
      assert s[1..] == prefix[1..] + [c] + rest;
      FindFirst(prefix[1..], c, rest);
    }
  }

  predicate Lacks(s: string, c: char) {
    c !in s
  }

  lemma DigitsLack(s: string, c: char)
    requires AllDigits(s) && !IsDigit(c)
    ensures Lacks(s, c)
  {
  }

  lemma LacksAppend(a: string, b: string, c: char)
    requires Lacks(a, c) && Lacks(b, c)
    ensures Lacks(a + b, c)
  {
  }

  function LastFound(s: string): int {
    var lower, upper := Find(s, 'e'), Find(s, 'E');
    if lower > upper then lower else upper
  }

  lemma FindLetter(mantissa: string, letter: char, after: string)
    requires letter in {'e', 'E'}
    requires forall c | c in {'e', 'E'} :: Lacks(mantissa, c) && Lacks(after, c)
    ensures LastFound(mantissa + [letter] + after) == |mantissa|
  {
    assert letter !in mantissa by { assert Lacks(mantissa, letter); }
    FindFirst(mantissa, letter, after);
    var other := if letter == 'e' then 'E' else 'e';
    LacksAppend(mantissa, [letter], other);
    LacksAppend(mantissa + [letter], after, other);
  }

  /** Splitting at the exponent letter finds the mantissa and the written exponent. */
  lemma SplitExponent(t: Token)
    requires ValidToken(t)
    ensures var s, mantissa := UnsignedText(t), t.integer + FractionText(t.fraction);
            if t.exponent.NoExponent? then LastFound(s) < 0 && s == mantissa
            else && LastFound(s) == |mantissa| && s[..|mantissa|] == mantissa
                 && s[|mantissa| + 1..] == t.exponent.sign + t.exponent.digits
  {
    hide Find, AllDigits;
    var s, mantissa := UnsignedText(t), t.integer + FractionText(t.fraction);
    forall c | c in {'e', 'E'} ensures Lacks(mantissa, c) {
      MantissaLacks(t, c);
    }
    if t.exponent.Exponent? {
      var after := t.exponent.sign + t.exponent.digits;
      forall c | c in {'e', 'E'} ensures Lacks(after, c) {
        DigitsLack(t.exponent.digits, c);
        LacksAppend(t.exponent.sign, t.exponent.digits, c);
      }
      JoinExponent(t);
      FindLetter(mantissa, t.exponent.letter, after);
    } else {
      AppendNothing(FractionText(t.fraction));
      assert Lacks(s, 'e') && Lacks(s, 'E');
    }
  }

  lemma MantissaLacks(t: Token, c: char)
    requires ValidToken(t) && c in {'e', 'E'}
    ensures Lacks(t.integer + FractionText(t.fraction), c)
  {
    DigitsLack(t.integer, c);
    DigitsLack(t.fraction, c);
    LacksAppend(".", t.fraction, c);
    LacksAppend(t.integer, FractionText(t.fraction), c);
  }

  lemma JoinExponent(t: Token)
    requires t.exponent.Exponent?
    ensures var mantissa, after := t.integer + FractionText(t.fraction), t.exponent.sign + t.exponent.digits;
            var s := UnsignedText(t);
            && s == mantissa + [t.exponent.letter] + after
            && s[..|mantissa|] == mantissa && s[|mantissa| + 1..] == after
  {
  }

  /** Splitting at the point finds the integer part and the fraction. */
  lemma SplitFraction(t: Token)
    requires ValidToken(t)
    ensures var s := t.integer + FractionText(t.fraction);
            var at := Find(s, '.');
            if t.fraction == "" then at < 0 && s == t.integer
            else at == |t.integer| && s[..at] == t.integer && s[at + 1..] == t.fraction
  {
    var s := t.integer + FractionText(t.fraction);
    DigitsLack(t.integer, '.');
    if t.fraction != "" {
      assert s == t.integer + ['.'] + t.fraction;
      FindFirst(t.integer, '.', t.fraction);
    } else {
      assert s == t.integer;
    }
  }

  lemma ZeroSpelling(d: Decimal)
    requires Reduced(d).mantissa == 0
    ensures Spelling(d) == "0" && |UnsignedText(CanonicalToken(d))| == 1
  {
  }

  /** `normalize_exact_decimal`, step by step on digit strings. */
  method NormalizeExactDecimal(text: string) returns (r: Result<string, NumberError>)
    ensures r == Normalized(text)
  {
    hide Spelling, Val, Scan, UnsignedText, TokenText, SignedDecimal, Utf8Length, ExponentValue;
    if Utf8Length(text) > MAX_CANONICAL_VALUE_BYTES {
      return Err(TooLong);
    }
    var found := Scan(text);
    if found.None? {
      return Err(NotJsonNumber);
    }
    ScanSound(text);
    var negative := text != "" && text[0] == '-';
    var unsigned := if negative then text[1..] else text;
    LeadingSign(found.value, text);
    var integer, fraction, exponentText := SplitNumber(unsigned, found.value);
    ghost var e := ExponentValue(found.value.exponent);
    NormalizedOfToken(text, found.value, integer + fraction, e - |fraction|);
    var out := SpellDigits(negative, integer + fraction, SignedDecimal(exponentText), |fraction|, e);
    return Ok(out);
  }

  lemma NormalizedOfToken(text: string, t: Token, all: string, exponent: int)
    requires Utf8Length(text) <= MAX_CANONICAL_VALUE_BYTES && Scan(text) == Some(t) && ValidToken(t)
    requires all == t.integer + t.fraction && exponent == ExponentValue(t.exponent) - |t.fraction|
    ensures Normalized(text) == Ok(Spelling(Decimal(t.negative, Val(all), exponent)))
  {
    hide Spelling, Val, Utf8Length, Scan, ExponentValue;
  }

  lemma LeadingSign(t: Token, text: string)
    requires ValidToken(t) && text == TokenText(t)
    ensures text != "" && (text[0] == '-' <==> t.negative)
    ensures (if t.negative then text[1..] else text) == UnsignedText(t)
  {
    SignedSplit(t.negative, UnsignedText(t));
    assert UnsignedText(t)[0] == t.integer[0] && IsDigit(t.integer[0]);
  }

  lemma ZeroExponent()
    ensures SignedDecimal("0") == SignedOf(0)
  {
    assert "0"[1..] == "" && StripLeft("") == "";
  }

  /** The string splits: exponent letter first, then the point. */
  method SplitNumber(unsigned: string, ghost t: Token) returns (integer: string, fraction: string, exponentText: string)
    requires ValidToken(t) && unsigned == UnsignedText(t)
    ensures integer == t.integer && fraction == t.fraction
    ensures SignedDecimal(exponentText) == SignedOf(ExponentValue(t.exponent))
  {
    hide SignedDecimal, UnsignedText, ExponentText, FractionText;
    SplitExponent(t);
    SplitFraction(t);
    ZeroExponent();
    var text := unsigned;
    exponentText := "0";
    var exponentAt := LastFound(text);
    if exponentAt >= 0 {
      exponentText := text[exponentAt + 1..];
      text := text[..exponentAt];
      SignedDecimalIsInt(t.exponent);
    }
    var pointAt := Find(text, '.');
    integer := if pointAt >= 0 then text[..pointAt] else text;
    fraction := if pointAt >= 0 then text[pointAt + 1..] else "";
  }

  /** From the digits and the written exponent to the reduced mantissa. */
  method SpellDigits(negative: bool, all: string, written: Signed, fractionLength: nat, ghost e: int)
    returns (out: string)
    requires AllDigits(all) && written == SignedOf(e)
    ensures out == Spelling(Decimal(negative, Val(all), e - fractionLength))
  {
    var digits := StripLeft(all);
    StripLeftFacts(all);
    if digits == "" {
      ZeroSpelling(Decimal(negative, Val(all), e - fractionLength));
      return "0";
    }
    var exponent := SignedAddSmall(written, 0 - fractionLength, e);
    var trimmed := StripRight(digits);
    StripRightReduces(negative, digits, e - fractionLength);
    if trimmed == "" {
      // The digits start with a nonzero one, so stripping zeros never empties them.
      assert false;
    }
    exponent := SignedAddSmall(exponent, |digits| - |trimmed|, e - fractionLength);
    ghost var reduced := e - fractionLength + (|digits| - |trimmed|);
    assert Reduced(Decimal(negative, Val(all), e - fractionLength)) == Decimal(negative, Val(trimmed), reduced);
    out := ChooseSpelling(negative, trimmed, exponent, reduced);
  }

  /** The choice between the two forms. */
  method ChooseSpelling(negative: bool, digits: string, exponent: Signed, ghost e: int) returns (out: string)
    requires Canonical(digits) && Val(digits) > 0 && exponent == SignedOf(e)
    ensures out == TokenText(TokenOf(Decimal(negative, Val(digits), e)))
  {
    hide PlainToken, ScientificToken, UnsignedText, PlainText, Val, Text, SignedBoundedInt, TokenOf;
    var scientificExponent := SignedAddSmall(exponent, |digits| - 1, e);
    var scientific := digits[..1];
    if |digits| > 1 {
      scientific := scientific + "." + digits[1..];
    }
    if scientificExponent.sign != 0 {
      scientific := scientific + "e" + SignedText(scientificExponent);
    }
    ScientificText(negative, digits, e + |digits| - 1, scientific);

    var pointValue := SignedAddSmall(exponent, |digits|, e);
    SignedBoundedIntIsInt(e + |digits|, MAX_CANONICAL_VALUE_BYTES);
    var point := SignedBoundedInt(pointValue, MAX_CANONICAL_VALUE_BYTES);
    var plain := PlainText(digits, point);
    PlainTextIsPlain(negative, digits, e + |digits|);
    var result := if plain.Some? && |plain.value| <= |scientific| then plain.value else scientific;
    out := if negative then "-" + result else result;
    TokenOfDigits(negative, digits, e);
    SignJoin(negative, result);
  }

  lemma SignJoin(negative: bool, s: string)
    ensures SignText(negative) + s == if negative then "-" + s else s
  {
  }

  lemma TokenOfDigits(negative: bool, digits: string, e: int)
    requires Canonical(digits) && Val(digits) > 0
    ensures TokenOf(Decimal(negative, Val(digits), e))
         == Shorter(PlainToken(negative, digits, e + |digits|), ScientificToken(negative, digits, e + |digits| - 1))
  {
    hide Shorter, PlainToken, ScientificToken, Val, Text;
    CanonicalIsText(digits);
  }

  /** The three plain layouts. */
  function PlainText(digits: string, point: Option<int>): Option<string> {
    if point.None? then None
    else if point.value <= 0 then
      if 2 - point.value + |digits| <= MAX_CANONICAL_VALUE_BYTES
      then Some("0." + Zeros(-point.value) + digits) else None
    else if point.value >= |digits| then
      if point.value <= MAX_CANONICAL_VALUE_BYTES then Some(digits + Zeros(point.value - |digits|)) else None
    else if |digits| + 1 <= MAX_CANONICAL_VALUE_BYTES
    then Some(digits[..point.value] + "." + digits[point.value..]) else None
  }

  lemma ScientificText(negative: bool, digits: string, x: int, text: string)
    requires digits != ""
    requires text == digits[..1] + (if |digits| > 1 then "." + digits[1..] else "")
                   + (if SignedOf(x).sign != 0 then "e" + SignedText(SignedOf(x)) else "")
    ensures text == UnsignedText(ScientificToken(negative, digits, x))
  {
    var t := ScientificToken(negative, digits, x);
    ExponentTextIs(x);
    assert FractionText(t.fraction) == if |digits| > 1 then "." + digits[1..] else "";
    hide ExponentText, SignedText, SignedOf, ExponentPart, FractionText;
    Regroup(digits[..1], FractionText(t.fraction), ExponentText(t.exponent));
  }

  lemma ExponentTextIs(x: int)
    ensures ExponentText(ExponentPart(x)) == if SignedOf(x).sign != 0 then "e" + SignedText(SignedOf(x)) else ""
  {
    hide Text;
  }

  lemma Regroup(a: string, b: string, c: string)
    ensures a + b + c == a + (b + c)
  {
  }

  /** Ignoring points beyond the bound loses no plain form. */
  lemma PlainTextIsPlain(negative: bool, digits: string, point: int)
    requires digits != ""
    ensures var bounded := if Magnitude(point) <= MAX_CANONICAL_VALUE_BYTES then Some(point) else None;
            var text, token := PlainText(digits, bounded), PlainToken(negative, digits, point);
            (text.Some? <==> token.Some?) && (text.Some? ==> text.value == UnsignedText(token.value))
  {
    var token := PlainToken(negative, digits, point);
    if token.Some? {
      var t := token.value;
      assert FractionText(t.fraction) + ExponentText(t.exponent) == FractionText(t.fraction);
      if point <= 0 {
        assert "0." + Zeros(-point) + digits == "0" + ("." + (Zeros(-point) + digits));
      } else if point >= |digits| {
        assert t.integer + "" == t.integer;
      } else {
        assert digits[..point] + "." + digits[point..] == digits[..point] + ("." + digits[point..]);
      }
    }
  }
}
