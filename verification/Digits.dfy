/**
 Decimal digit strings of any length, most significant digit first, and the carry and borrow loops
 of scripts/telemetry_canonical_record.py proved against integer arithmetic.
 */
module Digits {

  predicate IsDigit(c: char) {
    '0' <= c <= '9'
  }

  predicate AllDigits(s: string) {
    forall i | 0 <= i < |s| :: IsDigit(s[i])
  }

  function DigitOf(c: char): nat
    requires IsDigit(c)
  {
    c as int - '0' as int
  }

  function CharOf(d: nat): (c: char)
    requires d < 10
    ensures IsDigit(c) && DigitOf(c) == d
  {
    ('0' as int + d) as char
  }

  function Pow10(n: nat): (p: nat)
    ensures p > 0
  {
    if n == 0 then 1 else 10 * Pow10(n - 1)
  }

  /** The natural number a digit string denotes; the empty string denotes 0. */
  function Val(s: string): nat
    requires AllDigits(s)
  {
    if s == "" then 0 else 10 * Val(s[..|s| - 1]) + DigitOf(s[|s| - 1])
  }

  /** A spelling without redundant leading zeros. */
  predicate Canonical(s: string) {
    s != "" && AllDigits(s) && (|s| > 1 ==> s[0] != '0')
  }

  /** Python's `str` of a natural number. */
  function Text(n: nat): (s: string)
    ensures s != ""
  {
    if n < 10 then [CharOf(n)] else Text(n / 10) + [CharOf(n % 10)]
  }

  /** Python's `str` of an integer. */
  function IntText(i: int): string {
    if i < 0 then "-" + Text(-i) else Text(i)
  }

  function Zeros(n: nat): (s: string)
    ensures |s| == n && AllDigits(s)
    ensures forall i | 0 <= i < n :: s[i] == '0'
  {
    if n == 0 then "" else "0" + Zeros(n - 1)
  }

  /** Python's `lstrip("0")`. */
  function StripLeft(s: string): string {
    if s != "" && s[0] == '0' then StripLeft(s[1..]) else s
  }

  /** Python's `rstrip("0")`. */
  function StripRight(s: string): string {
    if s != "" && s[|s| - 1] == '0' then StripRight(s[..|s| - 1]) else s
  }

  // ----- powers of ten

  lemma {:induction false} Pow10Add(a: nat, b: nat)
    ensures Pow10(a + b) == Pow10(a) * Pow10(b)
  {
    if a != 0 {
      Pow10Add(a - 1, b);
      assert Pow10(a + b) == 10 * (Pow10(a - 1) * Pow10(b));
    }
  }

  lemma {:induction false} Pow10Monotone(a: nat, b: nat)
    requires a <= b
    ensures Pow10(a) <= Pow10(b)
    ensures a < b ==> 10 * Pow10(a) <= Pow10(b)
    decreases b
  {
    if a < b {
      Pow10Monotone(a, b - 1);
    }
  }

  // ----- values of digit strings

  lemma {:induction false} ValAppend(a: string, b: string)
    requires AllDigits(a) && AllDigits(b)
    ensures AllDigits(a + b)
    ensures Val(a + b) == Val(a) * Pow10(|b|) + Val(b)
    decreases |b|
  {
    if b == "" {
      assert a + b == a;
    } else {
      var init := b[..|b| - 1];
      ValAppend(a, init);
      assert (a + b)[..|a + b| - 1] == a + init;
      assert 10 * (Val(a) * Pow10(|init|)) == Val(a) * Pow10(|b|);
    }
  }

  lemma ValSingle(c: char)
    requires IsDigit(c)
    ensures Val([c]) == DigitOf(c)
  {
    assert [c][..0] == "";
  }

  lemma ValCons(c: char, s: string)
    requires IsDigit(c) && AllDigits(s)
    ensures AllDigits([c] + s)
    ensures Val([c] + s) == DigitOf(c) * Pow10(|s|) + Val(s)
  {
    ValSingle(c);
    var lead := Val([c]);
    ValAppend([c], s);
    assert Val([c] + s) == lead * Pow10(|s|) + Val(s);
  }

  lemma {:induction false} ValBound(s: string)
    requires AllDigits(s)
    ensures Val(s) < Pow10(|s|)
  {
    if s != "" {
      ValBound(s[..|s| - 1]);
    }
  }

  lemma {:induction false} ValLeading(s: string)
    requires AllDigits(s) && s != "" && s[0] != '0'
    ensures Val(s) >= Pow10(|s| - 1)
  {
    if |s| > 1 {
      ValLeading(s[..|s| - 1]);
    } else {
      assert s[..0] == "";
    }
  }

  lemma FullLength(s: string)
    requires AllDigits(s) && s != "" && Val(s) >= Pow10(|s| - 1)
    ensures s[0] != '0'
  {
    if s[0] == '0' {
      assert s == ['0'] + s[1..];
      ValCons('0', s[1..]);
      ValBound(s[1..]);
      assert false;
    }
  }

  lemma {:induction false} ValZeros(n: nat)
    ensures Val(Zeros(n)) == 0
  {
    if n > 0 {
      ValZeros(n - 1);
      assert Zeros(n)[1..] == Zeros(n - 1);
      DropZero(Zeros(n));
    }
  }

  lemma {:induction false} ValZero(s: string)
    requires AllDigits(s) && Val(s) == 0
    ensures s == Zeros(|s|)
  {
    if s != "" {
      ValZero(s[..|s| - 1]);
    }
  }

  lemma {:induction false} ValInjective(a: string, b: string)
    requires AllDigits(a) && AllDigits(b) && |a| == |b| && Val(a) == Val(b)
    ensures a == b
  {
    if a != "" {
      ValInjective(a[..|a| - 1], b[..|b| - 1]);
      assert a == a[..|a| - 1] + [a[|a| - 1]];
      assert b == b[..|b| - 1] + [b[|b| - 1]];
    }
  }

  lemma CanonicalBounds(s: string)
    requires Canonical(s)
    ensures Val(s) < Pow10(|s|)
    ensures Val(s) == 0 <==> s == "0"
    ensures Val(s) > 0 ==> Pow10(|s| - 1) <= Val(s)
  {
    ValBound(s);
    if s[0] != '0' {
      ValLeading(s);
    } else {
      assert s == "0";
    }
  }

  /** Canonical spellings are longer exactly when the number needs more digits. */
  lemma CanonicalLength(a: string, b: string)
    requires Canonical(a) && Canonical(b) && |a| < |b|
    ensures Val(a) < Val(b)
  {
    CanonicalBounds(a);
    CanonicalBounds(b);
    Pow10Monotone(|a|, |b| - 1);
  }

  lemma CanonicalInjective(a: string, b: string)
    requires Canonical(a) && Canonical(b) && Val(a) == Val(b)
    ensures a == b
  {
    if |a| < |b| {
      CanonicalLength(a, b);
    } else if |b| < |a| {
      CanonicalLength(b, a);
    } else {
      ValInjective(a, b);
    }
  }

  lemma {:induction false} TextCanonical(n: nat)
    ensures Canonical(Text(n)) && Val(Text(n)) == n
  {
    if n < 10 {
      assert Text(n)[..0] == "";
    } else {
      TextCanonical(n / 10);
      assert Text(n)[..|Text(n)| - 1] == Text(n / 10);
      CanonicalBounds(Text(n / 10));
    }
  }

  /** `str` is the only canonical spelling. */
  lemma CanonicalIsText(s: string)
    requires Canonical(s)
    ensures s == Text(Val(s))
  {
    TextCanonical(Val(s));
    CanonicalInjective(s, Text(Val(s)));
  }

  lemma TextInjective(a: nat, b: nat)
    requires Text(a) == Text(b)
    ensures a == b
  {
    TextCanonical(a);
    TextCanonical(b);
  }

  /** A number below `10^k` has at most `k` digits. */
  lemma TextLength(n: nat, k: nat)
    requires 0 < k && n < Pow10(k)
    ensures |Text(n)| <= k
  {
    TextCanonical(n);
    CanonicalBounds(Text(n));
    if |Text(n)| > k {
      Pow10Monotone(k, |Text(n)| - 1);
    }
  }

  lemma DropZero(s: string)
    requires AllDigits(s) && s != "" && s[0] == '0'
    ensures Val(s) == Val(s[1..])
  {
    assert s == ['0'] + s[1..];
    ValCons('0', s[1..]);
  }

  lemma {:induction false} StripLeftFacts(s: string)
    requires AllDigits(s)
    ensures AllDigits(StripLeft(s)) && Val(StripLeft(s)) == Val(s)
    ensures |StripLeft(s)| <= |s|
    ensures StripLeft(s) != "" ==> StripLeft(s)[0] != '0'
    ensures StripLeft(s) == "" <==> Val(s) == 0
  {
    if s != "" && s[0] == '0' {
      DropZero(s);
      StripLeftFacts(s[1..]);
    } else if s != "" {
      ValLeading(s);
    }
  }

  /** Stripping zeros yields the canonical spelling, except that zero is stripped to nothing. */
  lemma StripLeftCanonical(s: string)
    requires AllDigits(s) && Val(s) != 0
    ensures StripLeft(s) == Text(Val(s))
  {
    StripLeftFacts(s);
    CanonicalIsText(StripLeft(s));
  }

  // ----- comparison

  /** Python's order of equally long strings. */
  predicate TextLess(a: string, b: string)
    requires |a| == |b|
  {
    a != "" && (a[0] < b[0] || (a[0] == b[0] && TextLess(a[1..], b[1..])))
  }

  /** scripts/telemetry_canonical_record.py `_unsigned_compare`. */
  function UnsignedCompare(left: string, right: string): int {
    if |left| != |right| then (if |left| < |right| then -1 else 1)
    else (if TextLess(right, left) then 1 else 0) - (if TextLess(left, right) then 1 else 0)
  }

  lemma {:induction false} TextLessIsLess(a: string, b: string)
    requires AllDigits(a) && AllDigits(b) && |a| == |b|
    ensures TextLess(a, b) <==> Val(a) < Val(b)
  {
    if a != "" {
      var a', b' := a[1..], b[1..];
      TextLessIsLess(a', b');
      assert a == [a[0]] + a' && b == [b[0]] + b';
      ValCons(a[0], a');
      ValCons(b[0], b');
      ValBound(a');
      ValBound(b');
      LeadingDecides(DigitOf(a[0]), DigitOf(b[0]), Pow10(|a'|), Val(a'), Val(b'));
    }
  }

  lemma LeadingDecides(a: nat, b: nat, p: nat, x: nat, y: nat)
    requires x < p && y < p
    ensures a * p + x < b * p + y <==> a < b || (a == b && x < y)
  {
    if a < b {
      assert (a + 1) * p <= b * p;
    } else if b < a {
      assert (b + 1) * p <= a * p;
    }
  }

  /** On canonical spellings the comparison is that of the numbers. */
  lemma CompareIsOrder(left: string, right: string)
    requires Canonical(left) && Canonical(right)
    ensures UnsignedCompare(left, right) ==
            if Val(left) < Val(right) then -1 else if Val(left) > Val(right) then 1 else 0
  {
    if |left| < |right| {
      CanonicalLength(left, right);
    } else if |right| < |left| {
      CanonicalLength(right, left);
    } else {
      TextLessIsLess(left, right);
      TextLessIsLess(right, left);
    }
  }

  // ----- the carry and borrow loops

  /** `"".join(reversed(s))`. */
  function Reversed(s: string): (r: string)
    ensures |r| == |s|
    ensures forall i | 0 <= i < |s| :: r[i] == s[|s| - 1 - i]
  {
    seq(|s|, i requires 0 <= i < |s| => s[|s| - 1 - i])
  }

  /** The number whose low digits are `result` (least significant first) below `rest`. */
  ghost function Partial(result: string, rest: int): int
    requires AllDigits(result)
  {
    if result == "" then rest
    else Partial(result[..|result| - 1], DigitOf(result[|result| - 1]) + 10 * rest)
  }

  lemma PushDigit(result: string, d: nat, rest: int)
    requires AllDigits(result) && d < 10
    ensures AllDigits(result + [CharOf(d)])
    ensures Partial(result + [CharOf(d)], rest) == Partial(result, d + 10 * rest)
  {
    assert (result + [CharOf(d)])[..|result|] == result;
  }

  /** Once the rest is a digit string too, the number is the one spelled by both together. */
  lemma {:induction false} PartialValue(result: string, head: string)
    requires AllDigits(result) && AllDigits(head)
    ensures AllDigits(head + Reversed(result))
    ensures Partial(result, Val(head)) == Val(head + Reversed(result))
  {
    if result == "" {
      assert head + Reversed(result) == head;
    } else {
      var init, d := result[..|result| - 1], result[|result| - 1];
      assert (head + [d])[..|head|] == head;
      PartialValue(init, head + [d]);
      assert head + [d] + Reversed(init) == head + Reversed(result);
    }
  }

  lemma PartialDone(result: string)
    requires AllDigits(result)
    ensures AllDigits(Reversed(result)) && Partial(result, 0) == Val(Reversed(result))
  {
    PartialValue(result, "");
    assert "" + Reversed(result) == Reversed(result);
  }

  /** A borrow that is left over makes the number negative. */
  lemma {:induction false} PartialNegative(result: string, rest: int)
    requires AllDigits(result) && rest < 0
    ensures Partial(result, rest) < 0
  {
    if result != "" {
      PartialNegative(result[..|result| - 1], DigitOf(result[|result| - 1]) + 10 * rest);
    }
  }

  /** The digit with weight `10^k`, 0 beyond the end. */
  function Low(s: string, k: nat): (d: nat)
    requires AllDigits(s)
    ensures d < 10
  {
    if k < |s| then DigitOf(s[|s| - 1 - k]) else 0
  }

  /** The value of what is left of `s` once its `k` low digits are gone. */
  function Rest(s: string, k: nat): nat
    requires AllDigits(s)
  {
    if k <= |s| then Val(s[..|s| - k]) else 0
  }

  lemma RestStep(s: string, k: nat)
    requires AllDigits(s)
    ensures Rest(s, k) == 10 * Rest(s, k + 1) + Low(s, k)
  {
    if k < |s| {
      assert s[..|s| - k][..|s| - k - 1] == s[..|s| - k - 1];
    }
  }

  lemma RestEnds(s: string, k: nat)
    requires AllDigits(s)
    ensures Rest(s, 0) == Val(s)
    ensures k >= |s| ==> Rest(s, k) == 0
  {
    assert s[..|s|] == s;
  }

  lemma CarryStep(left: string, right: string, result: string, carry: nat, total: nat)
    requires AllDigits(left) && AllDigits(right) && AllDigits(result)
    requires total == carry + Low(left, |result|) + Low(right, |result|)
    ensures var k, next := |result|, result + [CharOf(total % 10)];
            AllDigits(next) && Partial(next, total / 10 + Rest(left, k + 1) + Rest(right, k + 1))
                            == Partial(result, carry + Rest(left, k) + Rest(right, k))
  {
    var k := |result|;
    RestStep(left, k);
    RestStep(right, k);
    PushDigit(result, total % 10, total / 10 + Rest(left, k + 1) + Rest(right, k + 1));
  }

  lemma BorrowStep(left: string, right: string, result: string, before: nat, after: nat, digit: nat)
    requires AllDigits(left) && AllDigits(right) && AllDigits(result) && digit < 10
    requires digit == Low(left, |result|) - before - Low(right, |result|) + 10 * after
    ensures var k, next := |result|, result + [CharOf(digit)];
            AllDigits(next) && Partial(next, Rest(left, k + 1) - after - Rest(right, k + 1))
                            == Partial(result, Rest(left, k) - before - Rest(right, k))
  {
    var k := |result|;
    RestStep(left, k);
    RestStep(right, k);
    PushDigit(result, digit, Rest(left, k + 1) - after - Rest(right, k + 1));
  }

  /** scripts/telemetry_canonical_record.py `_unsigned_add`: exact at any length. */
  method UnsignedAdd(left: string, right: string) returns (sum: string)
    requires AllDigits(left) && AllDigits(right)
    ensures AllDigits(sum) && Val(sum) == Val(left) + Val(right)
    ensures Canonical(left) && Canonical(right) ==> Canonical(sum)
  {
    var carry: nat := 0;
    var result: string := "";
    var leftAt := |left| - 1;
    var rightAt := |right| - 1;
    RestEnds(left, 0);
    RestEnds(right, 0);
    while leftAt >= 0 || rightAt >= 0 || carry != 0
      invariant carry <= 1 && AllDigits(result)
      invariant leftAt == if |result| < |left| then |left| - 1 - |result| else -1
      invariant rightAt == if |result| < |right| then |right| - 1 - |result| else -1
      invariant Partial(result, carry + Rest(left, |result|) + Rest(right, |result|)) == Val(left) + Val(right)
      invariant |result| <= |left| || |result| <= |right| || (carry == 0 && result[|result| - 1] == '1')
      decreases leftAt + rightAt + carry + 2
    {
      var total := carry;
      if leftAt >= 0 {
        total := total + DigitOf(left[leftAt]);
        leftAt := leftAt - 1;
      }
      if rightAt >= 0 {
        total := total + DigitOf(right[rightAt]);
        rightAt := rightAt - 1;
      }
      CarryStep(left, right, result, carry, total);
      result := result + [CharOf(total % 10)];
      carry := total / 10;
    }
    sum := Reversed(result);
    AddFinish(left, right, result, sum);
    if Canonical(left) && Canonical(right) {
      CanonicalSum(left, right, sum);
    }
  }

  lemma AddFinish(left: string, right: string, result: string, sum: string)
    requires AllDigits(left) && AllDigits(right) && AllDigits(result)
    requires |left| <= |result| && |right| <= |result|
    requires Partial(result, Rest(left, |result|) + Rest(right, |result|)) == Val(left) + Val(right)
    requires sum == Reversed(result)
    ensures AllDigits(sum) && Val(sum) == Val(left) + Val(right)
  {
    RestEnds(left, |result|);
    RestEnds(right, |result|);
    var rest := Rest(left, |result|) + Rest(right, |result|);
    assert rest == 0;
    PartialDone(result);
  }

  lemma NoShorter(part: string, sum: string)
    requires AllDigits(part) && AllDigits(sum) && |part| == |sum| > 0
    requires part[0] != '0' && Val(part) <= Val(sum)
    ensures sum[0] != '0'
  {
    ValLeading(part);
    FullLength(sum);
  }

  lemma CanonicalSum(left: string, right: string, sum: string)
    requires Canonical(left) && Canonical(right) && AllDigits(sum)
    requires |left| <= |sum| && |right| <= |sum|
    requires |sum| == |left| || |sum| == |right| || sum[0] == '1'
    requires Val(sum) == Val(left) + Val(right)
    ensures Canonical(sum)
  {
    if |sum| > 1 && sum[0] != '1' {
      if |sum| == |left| {
        NoShorter(left, sum);
      } else {
        NoShorter(right, sum);
      }
    }
  }

  /** scripts/telemetry_canonical_record.py `_unsigned_subtract`, on what its docstring admits. */
  method UnsignedSubtract(left: string, right: string) returns (difference: string)
    requires Canonical(left) && Canonical(right) && Val(left) >= Val(right)
    ensures difference == Text(Val(left) - Val(right))
  {
    if |left| < |right| {
      CanonicalLength(left, right);
    }
    var borrow: nat := 0;
    var result: string := "";
    var rightAt := |right| - 1;
    RestEnds(left, 0);
    RestEnds(right, 0);
    for leftAt := |left| downto 0
      invariant borrow <= 1 && |result| == |left| - leftAt && AllDigits(result)
      invariant rightAt == if |result| < |right| then |right| - 1 - |result| else -1
      invariant Partial(result, Rest(left, |result|) - borrow - Rest(right, |result|)) == Val(left) - Val(right)
    {
      ghost var before := borrow;
      var digit := DigitOf(left[leftAt]) - borrow;
      var subtract := if rightAt >= 0 then DigitOf(right[rightAt]) else 0;
      // Python decrements without the test; every negative index means the same there.
      rightAt := if rightAt >= 0 then rightAt - 1 else -1;
      if digit < subtract {
        digit := digit + 10;
        borrow := 1;
      } else {
        borrow := 0;
      }
      BorrowStep(left, right, result, before, borrow, digit - subtract);
      result := result + [CharOf(digit - subtract)];
    }
    RestEnds(left, |result|);
    RestEnds(right, |result|);
    SubtractFinish(result, borrow, Val(left) - Val(right));
    var normalized := StripLeft(Reversed(result));
    difference := if normalized == "" then "0" else normalized;
  }

  lemma SubtractFinish(result: string, borrow: nat, difference: nat)
    requires AllDigits(result) && borrow <= 1 && Partial(result, 0 - borrow) == difference
    ensures var normalized := StripLeft(Reversed(result));
            (if normalized == "" then "0" else normalized) == Text(difference)
  {
    var reversed := Reversed(result);
    if borrow > 0 {
      PartialNegative(result, 0 - borrow);
    }
    PartialDone(result);
    StripLeftFacts(reversed);
    if StripLeft(reversed) != "" {
      StripLeftCanonical(reversed);
    }
  }
}
