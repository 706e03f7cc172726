/** Parsing of decimal literals: parse_numeric (Datum.cpp). */
module NumericParsing {
  import opened Basics
  import opened Decimals

  // `Throws` is any C++ exception: a malformed number or an overflow.
  datatype Parse = Parsed(value: int) | Throws

  predicate IsDigit(c: char) { '0' <= c <= '9' }

  predicate AllDigits(s: string) { forall i :: 0 <= i < |s| ==> IsDigit(s[i]) }

  function Digits(s: string): (n: nat)
    requires AllDigits(s)
  {
    if s == "" then 0 else 10 * Digits(s[..|s| - 1]) + (s[|s| - 1] as int - '0' as int)
  }

  predicate IsSpace(c: char) {
    c == ' ' || '\t' <= c <= '\r'
  }

  function SkipSpaces(s: string): (t: string)
    ensures |t| <= |s| && t == s[|s| - |t|..]
  {
    if s != "" && IsSpace(s[0]) then SkipSpaces(s[1..]) else s
  }

  function DigitPrefix(s: string): (n: nat)
    ensures n <= |s| && AllDigits(s[..n])
    ensures n < |s| ==> !IsDigit(s[n])
  {
    if s != "" && IsDigit(s[0]) then
      var n := DigitPrefix(s[1..]);
      assert s[..1 + n] == [s[0]] + s[1..][..n];
      1 + n
    else 0
  }

  function AfterSign(t: string): string {
    if t != "" && (t[0] == '-' || t[0] == '+') then t[1..] else t
  }

  // The digits std::stoll reads: after spaces and a sign, the longest run; anything may follow.
  function NumberText(s: string): (n: string)
    ensures AllDigits(n)
  {
    var u := AfterSign(SkipSpaces(s));
    u[..DigitPrefix(u)]
  }

  predicate HasMinus(s: string) {
    SkipSpaces(s) != "" && SkipSpaces(s)[0] == '-'
  }

  // std::stoll.
  function Stoll(s: string): (r: Parse)
    ensures r.Parsed? ==> IsInt64(r.value)
  {
    var n := NumberText(s);
    if n != "" && IsInt64(Signed(HasMinus(s), Digits(n))) then Parsed(Signed(HasMinus(s), Digits(n)))
    else Throws
  }

  function IndexOf(s: string, c: char): (k: nat)
    ensures k <= |s| && (forall i :: 0 <= i < k ==> s[i] != c) && (k < |s| ==> s[k] == c)
  {
    if s == "" || s[0] == c then 0 else 1 + IndexOf(s[1..], c)
  }

  // The text before the dot, `0` if that is empty, and the text after it, `0` without a dot.
  function BeforeDot(s: string): string {
    var k := IndexOf(s, '.');
    if k < |s| && k == 0 then "0" else s[..k]
  }

  function AfterDot(s: string): string {
    var k := IndexOf(s, '.');
    if k < |s| then s[k + 1..] else "0"
  }

  // ---------------------------------------------------------------------------
  // What a numeral denotes
  // ---------------------------------------------------------------------------

  // The text without its sign.
  function Unsigned(b: string): string {
    if b != "" && b[0] == '-' then b[1..] else b
  }

  // An optional sign followed by digits.
  predicate IsInteger(b: string) {
    Unsigned(b) != "" && AllDigits(Unsigned(b))
  }

  // The magnitude of `i.f`, in units of ten to the minus number of fraction digits.
  function Units(i: string, f: string): nat
    requires AllDigits(i) && AllDigits(f)
  {
    Digits(i) * Pow10(|f|) + Digits(f)
  }

  /** `r` is the value `u / 10^k`, negated if `negative`, times `10^scale`: exact or a
      reported overflow when the scale keeps all digits, rounded half away from zero when
      it does not. */
  predicate CorrectlyRounded(negative: bool, u: nat, k: nat, scale: nat, r: Parse) {
    if k <= scale then
      r == if u * Pow10(scale - k) <= INT64_MAX then Parsed(Signed(negative, u * Pow10(scale - k))) else Throws
    else
      r.Parsed? && RoundsHalfAway(Signed(negative, u), Pow10(k - scale), r.value)
  }

  /** `r` is the correctly rounded value or one unit further from zero. */
  ghost predicate WithinOneUnit(negative: bool, u: nat, k: nat, scale: nat, r: Parse)
  {
    exists c: nat ::
      CorrectlyRounded(negative, u, k, scale, Parsed(Signed(negative, c))) &&
      (r == Parsed(Signed(negative, c)) || r == Parsed(Signed(negative, c + 1)))
  }

  // ---------------------------------------------------------------------------
  // Digit strings
  // ---------------------------------------------------------------------------

  lemma {:induction false} DigitsBelow(s: string)
    requires AllDigits(s)
    ensures Digits(s) < Pow10(|s|)
  {
    if s != "" { DigitsBelow(s[..|s| - 1]); }
  }

  lemma {:induction false} DigitsAppend(a: string, b: string)
    requires AllDigits(a) && AllDigits(b)
    ensures AllDigits(a + b) && Digits(a + b) == Digits(a) * Pow10(|b|) + Digits(b)
  {
    if b == "" {
      assert a + b == a;
    } else {
      var b' := b[..|b| - 1];
      assert (a + b)[..|a + b| - 1] == a + b';
      DigitsAppend(a, b');
      OneMoreDigit(Digits(a), Pow10(|b'|), Pow10(|b|));
      assert (a + b)[|a + b| - 1] == b[|b| - 1];
    }
  }

  lemma OneMoreDigit(x: int, p: int, p': int)
    requires p' == 10 * p
    ensures x * p' == 10 * (x * p)
  {
  }

  lemma {:induction false} NumberTextOfDigits(s: string)
    requires AllDigits(s) && s != ""
    ensures NumberText(s) == s && !HasMinus(s)
  {
  }

  lemma {:induction false} NumberTextOfSigned(s: string)
    requires s != "" && s[0] == '-' && AllDigits(s[1..])
    ensures NumberText(s) == s[1..] && HasMinus(s)
  {
  }

  lemma {:induction false} StollDigits(s: string)
    requires AllDigits(s) && s != ""
    ensures Stoll(s) == if Digits(s) <= INT64_MAX then Parsed(Digits(s)) else Throws
  {
    NumberTextOfDigits(s);
  }

  lemma {:induction false} StollSigned(s: string)
    requires s != "" && s[0] == '-' && s[1..] != "" && AllDigits(s[1..])
    ensures Stoll(s) == if Digits(s[1..]) <= INT64_MAX + 1 then Parsed(Signed(true, Digits(s[1..]))) else Throws
  {
    NumberTextOfSigned(s);
  }

  // The digits read are no more than the characters other than `-`.
  lemma {:induction false} NumberTextLength(s: string)
    ensures |NumberText(s)| <= |s|
    ensures '-' in s ==> |NumberText(s)| < |s|
  {
  }

  lemma {:induction false} StollBound(s: string)
    requires Stoll(s).Parsed?
    ensures Abs(Stoll(s).value) < Pow10(|s|)
    ensures '-' in s ==> |s| >= 1 && Abs(Stoll(s).value) < Pow10(|s| - 1)
  {
    NumberTextLength(s);
    StollMagnitude(s);
    MagnitudeBound(NumberText(s), s);
  }

  lemma MagnitudeBound(n: string, s: string)
    requires AllDigits(n) && |n| <= |s| && ('-' in s ==> |n| < |s|)
    ensures Digits(n) < Pow10(|s|)
    ensures '-' in s ==> |s| >= 1 && Digits(n) < Pow10(|s| - 1)
  {
    TextBound(n, |s|);
    if '-' in s { TextBound(n, |s| - 1); }
  }

  lemma StollMagnitude(s: string)
    ensures Stoll(s).Parsed? ==> Abs(Stoll(s).value) == Digits(NumberText(s))
  {
  }

  lemma TextBound(n: string, m: nat)
    requires AllDigits(n) && |n| <= m
    ensures Digits(n) < Pow10(m)
  {
    DigitsBelow(n);
    Pow10Mono(|n|, m);
  }

  // ---------------------------------------------------------------------------
  // Rounding of digit strings
  // ---------------------------------------------------------------------------

  // Dropping digits, and adding one if the first dropped digit is at least five, rounds.
  lemma {:induction false} DroppedDigitsRound(s: string, m: nat)
    requires AllDigits(s) && m < |s|
    ensures AllDigits(s[..m]) && Pow10(|s| - m) >= 1
    ensures RoundedQuotient(Digits(s), Pow10(|s| - m)) == Digits(s[..m]) + (if s[m] >= '5' then 1 else 0)
  {
    var a, b := s[..m], s[m..];
    assert s == a + b;
    DigitsAppend(a, b);
    DigitsBelow(b);
    QuotientOf(Digits(a), Pow10(|b|), Digits(b));
    LeadingDigit(b);
  }

  lemma QuotientOf(a: nat, p: int, b: nat)
    requires b < p
    ensures a * p + b >= 0 && RoundedQuotient(a * p + b, p) == a + (if p / 2 <= b then 1 else 0)
  {
    MulMono(0, a, p);
    assert (a + 1) * p == a * p + p;
    DivIs(a * p + b, p, a);
  }

  lemma LeadingDigit(b: string)
    requires AllDigits(b) && b != ""
    ensures Pow10(|b|) / 2 <= Digits(b) <==> b[0] >= '5'
  {
  }

  // ---------------------------------------------------------------------------
  // The rescalings at the end
  // ---------------------------------------------------------------------------

  // convert_decimal_value_to_scale_internal, by what it achieves.
  method Rescale(v: int, dscale: int) returns (r: Result)
    requires INT64_MIN < v <= INT64_MAX
    ensures dscale >= 0 ==> r == if IsInt64(v * Pow10(dscale)) then Ok(v * Pow10(dscale)) else Overflow
    ensures dscale < 0 ==> r.Ok? && RoundsHalfAway(v, Pow10(-dscale), r.value)
  {
    if dscale >= 0 { ScaleUpExact(v, dscale); } else { ScaleDownRounds(v, -dscale); }
    r := ConvertScale(v, dscale);
  }

  // The fraction is added between two rescalings, and the sign put back.
  method Finish(result: nat, k: nat, fraction: int, scale: nat, negative: bool) returns (r: Parse)
    requires result <= INT64_MAX
    requires result * Pow10(k) <= INT64_MAX ==> INT64_MIN < result * Pow10(k) + fraction <= INT64_MAX
    ensures result * Pow10(k) > INT64_MAX ==> r == Throws
    ensures result * Pow10(k) <= INT64_MAX && fraction >= 0 ==>
      result * Pow10(k) + fraction >= 0 && CorrectlyRounded(negative, result * Pow10(k) + fraction, k, scale, r)
  {
    MulMono(0, result, Pow10(k));
    var scaled := Rescale(result, k);
    if scaled.Overflow? {
      return Throws;
    }
    var u := scaled.value + fraction;
    var c := Rescale(u, scale - k);
    r := if c.Ok? then Parsed(Signed(negative, c.value)) else Throws;
    if u >= 0 { SignPutBack(negative, u, k, scale, c); }
  }

  lemma {:induction false} SignPutBack(negative: bool, u: nat, k: nat, scale: nat, c: Result)
    requires u <= INT64_MAX
    requires k <= scale ==> c == if IsInt64(u * Pow10(scale - k)) then Ok(u * Pow10(scale - k)) else Overflow
    requires k > scale ==> c.Ok? && RoundsHalfAway(u, Pow10(k - scale), c.value)
    ensures CorrectlyRounded(negative, u, k, scale, if c.Ok? then Parsed(Signed(negative, c.value)) else Throws)
  {
    if k <= scale {
      MulMono(0, u, Pow10(scale - k));
    } else if negative {
      NegatedRounding(u, Pow10(k - scale), c.value);
    }
  }

  // Without a dot the program appends a zero digit; that does not change the value.
  lemma {:induction false} AppendedZero(negative: bool, u: nat, scale: nat, r: Parse)
    requires CorrectlyRounded(negative, 10 * u, 1, scale, r) && 10 * u <= INT64_MAX
    ensures CorrectlyRounded(negative, u, 0, scale, r)
  {
    if scale == 0 {
      assert Pow10(1) == 10;
      assert RoundsHalfAway(Signed(negative, 10 * u), 10, Signed(negative, u));
      RoundingUnique(Signed(negative, 10 * u), 10, r.value, Signed(negative, u));
    } else {
      MulAssoc(u, 10, Pow10(scale - 1));
    }
  }

  /** A magnitude that was rounded to `m` fraction digits before the last rescaling ends
      within one unit, and is correctly rounded exactly when rounding twice is rounding
      once. */
  lemma {:induction false} TwoStepsWithinOneUnit(negative: bool, u: nat, k: nat, m: nat, mid: nat, scale: nat, r: Parse)
    requires scale < m < k && mid == RoundedQuotient(u, Pow10(k - m))
    requires CorrectlyRounded(negative, mid, m, scale, r)
    ensures WithinOneUnit(negative, u, k, scale, r)
    ensures CorrectlyRounded(negative, u, k, scale, r)
      <==> (u + Pow10(k - scale) / 2) % Pow10(k - scale) + Pow10(k - m) / 2 < Pow10(k - scale)
  {
    var c := CorrectQuotient(negative, u, k, scale);
    var two := CorrectQuotient(negative, mid, m, scale);
    RoundingUnique(Signed(negative, mid), Pow10(m - scale), r.value, Signed(negative, two));
    Pow10Add(k - m, m - scale);
    Pow10Even(k - m);
    Pow10Even(m - scale);
    TwoStepRounding(u, Pow10(k - m), Pow10(m - scale));
    if CorrectlyRounded(negative, u, k, scale, r) {
      RoundingUnique(Signed(negative, u), Pow10(k - scale), r.value, Signed(negative, c));
    }
  }

  // No second rounding when the scale keeps exactly the digits of the first.
  lemma {:induction false} OneStepIsCorrect(negative: bool, u: nat, k: nat, m: nat, mid: nat, r: Parse)
    requires m < k && mid == RoundedQuotient(u, Pow10(k - m)) && mid <= INT64_MAX
    requires CorrectlyRounded(negative, mid, m, m, r)
    ensures CorrectlyRounded(negative, u, k, m, r) && WithinOneUnit(negative, u, k, m, r)
  {
    var c := CorrectQuotient(negative, u, k, m);
    assert Pow10(0) == 1;
    assert r == Parsed(Signed(negative, c));
  }

  // The correctly rounded value is the rounded quotient.
  lemma {:induction false} CorrectQuotient(negative: bool, u: nat, k: nat, scale: nat) returns (c: nat)
    requires scale < k
    ensures c == RoundedQuotient(u, Pow10(k - scale))
    ensures CorrectlyRounded(negative, u, k, scale, Parsed(Signed(negative, c)))
  {
    var p := Pow10(k - scale);
    Pow10Even(k - scale);
    RoundedQuotientIs(u, p);
    DivMono(0, u + p / 2, p);
    c := RoundedQuotient(u, p);
    if negative { NegatedRounding(u, p, c); }
  }

  // ---------------------------------------------------------------------------
  // Reading the digits
  // ---------------------------------------------------------------------------

  lemma {:induction false} SmallDigits(s: string)
    requires AllDigits(s) && |s| <= 18
    ensures Digits(s) < 1_000_000_000_000_000_000
  {
    DigitsBelow(s);
    Pow10Mono(|s|, 18);
    Pow10Values();
  }

  // std::stoll of the integer part.
  method ReadInteger(before: string) returns (ok: bool, result: nat, digits: nat)
    requires Stoll(before) != Parsed(INT64_MIN)
    ensures ok ==> result <= INT64_MAX && result < Pow10(digits)
    ensures IsInteger(before) ==> (ok <==> Digits(Unsigned(before)) <= INT64_MAX)
    ensures IsInteger(before) && ok ==> result == Digits(Unsigned(before)) && digits == |Unsigned(before)|
  {
    var negative := '-' in before;
    var parsed := Stoll(before);
    IntegerMagnitude(before, parsed, |before| - (if negative then 1 else 0));
    if parsed.Throws? {
      return false, 0, 0;
    }
    result := Abs(parsed.value);
    digits := |before| - (if negative then 1 else 0);
    ok := true;
  }

  lemma {:induction false} IntegerMagnitude(b: string, parsed: Parse, digits: int)
    requires parsed == Stoll(b) != Parsed(INT64_MIN) && digits == |b| - (if '-' in b then 1 else 0)
    ensures digits >= 0
    ensures parsed.Parsed? ==> Abs(parsed.value) <= INT64_MAX && Abs(parsed.value) < Pow10(digits)
    ensures IsInteger(b) ==> digits == |Unsigned(b)| && (parsed.Parsed? <==> Digits(Unsigned(b)) <= INT64_MAX)
    ensures IsInteger(b) && parsed.Parsed? ==> Abs(parsed.value) == Digits(Unsigned(b))
  {
    if parsed.Parsed? { StollBound(b); }
    IntegerParsed(b, parsed);
  }

  lemma {:induction false} IntegerParsed(b: string, parsed: Parse)
    requires parsed == Stoll(b) != Parsed(INT64_MIN)
    ensures IsInteger(b) ==> |Unsigned(b)| == |b| - (if '-' in b then 1 else 0)
    ensures IsInteger(b) ==> (parsed.Parsed? <==> Digits(Unsigned(b)) <= INT64_MAX)
    ensures IsInteger(b) && parsed.Parsed? ==> Abs(parsed.value) == Digits(Unsigned(b))
  {
    if IsInteger(b) { StollInteger(b); }
  }

  lemma {:induction false} StollInteger(b: string)
    requires IsInteger(b)
    ensures |Unsigned(b)| == |b| - (if '-' in b then 1 else 0)
    ensures var d := Digits(Unsigned(b));
            Stoll(b) == if IsInt64(Signed('-' in b, d)) then Parsed(Signed('-' in b, d)) else Throws
  {
    if b[0] == '-' {
      StollSigned(b);
    } else {
      assert b == Unsigned(b);
      StollDigits(b);
    }
  }

  // std::stoll of fraction digits.
  method ReadDigits(s: string) returns (ok: bool, value: int)
    requires s != ""
    ensures ok ==> Abs(value) < Pow10(|s|)
    ensures AllDigits(s) && |s| <= 18 ==> ok && value == Digits(s)
  {
    var r := Stoll(s);
    if AllDigits(s) && |s| <= 18 {
      SmallDigits(s);
      StollDigits(s);
    }
    if r.Throws? {
      return false, 0;
    }
    StollBound(s);
    ok, value := true, r.value;
  }

  // The number of fraction digits kept beside `digits` integer digits; beside 18 of them a
  // single zero stands for the fraction.
  function KeptCount(digits: nat, f: string): nat {
    if f == "" then 0
    else if digits + |f| <= 18 then |f|
    else if digits < 18 then 18 - digits
    else 1
  }

  // The value of the digits kept, rounded by the first digit dropped.
  function KeptFraction(digits: nat, f: string): nat
    requires AllDigits(f)
  {
    if digits + |f| <= 18 then Digits(f)
    else if digits < 18 then Digits(f[..18 - digits]) + (if f[18 - digits] >= '5' then 1 else 0)
    else 0
  }

  method ReadFraction(after: string, digits: nat) returns (ok: bool, k: nat, fraction: int)
    ensures ok ==> fraction == 0 || (digits + k <= 18 && Abs(fraction) <= Pow10(k))
    ensures AllDigits(after) ==> ok && k == KeptCount(digits, after) && fraction == KeptFraction(digits, after)
  {
    if after == "" {
      return true, 0, 0;
    }
    if |after| + digits > 18 {
      if digits >= 18 {
        return true, 1, 0;
      }
      var m := 18 - digits;
      var next;
      ok, next := ReadDigits(after[m..m + 1]);
      if AllDigits(after) { OneDigit(after, m); }
      if !ok {
        return false, 0, 0;
      }
      ok, fraction := ReadDigits(after[..m]);
      k, fraction := m, fraction + (if next >= 5 then 1 else 0);
    } else {
      ok, fraction := ReadDigits(after);
      k := |after|;
    }
  }

  lemma {:induction false} OneDigit(s: string, k: nat)
    requires AllDigits(s) && k < |s|
    ensures AllDigits(s[k..k + 1]) && (Digits(s[k..k + 1]) >= 5 <==> s[k] >= '5')
  {
  }

  // ---------------------------------------------------------------------------
  // The parser
  // ---------------------------------------------------------------------------

  // The integer part, the digits kept of the fraction and the rounding of the others leave
  // the 64-bit range only by the first rescaling.
  lemma {:induction false} SumFits(result: nat, digits: nat, k: nat, fraction: int)
    requires result < Pow10(digits)
    requires fraction == 0 || (digits + k <= 18 && Abs(fraction) <= Pow10(k))
    ensures result * Pow10(k) <= INT64_MAX ==> INT64_MIN < result * Pow10(k) + fraction <= INT64_MAX
    ensures digits + k <= 18 ==> result * Pow10(k) <= INT64_MAX
  {
    MulMono(0, result, Pow10(k));
    if digits + k <= 18 {
      var p := Pow10(k);
      MulMono(result + 1, Pow10(digits), p);
      assert (result + 1) * p == result * p + p;
      Pow10Add(digits, k);
      Pow10Mono(digits + k, 18);
      Pow10Values();
    }
  }

  // The magnitude of the digits kept.
  function KeptUnits(i: string, f: string): nat
    requires AllDigits(i) && AllDigits(f)
  {
    MulMono(0, Digits(i), Pow10(KeptCount(|i|, f)));
    Digits(i) * Pow10(KeptCount(|i|, f)) + KeptFraction(|i|, f)
  }

  /** What parse_numeric makes of the digits `i.f`, whatever their number: an error if the
      integer part, or that part with the kept fraction digits appended, leaves the range,
      and otherwise the correctly rounded value of the digits kept.  This determines the
      result; the lemmas below say when it is the value of all digits. */
  ghost predicate ParsesDigits(negative: bool, i: string, f: string, scale: nat, r: Parse)
    requires AllDigits(i) && AllDigits(f)
  {
    if Digits(i) > INT64_MAX || Digits(i) * Pow10(KeptCount(|i|, f)) > INT64_MAX then r == Throws
    else CorrectlyRounded(negative, KeptUnits(i, f), KeptCount(|i|, f), scale, r)
  }

  /** The result is determined. */
  lemma {:induction false} ParsedOnce(negative: bool, i: string, f: string, scale: nat, r: Parse, r': Parse)
    requires AllDigits(i) && AllDigits(f)
    requires ParsesDigits(negative, i, f, scale, r) && ParsesDigits(negative, i, f, scale, r')
    ensures r == r'
  {
    var k := KeptCount(|i|, f);
    if r.Parsed? && r'.Parsed? && k > scale {
      RoundingUnique(Signed(negative, KeptUnits(i, f)), Pow10(k - scale), r.value, r'.value);
    }
  }

  // The kept digits of a long fraction make the magnitude rounded to 18 digits.
  lemma {:induction false} KeptIsRounded(i: string, f: string, m: nat, fraction: int)
    requires AllDigits(i) && AllDigits(f) && |i| < 18 < |i| + |f| && m == 18 - |i|
    requires fraction == Digits(f[..m]) + (if f[m] >= '5' then 1 else 0)
    ensures Digits(i) * Pow10(m) + fraction == RoundedQuotient(Units(i, f), Pow10(|f| - m))
    ensures 0 <= Digits(i) * Pow10(m) + fraction <= 1_000_000_000_000_000_000
  {
    var all := i + f;
    assert all[..18] == i + f[..m] && all[18] == f[m];
    DigitsAppend(i, f);
    DigitsAppend(i, f[..m]);
    DroppedDigitsRound(all, 18);
    SmallDigits(i + f[..m]);
  }

  // Up to 18 digits nothing overflows before the last rescaling.
  lemma {:induction false} KeptInRange(i: string, f: string)
    requires AllDigits(i) && AllDigits(f) && |i| + KeptCount(|i|, f) <= 18
    ensures Digits(i) * Pow10(KeptCount(|i|, f)) <= INT64_MAX && Digits(i) <= INT64_MAX
  {
    var k := KeptCount(|i|, f);
    DigitsBelow(i);
    SumFits(Digits(i), |i|, k, 0);
    SmallDigits(i);
  }

  /** With up to 18 digits the result is the correctly rounded value. */
  lemma {:induction false} CorrectDigits(negative: bool, i: string, f: string, scale: nat, r: Parse)
    requires AllDigits(i) && AllDigits(f) && |i| + |f| <= 18 && ParsesDigits(negative, i, f, scale, r)
    ensures CorrectlyRounded(negative, Units(i, f), |f|, scale, r)
  {
    KeptInRange(i, f);
    assert KeptUnits(i, f) == Units(i, f);
  }

  // The digits from `lo` up to `hi` are a four followed by nines.
  predicate JustBelowHalf(f: string, lo: nat, hi: nat) {
    lo < hi <= |f| && f[lo] == '4' && forall j :: lo < j < hi ==> f[j] == '9'
  }

  /** With a longer fraction and a scale the 18 digits leave room for, the result is within
      one unit, and it is correctly rounded if and only if the second rounding does not meet
      a tie that the first one made: the digits from the scale to the last one kept are not
      a four followed by nines, or the next digit is below five. */
  lemma {:induction false} LongFractionExactly(negative: bool, i: string, f: string, scale: nat, r: Parse)
    requires AllDigits(i) && AllDigits(f) && |i| < 18 < |i| + |f| && |i| + scale <= 18
    requires ParsesDigits(negative, i, f, scale, r)
    ensures WithinOneUnit(negative, Units(i, f), |f|, scale, r)
    ensures CorrectlyRounded(negative, Units(i, f), |f|, scale, r)
      <==> !(JustBelowHalf(f, scale, 18 - |i|) && f[18 - |i|] >= '5')
  {
    var m, mid := 18 - |i|, KeptUnits(i, f);
    KeptFromLong(negative, i, f, scale, r);
    if scale == m {
      OneStepIsCorrect(negative, Units(i, f), |f|, m, mid, r);
    } else {
      TwoStepsWithinOneUnit(negative, Units(i, f), |f|, m, mid, scale, r);
      DoubleRoundingDigits(i, f, scale, m);
    }
  }

  // Of a longer fraction 18 digits are kept, rounded, and these are rescaled.
  lemma {:induction false} KeptFromLong(negative: bool, i: string, f: string, scale: nat, r: Parse)
    requires AllDigits(i) && AllDigits(f) && |i| < 18 < |i| + |f| && ParsesDigits(negative, i, f, scale, r)
    ensures KeptUnits(i, f) == RoundedQuotient(Units(i, f), Pow10(|f| - (18 - |i|))) <= INT64_MAX
    ensures CorrectlyRounded(negative, KeptUnits(i, f), 18 - |i|, scale, r)
  {
    KeptInRange(i, f);
    KeptIsRounded(i, f, 18 - |i|, KeptFraction(|i|, f));
  }

  // The condition on the magnitude, read off the digits.
  lemma {:induction false} DoubleRoundingDigits(i: string, f: string, scale: nat, m: nat)
    requires AllDigits(i) && AllDigits(f) && scale < m < |f|
    ensures (Units(i, f) + Pow10(|f| - scale) / 2) % Pow10(|f| - scale) + Pow10(|f| - m) / 2 < Pow10(|f| - scale)
      <==> !(JustBelowHalf(f, scale, m) && f[m] >= '5')
  {
    var whole := DigitsPastScale(i, f, scale);
    var c, d := f[scale..m], f[m..];
    DigitsAround(f, scale, m);
    LeadingDigit(d);
    Pow10Even(m - scale);
    Pow10Even(|f| - m);
    ShortOfTie(whole, Digits(c), Digits(d), Pow10(|f| - m), Pow10(m - scale), Pow10(|f| - scale));
    BelowHalfDigits(f, scale, m);
  }

  lemma DigitsAround(f: string, scale: nat, m: nat)
    requires AllDigits(f) && scale <= m <= |f|
    ensures Digits(f[scale..]) == Digits(f[scale..m]) * Pow10(|f| - m) + Digits(f[m..])
    ensures Digits(f[scale..m]) < Pow10(m - scale) && Digits(f[m..]) < Pow10(|f| - m)
    ensures Pow10(|f| - scale) == Pow10(m - scale) * Pow10(|f| - m)
  {
    assert f[scale..] == f[scale..m] + f[m..];
    DigitsAppend(f[scale..m], f[m..]);
    DigitsBelow(f[scale..m]);
    DigitsBelow(f[m..]);
    Pow10Add(m - scale, |f| - m);
  }

  lemma {:induction false} DigitsPastScale(i: string, f: string, scale: nat) returns (whole: nat)
    requires AllDigits(i) && AllDigits(f) && scale <= |f|
    ensures whole == Digits(i + f[..scale])
    ensures Units(i, f) == whole * Pow10(|f| - scale) + Digits(f[scale..])
  {
    assert i + f == (i + f[..scale]) + f[scale..];
    DigitsAppend(i, f);
    DigitsAppend(i, f[..scale]);
    DigitsAppend(i + f[..scale], f[scale..]);
    whole := Digits(i + f[..scale]);
  }

  // Just short of a tie: the leading part is one below the half and the rest at least half.
  lemma ShortOfTie(whole: nat, c: nat, d: nat, p: int, q: int, n: int)
    requires p >= 2 && p % 2 == 0 && q >= 2 && q % 2 == 0 && n == q * p && c < q && d < p
    ensures n >= 2 && whole * n + (c * p + d) >= 0
    ensures (whole * n + (c * p + d) + n / 2) % n + p / 2 < n <==> !(c == q / 2 - 1 && d >= p / 2)
  {
    var h, b := q / 2, c * p + d;
    EvenProduct(p, h, q, p * h, n);
    TieOrder(c, d, p, h);
    MulMono(c, q - 1, p);
    assert (q - 1) * p == n - p;
    MulMono(0, c, p);
    MulMono(0, whole, n);
    assert (whole + 1) * n == whole * n + n;
    var sum := whole * n + b + n / 2;
    if b < n / 2 {
      ModIs(sum, n, whole, b + n / 2);
    } else {
      ModIs(sum, n, whole + 1, b - n / 2);
    }
  }

  lemma ModIs(a: int, n: int, x: int, r: int)
    requires n >= 1 && a == x * n + r && 0 <= r < n
    ensures a % n == r
  {
    assert (x + 1) * n == x * n + n;
    DivIs(a, n, x);
  }

  lemma TieOrder(c: nat, d: nat, p: int, h: int)
    requires p >= 2 && h >= 1 && d < p
    ensures c * p + d < p * h <==> c < h
    ensures c < h ==> (c * p + d + p / 2 >= p * h <==> c == h - 1 && d >= p - p / 2)
  {
    if c < h {
      MulMono(c, h - 1, p);
      assert (h - 1) * p == p * h - p;
      if c < h - 1 {
        MulMono(c, h - 2, p);
        assert (h - 2) * p == p * h - 2 * p;
      }
    } else {
      MulMono(h, c, p);
    }
  }

  lemma {:induction false} BelowHalfDigits(f: string, lo: nat, hi: nat)
    requires AllDigits(f) && lo < hi <= |f|
    ensures AllDigits(f[lo..hi])
    ensures Digits(f[lo..hi]) == Pow10(hi - lo) / 2 - 1 <==> JustBelowHalf(f, lo, hi)
  {
    var c := f[lo..hi];
    var head, tail := c[..1], c[1..];
    assert c == head + tail;
    DigitsAppend(head, tail);
    DigitsBelow(tail);
    NinesExactly(tail);
    assert head[..0] == "";
    var p := Pow10(|tail|);
    assert Pow10(hi - lo) == 10 * p;
    LeadingFour(Digits(head), p, Digits(tail));
    assert forall j :: lo < j < hi ==> tail[j - lo - 1] == f[j];
    assert forall j :: 0 <= j < |tail| ==> tail[j] == f[lo + 1 + j];
  }

  lemma LeadingFour(x: nat, p: int, y: nat)
    requires p >= 1 && y < p
    ensures x * p + y == 5 * p - 1 <==> x == 4 && y == p - 1
  {
    if x < 4 { MulMono(x, 3, p); } else if x > 4 { MulMono(5, x, p); }
  }

  lemma {:induction false} NinesExactly(s: string)
    requires AllDigits(s)
    ensures Digits(s) == Pow10(|s|) - 1 <==> forall j :: 0 <= j < |s| ==> s[j] == '9'
  {
    if s != "" {
      var n := |s| - 1;
      NinesExactly(s[..n]);
      DigitsBelow(s[..n]);
      assert (forall j :: 0 <= j < |s| ==> s[j] == '9')
        <==> (forall j :: 0 <= j < n ==> s[..n][j] == '9') && s[n] == '9';
    }
  }

  /** For example `0.499999999999999995` at scale zero: the fraction is cut to 17 digits and
      becomes one half, so the result is one where zero would be right. */
  lemma LongFractionExample(i: string, f: string, r: Parse)
    requires i == "0" && f == "499999999999999995"
    ensures AllDigits(i) && AllDigits(f)
    ensures ParsesDigits(false, i, f, 0, r) ==>
      && !CorrectlyRounded(false, Units(i, f), 18, 0, r)
      && CorrectlyRounded(false, Units(i, f), 18, 0, Parsed(0)) && r == Parsed(1)
  {
    if ParsesDigits(false, i, f, 0, r) {
      assert i[..0] == "";
      LongFractionFails(i, f, r);
    }
  }

  lemma LongFractionFails(i: string, f: string, r: Parse)
    requires AllDigits(i) && AllDigits(f) && ParsesDigits(false, i, f, 0, r)
    requires |i| == 1 && Digits(i) == 0 && |f| == 18 && JustBelowHalf(f, 0, 17) && f[17] >= '5'
    ensures !CorrectlyRounded(false, Units(i, f), 18, 0, r)
    ensures CorrectlyRounded(false, Units(i, f), 18, 0, Parsed(0)) && r == Parsed(1)
  {
    LongFractionExactly(false, i, f, 0, r);
    LeadingDigit(f);
    OffByOne(Units(i, f), 18, r);
  }

  // Below a half zero is right, and a wrong result within one unit is one.
  lemma {:induction false} OffByOne(u: nat, k: nat, r: Parse)
    requires k >= 1 && u < Pow10(k) / 2
    requires WithinOneUnit(false, u, k, 0, r) && !CorrectlyRounded(false, u, k, 0, r)
    ensures CorrectlyRounded(false, u, k, 0, Parsed(0)) && r == Parsed(1)
  {
    var c := CorrectQuotient(false, u, k, 0);
    Pow10Even(k);
    SmallRoundsDown(u, Pow10(k));
    var c' : nat :| CorrectlyRounded(false, u, k, 0, Parsed(Signed(false, c'))) &&
      (r == Parsed(Signed(false, c')) || r == Parsed(Signed(false, c' + 1)));
    RoundingUnique(u, Pow10(k), c, c');
  }

  lemma SmallRoundsDown(u: nat, p: int)
    requires p >= 2 && u < p / 2
    ensures RoundedQuotient(u, p) == 0
  {
    DivIs(u, p, 0);
    assert u == u / p * p + u % p;
  }

  method ParseParts(before: string, after: string, scale: nat) returns (r: Parse)
    requires Stoll(before) != Parsed(INT64_MIN)
    ensures IsInteger(before) && AllDigits(after) ==>
      ParsesDigits('-' in before, Unsigned(before), after, scale, r)
  {
    var negative := '-' in before;
    ghost var numeral := IsInteger(before) && AllDigits(after);
    ghost var i := Unsigned(before);
    var ok, result, digits := ReadInteger(before);
    if !ok {
      if numeral { OutOfRange(negative, i, after, scale); }
      return Throws;
    }
    var k, fraction;
    ok, k, fraction := ReadFraction(after, digits);
    if !ok {
      return Throws;
    }
    SumFits(result, digits, k, fraction);
    r := Finish(result, k, fraction, scale, negative);
    if numeral { FinishedDigits(negative, i, after, scale, result, k, fraction, r); }
  }

  lemma OutOfRange(negative: bool, i: string, f: string, scale: nat)
    requires AllDigits(i) && AllDigits(f) && Digits(i) > INT64_MAX
    ensures ParsesDigits(negative, i, f, scale, Throws)
  {
  }

  lemma FinishedDigits(negative: bool, i: string, f: string, scale: nat, result: nat, k: nat, fraction: int, r: Parse)
    requires AllDigits(i) && AllDigits(f) && k == KeptCount(|i|, f) && fraction == KeptFraction(|i|, f)
    requires result == Digits(i) && result <= INT64_MAX
    requires result * Pow10(k) > INT64_MAX ==> r == Throws
    requires result * Pow10(k) <= INT64_MAX && fraction >= 0 ==>
      result * Pow10(k) + fraction >= 0 && CorrectlyRounded(negative, result * Pow10(k) + fraction, k, scale, r)
    ensures ParsesDigits(negative, i, f, scale, r)
  {
  }

  /** parse_numeric, on every text whose integer part has a defined absolute value.  A text
      `[-]digits[.digits]` is split at the dot; without a dot the fraction is one zero. */
  method ParseNumeric(s: string, scale: nat) returns (r: Parse)
    requires Stoll(BeforeDot(s)) != Parsed(INT64_MIN)
    ensures IsInteger(BeforeDot(s)) && AllDigits(AfterDot(s)) ==>
      ParsesDigits('-' in BeforeDot(s), Unsigned(BeforeDot(s)), AfterDot(s), scale, r)
    ensures '.' !in s && IsInteger(s) ==>
      (CorrectlyRounded('-' in s, Digits(Unsigned(s)), 0, scale, r)
       <==> !(scale == 0 && Digits(Unsigned(s)) <= INT64_MAX < 10 * Digits(Unsigned(s))))
  {
    r := ParseParts(BeforeDot(s), AfterDot(s), scale);
    if '.' !in s && IsInteger(s) {
      NoDot(s);
      WithoutDotExactly('-' in s, Unsigned(s), AfterDot(s), scale, r);
    }
  }

  lemma {:induction false} NoDot(s: string)
    requires '.' !in s
    ensures BeforeDot(s) == s
    ensures |AfterDot(s)| == 1 && AllDigits(AfterDot(s)) && Digits(AfterDot(s)) == 0
  {
  }

  /** A numeral without a dot is parsed correctly if and only if the scale is not zero, or it
      is out of range, or there is room for the zero digit that stands for the fraction. */
  lemma {:induction false} WithoutDotExactly(negative: bool, i: string, z: string, scale: nat, r: Parse)
    requires AllDigits(i) && AllDigits(z) && |z| == 1 && Digits(z) == 0
    requires ParsesDigits(negative, i, z, scale, r)
    ensures CorrectlyRounded(negative, Digits(i), 0, scale, r)
      <==> !(scale == 0 && Digits(i) <= INT64_MAX < 10 * Digits(i))
  {
    assert Pow10(1) == 10 && Pow10(0) == 1;
    assert KeptCount(|i|, z) == 1 && KeptFraction(|i|, z) == 0;
    if 10 * Digits(i) <= INT64_MAX {
      AppendedZero(negative, Digits(i), scale, r);
    } else if scale > 0 {
      Pow10Mono(1, scale);
      MulMono(10, Pow10(scale), Digits(i));
    }
  }

  /** For example eighteen nines: they fit the range but are refused at scale zero. */
  lemma EighteenNines(i: string, z: string, r: Parse)
    requires |i| == 18 && (forall k :: 0 <= k < |i| ==> i[k] == '9') && |z| == 1 && AllDigits(z)
    requires AllDigits(i) && ParsesDigits(false, i, z, 0, r)
    ensures Digits(i) <= INT64_MAX && r == Throws
  {
    NinesExactly(i);
    Pow10Values();
    assert Pow10(1) == 10;
  }
}
