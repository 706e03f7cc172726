/** Exactly which numerals parse_numeric reads correctly.  `ParsesDigits` says what it makes
    of the digits it keeps; here that is compared with the value of all digits. */
module ParsingExactness {
  import opened Basics
  import opened Decimals
  import opened NumericParsing

  // The digits from `lo` up to `hi` are zeros, and the next one, if any, is below five.
  predicate ZerosThenDown(f: string, lo: nat, hi: nat) {
    (forall j :: lo <= j < hi && j < |f| ==> f[j] == '0') && (hi < |f| ==> f[hi] < '5')
  }

  // The digits from `lo` up to `hi` are nines, and the next one is at least five.
  predicate NinesThenUp(f: string, lo: nat, hi: nat) {
    hi < |f| && (forall j :: lo <= j < hi ==> f[j] == '9') && f[hi] >= '5'
  }

  predicate Fits(u: nat, n: nat) { u * Pow10(n) <= INT64_MAX }

  function ScaledUp(negative: bool, u: nat, n: nat): Parse {
    if Fits(u, n) then Parsed(Signed(negative, u * Pow10(n))) else Throws
  }

  // The digits up to `m` after the dot, and one more if `up`.
  function CutUnits(i: string, f: string, m: nat, up: bool): nat
    requires AllDigits(i) && AllDigits(f) && m <= |f|
  {
    Digits(i + f[..m]) + if up then 1 else 0
  }

  // The digits up to the scale, rounded by the next one.
  function RoundedAt(i: string, f: string, scale: nat): nat
    requires AllDigits(i) && AllDigits(f) && scale < |f|
  {
    CutUnits(i, f, scale, f[scale] >= '5')
  }

  /** What reading `u / 10^k` at a scale should give: the correctly rounded value if it fits,
      and a refusal if it does not.  The least 64-bit integer stands for NULL, so the range is
      the same on both sides of zero. */
  predicate CorrectlyRead(negative: bool, u: nat, k: nat, scale: nat, r: Parse) {
    if k <= scale || RoundedQuotient(u, Pow10(k - scale)) <= INT64_MAX then CorrectlyRounded(negative, u, k, scale, r)
    else r == Throws
  }

  /** When a fraction cut after `m` digits, rounded up or not, and filled with zeros up to the
      larger scale is still read correctly: the digits cut off are zeros before the next
      rounding, or the carry of that rounding restores what rounding up added; or the value is
      out of range with and without the digits cut off. */
  predicate CutSurvives(i: string, f: string, m: nat, up: bool, scale: nat)
    requires AllDigits(i) && AllDigits(f) && m <= |f| && m <= scale
  {
    var c := CutUnits(i, f, m, up);
    if scale < |f| then
      if !Fits(c, scale - m) then RoundedAt(i, f, scale) > INT64_MAX
      else if up then NinesThenUp(f, m, scale)
      else ZerosThenDown(f, m, scale)
    else
      (!up && ZerosThenDown(f, m, scale)) || (!Fits(c, scale - m) && !Fits(Units(i, f), scale - |f|))
  }

  // ---------------------------------------------------------------------------
  // Values of the digits cut off
  // ---------------------------------------------------------------------------

  lemma {:induction false} ZerosExactly(s: string)
    requires AllDigits(s)
    ensures Digits(s) == 0 <==> forall j :: 0 <= j < |s| ==> s[j] == '0'
  {
    if s != "" {
      var n := |s| - 1;
      ZerosExactly(s[..n]);
      assert (forall j :: 0 <= j < |s| ==> s[j] == '0')
        <==> (forall j :: 0 <= j < n ==> s[..n][j] == '0') && s[n] == '0';
    }
  }

  lemma SliceZeros(f: string, lo: nat, hi: nat)
    requires lo <= hi <= |f|
    ensures (forall j :: 0 <= j < hi - lo ==> f[lo..hi][j] == '0') <==> forall j :: lo <= j < hi ==> f[j] == '0'
  {
    if forall j :: 0 <= j < hi - lo ==> f[lo..hi][j] == '0' {
      forall j | lo <= j < hi ensures f[j] == '0' { assert f[lo..hi][j - lo] == f[j]; }
    }
  }

  lemma SliceNines(f: string, lo: nat, hi: nat)
    requires lo <= hi <= |f|
    ensures (forall j :: 0 <= j < hi - lo ==> f[lo..hi][j] == '9') <==> forall j :: lo <= j < hi ==> f[j] == '9'
  {
    if forall j :: 0 <= j < hi - lo ==> f[lo..hi][j] == '9' {
      forall j | lo <= j < hi ensures f[j] == '9' { assert f[lo..hi][j - lo] == f[j]; }
    }
  }

  // The rounded magnitude, split at the cut.
  lemma {:induction false} RoundedAtCut(i: string, f: string, m: nat, scale: nat)
    requires AllDigits(i) && AllDigits(f) && m <= scale < |f|
    ensures RoundedQuotient(Units(i, f), Pow10(|f| - scale))
         == Digits(i + f[..m]) * Pow10(scale - m) + Digits(f[m..scale]) + (if f[scale] >= '5' then 1 else 0)
  {
    DigitsAppend(i, f);
    DroppedDigitsRound(i + f, |i| + scale);
    assert (i + f)[|i| + scale] == f[scale];
    DigitsAtCut(i, f, m, scale);
  }

  lemma {:induction false} DigitsAtCut(i: string, f: string, m: nat, scale: nat)
    requires AllDigits(i) && AllDigits(f) && m <= scale <= |f|
    ensures Digits((i + f)[..|i| + scale]) == Digits(i + f[..m]) * Pow10(scale - m) + Digits(f[m..scale])
  {
    assert (i + f)[..|i| + scale] == (i + f[..m]) + f[m..scale];
    DigitsAppend(i + f[..m], f[m..scale]);
  }

  lemma CarryExactly(c: nat, p: int, d: nat, up: bool, b: nat)
    requires d < p && b <= 1
    ensures (c + if up then 1 else 0) * p == c * p + d + b
      <==> if up then d == p - 1 && b == 1 else d == 0 && b == 0
  {
    assert (c + 1) * p == c * p + p;
  }

  // A scale that drops digits: the cut value is the rounded one.
  lemma {:induction false} CutIsRounded(i: string, f: string, m: nat, up: bool, scale: nat)
    requires AllDigits(i) && AllDigits(f) && m <= scale < |f|
    ensures CutUnits(i, f, m, up) * Pow10(scale - m) == RoundedQuotient(Units(i, f), Pow10(|f| - scale))
      <==> if up then NinesThenUp(f, m, scale) else ZerosThenDown(f, m, scale)
  {
    var d := f[m..scale];
    RoundedAtCut(i, f, m, scale);
    DigitsBelow(d);
    CarryExactly(Digits(i + f[..m]), Pow10(scale - m), Digits(d), up, if f[scale] >= '5' then 1 else 0);
    if up {
      NinesExactly(d);
      SliceNines(f, m, scale);
    } else {
      ZerosExactly(d);
      SliceZeros(f, m, scale);
    }
  }

  // A scale that keeps all digits: the cut value is the exact one.
  lemma {:induction false} CutIsExact(i: string, f: string, m: nat, up: bool, scale: nat)
    requires AllDigits(i) && AllDigits(f) && m <= |f| <= scale
    ensures CutUnits(i, f, m, up) * Pow10(scale - m) == Units(i, f) * Pow10(scale - |f|)
      <==> !up && ZerosThenDown(f, m, scale)
  {
    var d, p, q := f[m..], Pow10(|f| - m), Pow10(scale - |f|);
    var whole := DigitsPastScale(i, f, m);
    DigitsBelow(d);
    CarryExactly(Digits(i + f[..m]), p, Digits(d), up, 0);
    Pow10Add(|f| - m, scale - |f|);
    MulAssoc(CutUnits(i, f, m, up), p, q);
    MulCancel(CutUnits(i, f, m, up) * p, Units(i, f), q);
    ZerosExactly(d);
    SliceZeros(f, m, |f|);
  }

  lemma MulCancel(a: int, b: int, q: int)
    requires q >= 1
    ensures a * q == b * q <==> a == b
  {
    if a < b { MulMono(a + 1, b, q); } else if b < a { MulMono(b + 1, a, q); }
  }

  // ---------------------------------------------------------------------------
  // The results
  // ---------------------------------------------------------------------------

  // Where digits are dropped, exactly one result is correct.
  lemma {:induction false} CorrectIs(negative: bool, u: nat, k: nat, scale: nat, r: Parse)
    requires scale < k
    ensures CorrectlyRounded(negative, u, k, scale, r)
      <==> r == Parsed(Signed(negative, RoundedQuotient(u, Pow10(k - scale))))
  {
    var c := CorrectQuotient(negative, u, k, scale);
    if CorrectlyRounded(negative, u, k, scale, r) {
      RoundingUnique(Signed(negative, u), Pow10(k - scale), r.value, Signed(negative, c));
    }
  }

  lemma {:induction false} RoundedAtIs(i: string, f: string, scale: nat)
    requires AllDigits(i) && AllDigits(f) && scale < |f|
    ensures RoundedAt(i, f, scale) == RoundedQuotient(Units(i, f), Pow10(|f| - scale))
  {
    RoundedAtCut(i, f, scale, scale);
    assert Pow10(0) == 1 && f[scale..scale] == "";
  }

  // A value of up to 18 digits fits.
  lemma {:induction false} FewDigitsFit(i: string, f: string, scale: nat)
    requires AllDigits(i) && AllDigits(f) && scale < |f| && |i| + scale <= 18
    ensures RoundedQuotient(Units(i, f), Pow10(|f| - scale)) <= INT64_MAX
  {
    RoundedAtIs(i, f, scale);
    DigitsAppend(i, f[..scale]);
    SmallDigits(i + f[..scale]);
  }

  lemma {:induction false} CutExactly(negative: bool, i: string, f: string, m: nat, up: bool, scale: nat, r: Parse)
    requires AllDigits(i) && AllDigits(f) && m <= |f| && m <= scale
    requires r == ScaledUp(negative, CutUnits(i, f, m, up), scale - m)
    ensures CorrectlyRead(negative, Units(i, f), |f|, scale, r) <==> CutSurvives(i, f, m, up, scale)
  {
    if scale < |f| {
      CorrectIs(negative, Units(i, f), |f|, scale, r);
      CutIsRounded(i, f, m, up, scale);
      RoundedAtIs(i, f, scale);
    } else {
      CutIsExact(i, f, m, up, scale);
    }
  }

  /** The condition on the digits of the numeral `i.f`, for every number of digits and every
      scale.  Up to 18 digits there is none.  Beyond, 18 digits are kept if the integer part
      leaves room for fraction digits, and otherwise the fraction is ignored. */
  predicate ReadCorrectly(i: string, f: string, scale: nat)
    requires AllDigits(i) && AllDigits(f)
  {
    if f == "" || |i| + |f| <= 18 then true
    else if |i| < 18 then
      var m := 18 - |i|;
      if scale <= m then !(JustBelowHalf(f, scale, m) && f[m] >= '5')
      else CutSurvives(i, f, m, f[m] >= '5', scale)
    else if scale == 0 then
      if 10 * Digits(i) <= INT64_MAX then f[0] < '5' else RoundedAt(i, f, 0) > INT64_MAX
    else CutSurvives(i, f, 0, false, scale)
  }

  /** parse_numeric returns the correctly rounded value of a numeral, or refuses one that does
      not fit, if and only if its digits meet the condition. */
  lemma {:induction false} ParseExactly(negative: bool, i: string, f: string, scale: nat, r: Parse)
    requires AllDigits(i) && AllDigits(f) && ParsesDigits(negative, i, f, scale, r)
    ensures CorrectlyRead(negative, Units(i, f), |f|, scale, r) <==> ReadCorrectly(i, f, scale)
  {
    if scale < |f| && |i| + scale <= 18 { FewDigitsFit(i, f, scale); }
    if f == "" {
      WithoutFraction(negative, i, scale, r);
    } else if |i| + |f| <= 18 {
      CorrectDigits(negative, i, f, scale, r);
    } else if |i| >= 18 {
      IgnoredFraction(negative, i, f, scale, r);
    } else if |i| + scale <= 18 {
      LongFractionExactly(negative, i, f, scale, r);
    } else {
      WideScale(negative, i, f, scale, r);
    }
  }

  lemma {:induction false} WithoutFraction(negative: bool, i: string, scale: nat, r: Parse)
    requires AllDigits(i) && ParsesDigits(negative, i, "", scale, r)
    ensures CorrectlyRounded(negative, Units(i, ""), 0, scale, r)
  {
    assert Pow10(0) == 1 && KeptUnits(i, "") == Digits(i) == Units(i, "");
    MulMono(1, Pow10(scale), Digits(i));
  }

  // A scale beyond the digits kept.
  lemma {:induction false} WideScale(negative: bool, i: string, f: string, scale: nat, r: Parse)
    requires AllDigits(i) && AllDigits(f) && |i| < 18 < |i| + |f| && |i| + scale > 18
    requires ParsesDigits(negative, i, f, scale, r)
    ensures CorrectlyRead(negative, Units(i, f), |f|, scale, r)
      <==> CutSurvives(i, f, 18 - |i|, f[18 - |i|] >= '5', scale)
  {
    var m := 18 - |i|;
    KeptFromLong(negative, i, f, scale, r);
    DigitsAppend(i, f[..m]);
    CutExactly(negative, i, f, m, f[m] >= '5', scale, r);
  }

  // An integer part that leaves no room for fraction digits.
  lemma {:induction false} IgnoredFraction(negative: bool, i: string, f: string, scale: nat, r: Parse)
    requires AllDigits(i) && AllDigits(f) && |i| >= 18 && f != "" && ParsesDigits(negative, i, f, scale, r)
    ensures CorrectlyRead(negative, Units(i, f), |f|, scale, r) <==> ReadCorrectly(i, f, scale)
  {
    var d := Digits(i);
    assert i + f[..0] == i && Pow10(1) == 10 && Pow10(0) == 1;
    assert KeptUnits(i, f) == 10 * d && KeptCount(|i|, f) == 1;
    if 10 * d <= INT64_MAX {
      AppendedZero(negative, d, scale, r);
      CutExactly(negative, i, f, 0, false, scale, r);
    } else if scale > 0 {
      Pow10Mono(1, scale);
      MulMono(10, Pow10(scale), d);
      CutExactly(negative, i, f, 0, false, scale, r);
    } else {
      RoundedAtIs(i, f, 0);
    }
  }

  /** For example `100000000000000000.9` at scale zero: the fraction is ignored. */
  lemma IgnoredFractionExample(i: string, f: string, r: Parse)
    requires i == "100000000000000000" && f == "9"
    ensures AllDigits(i) && AllDigits(f)
    ensures ParsesDigits(false, i, f, 0, r) ==>
      && !CorrectlyRead(false, Units(i, f), 1, 0, r) && !CorrectlyRounded(false, Units(i, f), 1, 0, r)
      && r == Parsed(100_000_000_000_000_000)
  {
    if ParsesDigits(false, i, f, 0, r) {
      OneAndZeros(i);
      ParseExactly(false, i, f, 0, r);
      IgnoredValue(i, f, r);
      FewDigitsFit(i, f, 0);
    }
  }

  lemma OneAndZeros(i: string)
    requires i == "100000000000000000"
    ensures AllDigits(i) && |i| == 18 && Digits(i) == 100_000_000_000_000_000
  {
    var z := "00000000000000000";
    assert i == "1" + z && "1"[..0] == "";
    ZerosExactly(z);
    DigitsAppend("1", z);
    Pow10Values();
  }

  lemma IgnoredValue(i: string, f: string, r: Parse)
    requires AllDigits(i) && AllDigits(f) && |i| >= 18 && f != "" && 10 * Digits(i) <= INT64_MAX
    requires ParsesDigits(false, i, f, 0, r)
    ensures r == Parsed(Digits(i))
  {
    assert Pow10(1) == 10 && Pow10(0) == 1;
    assert KeptCount(|i|, f) == 1 && KeptUnits(i, f) == 10 * Digits(i);
    AppendedZero(false, Digits(i), 0, r);
  }

  /** And `0.000000000000000001` at scale 18: the integer digit takes the place of the last. */
  lemma LastDigitExample(i: string, f: string, r: Parse)
    requires i == "0" && f == "000000000000000001"
    ensures AllDigits(i) && AllDigits(f)
    ensures ParsesDigits(false, i, f, 18, r) ==>
      !CorrectlyRounded(false, Units(i, f), 18, 18, r) && r == Parsed(0)
  {
    if ParsesDigits(false, i, f, 18, r) {
      LastDigitFails(i, f, r);
    }
  }

  lemma LastDigitFails(i: string, f: string, r: Parse)
    requires AllDigits(i) && AllDigits(f) && ParsesDigits(false, i, f, 18, r)
    requires |i| == 1 && |f| == 18 && i[0] == '0' && (forall j :: 0 <= j < 17 ==> f[j] == '0') && '0' < f[17] < '5'
    ensures !CorrectlyRounded(false, Units(i, f), 18, 18, r) && r == Parsed(0)
  {
    ZerosKept(i, f);
    KeptFromLong(false, i, f, 18, r);
    WideScale(false, i, f, 18, r);
  }

  lemma ZerosKept(i: string, f: string)
    requires AllDigits(i) && AllDigits(f) && |i| == 1 && |f| == 18 && i[0] == '0' && f[17] < '5'
    requires forall j :: 0 <= j < 17 ==> f[j] == '0'
    ensures Digits(i + f[..17]) == 0 == KeptUnits(i, f)
  {
    ZerosExactly(i + f[..17]);
    DigitsAppend(i, f[..17]);
  }

  /** A refusal that is right: twenty nines and a half do not fit at scale zero. */
  lemma RefusedExample(i: string, f: string, r: Parse)
    requires |i| == 20 && (forall k :: 0 <= k < |i| ==> i[k] == '9') && f == "5"
    ensures AllDigits(i) && AllDigits(f)
    ensures ParsesDigits(false, i, f, 0, r) ==> r == Throws && CorrectlyRead(false, Units(i, f), 1, 0, r)
  {
    if ParsesDigits(false, i, f, 0, r) {
      NinesExactly(i);
      Pow10Values();
      assert i + f[..0] == i;
      ParseExactly(false, i, f, 0, r);
    }
  }
}
