/** LIKE patterns that reduce to plain substring search (Analyzer.cpp), and how getLikeExpr
    and getRegexpExpr chain the rewritings. */
module SimpleLike {
  import opened Basics
  import opened LikeMatching
  import opened PatternRewriting

  predicate IsSpecial(c: char) {
    c == '%' || c == '_' || c == '[' || c == ']'
  }

  // An escape character with a meaning of its own in patterns, or the initial "previous
  // character" of the erasing loop, is outside the rewriting's contract.
  predicate UsableEscape(e: char) {
    e != '\0' && !IsSpecial(e)
  }

  predicate IsSimple(p: string, e: char) {
    && |p| >= 2 && p[0] == '%' && p[|p| - 1] == '%'
    && !(p[|p| - 2] == e && (|p| < 3 || p[|p| - 3] != e))
    && forall i :: 1 <= i < |p| - 1 && IsSpecial(p[i]) ==> p[i - 1] == e
  }

  /** test_is_simple_expr. */
  method TestIsSimple(like: string, e: char) returns (simple: bool)
    requires !(like == "%%" && e == '%')
    ensures simple <==> IsSimple(like, e)
  {
    if |like| < 2 || like[0] != '%' || like[|like| - 1] != '%' {
      return false;
    }
    if like[|like| - 2] == e && like[|like| - 3] != e {
      return false;
    }
    for i := 1 to |like| - 1
      invariant forall k :: 1 <= k < i && IsSpecial(like[k]) ==> like[k - 1] == e
    {
      if like[i] == '%' || like[i] == '_' || like[i] == '[' || like[i] == ']' {
        if like[i - 1] != e {
          return false;
        }
      }
    }
    return true;
  }

  // The characters that survive erasing, given the character before.
  function Erased(prev: char, p: string, e: char): string
    decreases |p|
  {
    if p == "" then ""
    else if (p[0] == '%' || p[0] == e) && prev != e then Erased(p[0], p[1..], e)
    else [p[0]] + Erased(p[0], p[1..], e)
  }

  /** erase_cntl_chars. */
  method EraseControlChars(like: string, e: char) returns (result: string)
    ensures result == Erased('\0', like, e)
  {
    var prev := '\0';
    result := "";
    assert like[0..] == like;
    for i := 0 to |like|
      invariant Erased('\0', like, e) == result + Erased(prev, like[i..], e)
    {
      var cur := like[i];
      assert like[i..][1..] == like[i + 1..];
      if (cur == '%' || cur == e) && prev != e {
        prev := cur;
      } else {
        result := result + [cur];
        prev := cur;
      }
    }
  }

  // No escaped escape character is directly followed by `%`, `_`, `[` or the escape
  // character.  `after` says that one has just been read.
  predicate Clean(p: string, e: char, after: bool) {
    if p == "" then true
    else if after && (p[0] == '%' || p[0] == '_' || p[0] == '[' || p[0] == e) then false
    else if p[0] == e then |p| < 2 || Clean(p[2..], e, p[1] == e)
    else Clean(p[1..], e, false)
  }

  // ---------------------------------------------------------------------------
  // Clean patterns: LIKE is substring search
  // ---------------------------------------------------------------------------

  // The character before position `i` of a text read after `prev`.
  function Before(prev: char, q: string, i: nat): char
    requires i < |q|
  {
    if i == 0 then prev else q[i - 1]
  }

  // The suffix `q` of a simple pattern, read after the character `prev`.
  predicate SimpleRest(prev: char, q: string, e: char) {
    && q != "" && q[|q| - 1] == '%'
    && (forall i :: 0 <= i < |q| - 1 && IsSpecial(q[i]) ==> Before(prev, q, i) == e)
    && (|q| >= 2 && q[|q| - 2] == e ==> (if |q| == 2 then prev else q[|q| - 3]) == e)
  }

  lemma SimpleRestTail(prev: char, q: string, n: nat, e: char)
    requires SimpleRest(prev, q, e) && 1 <= n < |q|
    ensures SimpleRest(q[n - 1], q[n..], e)
  {
  }

  // A clean suffix matches the strings that start with its erased form.
  lemma {:induction false} CleanIsPrefix(prev: char, q: string, e: char, s: string)
    requires UsableEscape(e) && SimpleRest(prev, q, e) && Clean(q, e, prev == e)
    ensures Like(q, e, s) <==> Erased(prev, q, e) <= s
    decreases |q|
  {
    if |q| == 1 {
      assert q == "%";
      assert q[1..] == "" && Erased(prev, q, e) == "";
      assert s[|s|..] == "" && Like(q[1..], e, s[|s|..]);
    } else if q[0] == e {
      SimpleRestTail(prev, q, 2, e);
      var r := Erased(q[1], q[2..], e);
      assert q[1..][1..] == q[2..];
      assert Erased(prev, q, e) == [q[1]] + r;
      if s != "" {
        CleanIsPrefix(q[1], q[2..], e, s[1..]);
        PrefixStep(q[1], r, s);
      }
    } else {
      SimpleRestTail(prev, q, 1, e);
      assert IsSpecial(q[0]) ==> Before(prev, q, 0) == e;
      var r := Erased(q[0], q[1..], e);
      assert Erased(prev, q, e) == [q[0]] + r;
      if s != "" {
        CleanIsPrefix(q[0], q[1..], e, s[1..]);
        PrefixStep(q[0], r, s);
      }
    }
  }

  lemma PrefixStep(c: char, r: string, s: string)
    requires s != ""
    ensures [c] + r <= s <==> s[0] == c && r <= s[1..]
  {
  }

  lemma ContainsIsSomePrefix(s: string, x: string)
    ensures Contains(s, x) <==> exists k :: 0 <= k <= |s| && x <= s[k..]
  {
    if i: nat :| OccursAt(s, x, i) {
      assert s[i..][..|x|] == s[i..i + |x|];
    }
    if k :| 0 <= k <= |s| && x <= s[k..] {
      assert s[k..][..|x|] == s[k..k + |x|];
      assert OccursAt(s, x, k);
    }
  }

  lemma SimpleIsWildcardThenRest(p: string, e: char)
    requires UsableEscape(e) && IsSimple(p, e)
    ensures SimpleRest('%', p[1..], e)
    ensures Erased('\0', p, e) == Erased('%', p[1..], e)
    ensures Clean(p, e, false) <==> Clean(p[1..], e, false)
    ensures forall s: string :: Like(p, e, s) <==> LikeSomewhere(p[1..], e, s)
  {
  }

  /** A clean simple pattern is substring search for its erased form. */
  lemma {:induction false} CleanSimpleIsSubstring(p: string, e: char, s: string)
    requires UsableEscape(e) && IsSimple(p, e) && Clean(p, e, false)
    ensures Like(p, e, s) <==> Contains(s, Erased('\0', p, e))
  {
    SimpleIsWildcardThenRest(p, e);
    ContainsIsSomePrefix(s, Erased('\0', p, e));
    forall k | 0 <= k <= |s| ensures Like(p[1..], e, s[k..]) <==> Erased('%', p[1..], e) <= s[k..] {
      CleanIsPrefix('%', p[1..], e, s[k..]);
    }
  }

  // ---------------------------------------------------------------------------
  // Other simple patterns: a string tells LIKE and substring search apart
  // ---------------------------------------------------------------------------

  predicate Complete(p: string, e: char)
    decreases |p|
  {
    if p == "" then true
    else if p[0] == e then |p| >= 2 && Complete(p[2..], e)
    else if p[0] == '[' then CloseBracket(p) < |p| && Complete(p[CloseBracket(p) + 1..], e)
    else Complete(p[1..], e)
  }

  lemma {:induction false} IncompleteMatchesNothing(p: string, e: char, s: string)
    requires UsableEscape(e) && !Complete(p, e)
    ensures !Like(p, e, s)
    decreases |p|
  {
    if p[0] == '%' {
      forall k | 0 <= k <= |s| ensures !Like(p[1..], e, s[k..]) { IncompleteMatchesNothing(p[1..], e, s[k..]); }
    } else if s != "" {
      var rest := AfterOne(p, e);
      OneStep(p, e, s);
      if Accepts(p, e, s[0]) { IncompleteMatchesNothing(rest, e, s[1..]); }
    }
  }

  // A shortest string that a complete pattern matches; `_` is met with a letter.
  function Shortest(p: string, e: char): string
    requires Complete(p, e)
    decreases |p|
  {
    if p == "" then ""
    else if p[0] == e then [p[1]] + Shortest(p[2..], e)
    else if p[0] == '%' then Shortest(p[1..], e)
    else if p[0] == '_' then ['a'] + Shortest(p[1..], e)
    else if p[0] == '[' then [p[1]] + Shortest(p[CloseBracket(p) + 1..], e)
    else [p[0]] + Shortest(p[1..], e)
  }

  // Every `_`, `[` and `]` directly follows the escape character.
  predicate Escaped(prev: char, q: string, e: char) {
    forall i :: 0 <= i < |q| && (q[i] == '_' || q[i] == '[' || q[i] == ']') ==>
      Before(prev, q, i) == e
  }

  lemma EscapedTail(prev: char, q: string, n: nat, e: char)
    requires Escaped(prev, q, e) && 1 <= n <= |q|
    ensures Escaped(q[n - 1], q[n..], e)
  {
  }

  lemma {:induction false} ShortestMatches(prev: char, q: string, e: char)
    requires UsableEscape(e) && Complete(q, e) && Escaped(prev, q, e)
    ensures Like(q, e, Shortest(q, e))
    decreases |q|
  {
    var x := Shortest(q, e);
    if q == "" {
    } else if q[0] == '%' {
      EscapedTail(prev, q, 1, e);
      ShortestMatches(q[0], q[1..], e);
      assert x[0..] == x;
    } else {
      var rest := AfterOne(q, e);
      var n := |q| - |rest|;
      assert rest == q[n..];
      EscapedTail(prev, q, n, e);
      ShortestMatches(q[n - 1], rest, e);
      if q[0] == '[' {
        ListNotEmpty(prev, q, e);
        assert q[1] == q[1..CloseBracket(q)][0];
      }
      assert x[1..] == Shortest(rest, e);
      OneStep(q, e, x);
    }
  }

  lemma ListNotEmpty(prev: char, q: string, e: char)
    requires UsableEscape(e) && Escaped(prev, q, e) && q != "" && q[0] == '[' && CloseBracket(q) < |q|
    ensures CloseBracket(q) >= 2
  {
  }

  lemma {:induction false} ErasedSplit(prev: char, a: string, b: string, e: char)
    ensures Erased(prev, a + b, e) == Erased(prev, a, e) + Erased(if a == "" then prev else a[|a| - 1], b, e)
    decreases |a|
  {
    if a == "" {
      assert a + b == b;
    } else {
      assert (a + b)[1..] == a[1..] + b;
      ErasedSplit(a[0], a[1..], b, e);
      if |a| > 1 { assert a[1..][|a[1..]| - 1] == a[|a| - 1]; }
    }
  }

  // Erasing keeps at least the brackets of a list.
  lemma {:induction false} ErasedList(prev: char, q: string, e: char)
    requires UsableEscape(e) && q != "" && q[0] == '[' && CloseBracket(q) < |q|
    ensures |Erased(prev, q, e)| >= 2 + |Erased(']', q[CloseBracket(q) + 1..], e)|
  {
    var k := CloseBracket(q);
    var list, rest := q[1..k + 1], q[k + 1..];
    assert q[1..] == list + rest;
    ErasedSplit('[', list, rest, e);
    assert list == q[1..k] + [']'] && list[|list| - 1] == ']';
    ErasedSplit('[', q[1..k], [']'], e);
    assert forall c: char :: |Erased(c, [']'], e)| == 1;
  }

  /** The erased form is never shorter than the shortest match, and if it is that match
      then the pattern is clean. */
  lemma {:induction false} ErasedVersusShortest(prev: char, q: string, e: char)
    requires UsableEscape(e) && Complete(q, e) && Escaped(prev, q, e)
    ensures |Erased(prev, q, e)| >= |Shortest(q, e)|
    ensures Erased(prev, q, e) == Shortest(q, e) ==> Clean(q, e, prev == e)
    decreases |q|
  {
    if q == "" {
    } else if q[0] == e {
      EscapedTail(prev, q, 2, e);
      ErasedVersusShortest(q[1], q[2..], e);
      AfterEscape(prev, q, e);
    } else if q[0] == '[' {
      var k := CloseBracket(q);
      EscapedTail(prev, q, k + 1, e);
      ErasedVersusShortest(']', q[k + 1..], e);
      ErasedList(prev, q, e);
    } else {
      EscapedTail(prev, q, 1, e);
      ErasedVersusShortest(q[0], q[1..], e);
      AfterPlain(prev, q, e);
    }
  }

  lemma AfterEscape(prev: char, q: string, e: char)
    requires UsableEscape(e) && Complete(q, e) && q != "" && q[0] == e
    requires |Erased(q[1], q[2..], e)| >= |Shortest(q[2..], e)|
    requires Erased(q[1], q[2..], e) == Shortest(q[2..], e) ==> Clean(q[2..], e, q[1] == e)
    ensures |Erased(prev, q, e)| >= |Shortest(q, e)|
    ensures Erased(prev, q, e) == Shortest(q, e) ==> Clean(q, e, prev == e)
  {
    var r', x' := Erased(q[1], q[2..], e), Shortest(q[2..], e);
    assert q[1..][1..] == q[2..];
    assert Erased(e, q[1..], e) == [q[1]] + r';
    assert Shortest(q, e) == [q[1]] + x';
    if prev == e {
      assert Erased(prev, q, e) == [e] + ([q[1]] + r');
    } else {
      assert Erased(prev, q, e) == [q[1]] + r';
      SameTail([q[1]] + r', [q[1]] + x', r', x');
    }
  }

  lemma AfterPlain(prev: char, q: string, e: char)
    requires UsableEscape(e) && Complete(q, e) && Escaped(prev, q, e) && q != "" && q[0] != e && q[0] != '['
    requires |Erased(q[0], q[1..], e)| >= |Shortest(q[1..], e)|
    requires Erased(q[0], q[1..], e) == Shortest(q[1..], e) ==> Clean(q[1..], e, q[0] == e)
    ensures |Erased(prev, q, e)| >= |Shortest(q, e)|
    ensures Erased(prev, q, e) == Shortest(q, e) ==> Clean(q, e, prev == e)
  {
    assert q[0] == '_' || q[0] == ']' ==> Before(prev, q, 0) == e;
    var r, x := Erased(prev, q, e), Shortest(q, e);
    SameTail(r, x, Erased(q[0], q[1..], e), Shortest(q[1..], e));
  }

  lemma SameTail(r: string, x: string, r': string, x': string)
    requires |r'| >= |x'| && |r'| <= |r| && |x'| <= |x|
    requires r[|r| - |r'|..] == r' && x[|x| - |x'|..] == x'
    ensures r == x && |r'| == |x'| ==> r' == x'
  {
  }

  lemma SimpleIsEscaped(p: string, e: char)
    requires UsableEscape(e) && IsSimple(p, e)
    ensures Escaped('%', p[1..], e)
  {
  }

  lemma ContainsLonger(s: string, x: string)
    requires |x| >= |s| && Contains(s, x)
    ensures s == x
  {
  }

  // The string on which an unclean simple pattern and its erased form differ.
  lemma {:induction false} UncleanDiffers(p: string, e: char) returns (s: string)
    requires UsableEscape(e) && IsSimple(p, e) && !Clean(p, e, false)
    ensures Like(p, e, s) != Contains(s, Erased('\0', p, e))
  {
    var q, x := p[1..], Erased('\0', p, e);
    SimpleIsWildcardThenRest(p, e);
    SimpleIsEscaped(p, e);
    if Complete(q, e) {
      s := Shortest(q, e);
      ShortestMatches('%', q, e);
      assert s[0..] == s;
      ErasedVersusShortest('%', q, e);
      if Contains(s, x) { ContainsLonger(s, x); }
    } else {
      s := x;
      forall k | 0 <= k <= |s| ensures !Like(q, e, s[k..]) { IncompleteMatchesNothing(q, e, s[k..]); }
      assert s[0..0 + |x|] == x;
      assert OccursAt(s, x, 0);
    }
  }

  /** The rewriting to substring search is right for every string if and only if no escaped
      escape character is directly followed by `%`, `_`, `[` or the escape character. */
  lemma {:induction false} SimpleLikeExactly(p: string, e: char)
    requires UsableEscape(e) && IsSimple(p, e)
    ensures (forall s: string :: Like(p, e, s) <==> Contains(s, Erased('\0', p, e))) <==> Clean(p, e, false)
  {
    if Clean(p, e, false) {
      forall s: string ensures Like(p, e, s) <==> Contains(s, Erased('\0', p, e)) {
        CleanSimpleIsSubstring(p, e, s);
      }
    } else {
      var s := UncleanDiffers(p, e);
    }
  }

  /** For example `%\\%`, an escaped backslash anywhere in the string: it is rewritten to a
      search for backslash-percent, which the string of one backslash does not contain. */
  lemma EscapedEscapeExample()
    ensures IsSimple("%\\\\%", '\\') && !Clean("%\\\\%", '\\', false)
    ensures Erased('\0', "%\\\\%", '\\') == "\\%" && !Contains("\\", "\\%")
    ensures Like("%\\\\%", '\\', "\\")
  {
    var p, e, s := "%\\\\%", '\\', "\\";
    assert p[1..] == "\\\\%" && p[1..][1..] == "\\%" && p[1..][2..] == "%" && p[1..][1..][1..] == "%";
    assert !Clean(p[1..][2..], e, true);
    assert !Clean(p[1..], e, false);
    assert Erased(e, "%", e) == "%";
    assert Erased(e, "\\%", e) == "\\%";
    assert Erased('%', "\\\\%", e) == "\\%";
    EscapedThenAnything(p, e, s);
  }

  // One escaped character between wildcards matches the character alone.
  lemma EscapedThenAnything(p: string, e: char, s: string)
    requires |p| == 4 && p[0] == '%' && p[1] == e && p[3] == '%' && e != '%' && s == [p[2]]
    ensures Like(p, e, s)
  {
    var wildcard, nothing := p[1..][2..], s[1..];
    assert wildcard == ['%'] && wildcard[1..] == "" && nothing[0..] == "";
    assert Like(wildcard, e, nothing);
    assert s[0..] == s && Like(p[1..], e, s[0..]);
  }

  // ---------------------------------------------------------------------------
  // The predicates built for LIKE and REGEXP
  // ---------------------------------------------------------------------------

  // How a predicate is evaluated at run time: `simple` selects string_like_simple.
  datatype Plan = LikePlan(pattern: string, escape: char, simple: bool) | RegexpPlan(pattern: string)

  datatype Outcome = Planned(plan: Plan) | Rejected

  ghost predicate LikePlanHolds(plan: Plan, s: string)
    requires plan.LikePlan?
  {
    if plan.simple then Contains(s, plan.pattern) else Like(plan.pattern, plan.escape, s)
  }

  /** getLikeExpr on a constant pattern: rejects a pattern that ends with the escape
      character, otherwise plans a predicate that is LIKE on every string, unless the
      pattern is simple and not clean. */
  method GetLikeExpr(pattern: string, escape: char) returns (r: Outcome)
    requires pattern != "" && UsableEscape(escape)
    ensures r.Rejected? <==> pattern[|pattern| - 1] == escape
    ensures r.Planned? ==> r.plan.LikePlan? && (r.plan.simple <==> IsSimple(pattern, escape))
    ensures r.Planned? ==>
      ((forall s: string :: LikePlanHolds(r.plan, s) <==> Like(pattern, escape, s))
       <==> (IsSimple(pattern, escape) ==> Clean(pattern, escape, false)))
  {
    if pattern[|pattern| - 1] == escape {
      return Rejected;
    }
    var simple := TestIsSimple(pattern, escape);
    var result := pattern;
    if simple {
      result := EraseControlChars(pattern, escape);
      SimpleLikeExactly(pattern, escape);
    }
    r := Planned(LikePlan(result, escape, simple));
  }

  lemma {:induction false} NoEscapeIsClean(p: string, e: char)
    requires e !in p
    ensures Clean(p, e, false)
  {
    if p != "" { NoEscapeIsClean(p[1..], e); }
  }

  lemma {:induction false} TranslatedHasNoEscape(p: string, e: char)
    requires Translated(p).Some? && !IsOrdinary(e) && e != '%' && e != '_'
    ensures e !in Translated(p).value
    ensures p != "" ==> Translated(p).value != ""
    decreases |p|
  {
    if p != "" {
      TranslatedHasNoEscape(p[if p[0] == '.' && |p| > 1 && (p[1] == '*' || p[1] == '+') then 2 else 1..], e);
    }
  }

  /** getRegexpExpr on a constant pattern, with the one escape character it supports: if a
      LIKE predicate is planned, it holds of exactly the strings that match the regular
      expression as a whole. */
  method GetRegexpExpr(pattern: string) returns (r: Outcome)
    requires pattern != ""
    ensures r.Planned? && (r.plan.LikePlan? <==> Translated(pattern).Some?)
    ensures r.plan.RegexpPlan? ==> r.plan.pattern == pattern
    ensures r.plan.LikePlan? ==> ReadRegex(pattern).Some?
    ensures r.plan.LikePlan? ==>
      forall s: string :: LikePlanHolds(r.plan, s) <==> Matches(ReadRegex(pattern).value, s)
  {
    var ok, like := TranslateToLikePattern(pattern, '\\');
    if ok {
      TranslatedHasNoEscape(pattern, '\\');
      NoEscapeIsClean(like, '\\');
      r := GetLikeExpr(like, '\\');
      forall s: string
        ensures ReadRegex(pattern).Some? && (Like(like, '\\', s) <==> Matches(ReadRegex(pattern).value, s))
      {
        TranslationPreservesLanguage(pattern, '\\', s);
      }
      TranslationPreservesLanguage(pattern, '\\', "");
    } else {
      r := Planned(RegexpPlan(pattern));
    }
  }

  /** A regular expression whose translation is simple is substring search. */
  lemma RegexToSubstring(p: string, s: string)
    requires Translated(p).Some? && IsSimple(Translated(p).value, '\\')
    ensures ReadRegex(p).Some?
    ensures Matches(ReadRegex(p).value, s) <==> Contains(s, Erased('\0', Translated(p).value, '\\'))
  {
    TranslationPreservesLanguage(p, '\\', s);
    TranslatedHasNoEscape(p, '\\');
    NoEscapeIsClean(Translated(p).value, '\\');
    CleanSimpleIsSubstring(Translated(p).value, '\\', s);
  }

  /** Running a planned LIKE predicate. */
  method RunLikePlan(plan: Plan, s: string) returns (result: bool)
    requires plan.LikePlan? && UsableEscape(plan.escape)
    ensures result <==> LikePlanHolds(plan, s)
  {
    if plan.simple {
      result := StringLikeSimple(s, plan.pattern);
    } else {
      result := StringLike(s, plan.pattern, plan.escape);
    }
  }
}
