/** SQL LIKE (the like predicate, section 8.5 of ISO/IEC 9075-2, extended with `[...]`
    character lists) and the run-time matchers of StringLike.cpp. */
module LikeMatching {

  // Position of the first `]` of a pattern that starts with `[`, or the pattern's length.
  function CloseBracket(p: string): (k: nat)
    requires p != ""
    ensures 1 <= k <= |p|
    ensures forall j :: 1 <= j < k ==> p[j] != ']'
    ensures k < |p| ==> p[k] == ']'
  {
    CloseFrom(p, 1)
  }

  function CloseFrom(p: string, from: nat): (k: nat)
    requires from <= |p|
    ensures from <= k <= |p|
    ensures forall j :: from <= j < k ==> p[j] != ']'
    ensures k < |p| ==> p[k] == ']'
    decreases |p| - from
  {
    if from == |p| || p[from] == ']' then from else CloseFrom(p, from + 1)
  }

  /** `s` matches the LIKE pattern `p` with escape character `e`.  A pattern that ends in
      the escape character, or leaves a `[` open, matches nothing. */
  ghost predicate Like(p: string, e: char, s: string)
    decreases |p|
  {
    if p == "" then s == ""
    else if p[0] == e then |p| >= 2 && s != "" && s[0] == p[1] && Like(p[2..], e, s[1..])
    else if p[0] == '%' then exists k :: 0 <= k <= |s| && Like(p[1..], e, s[k..])
    else if p[0] == '_' then s != "" && Like(p[1..], e, s[1..])
    else if p[0] == '[' then
      var k := CloseBracket(p);
      k < |p| && s != "" && s[0] in p[1..k] && Like(p[k + 1..], e, s[1..])
    else s != "" && s[0] == p[0] && Like(p[1..], e, s[1..])
  }

  // Some suffix of `s` matches.
  ghost predicate LikeSomewhere(p: string, e: char, s: string) {
    exists k :: 0 <= k <= |s| && Like(p, e, s[k..])
  }

  datatype LikeStatus = LikeTrue | LikeFalse | LikeAbort | LikeError

  // ---------------------------------------------------------------------------
  // Facts about suffixes
  // ---------------------------------------------------------------------------

  lemma SomewhereSplit(p: string, e: char, s: string)
    ensures LikeSomewhere(p, e, s) <==> Like(p, e, s) || (s != "" && LikeSomewhere(p, e, s[1..]))
  {
    assert s[0..] == s;
    if s != "" {
      if LikeSomewhere(p, e, s[1..]) {
        var k :| 0 <= k <= |s[1..]| && Like(p, e, s[1..][k..]);
        assert s[1..][k..] == s[k + 1..];
      }
      if LikeSomewhere(p, e, s) && !Like(p, e, s) {
        var k :| 0 <= k <= |s| && Like(p, e, s[k..]);
        assert s[1..][k - 1..] == s[k..];
      }
    }
  }

  lemma SomewhereWildcard(p: string, e: char, s: string)
    requires p != "" && p[0] == '%' && e != '%'
    ensures LikeSomewhere(p, e, s) <==> LikeSomewhere(p[1..], e, s)
  {
    if LikeSomewhere(p, e, s) {
      var k :| 0 <= k <= |s| && Like(p, e, s[k..]);
      var j :| 0 <= j <= |s[k..]| && Like(p[1..], e, s[k..][j..]);
      assert s[k..][j..] == s[k + j..];
    }
    if LikeSomewhere(p[1..], e, s) {
      var k :| 0 <= k <= |s| && Like(p[1..], e, s[k..]);
      assert s[k..][0..] == s[k..];
      assert Like(p, e, s[k..]);
    }
  }

  lemma SomewhereAnyChar(p: string, e: char, s: string)
    requires p != "" && p[0] == '_' && e != '_'
    ensures LikeSomewhere(p, e, s) <==> s != "" && LikeSomewhere(p[1..], e, s[1..])
  {
    if LikeSomewhere(p, e, s) {
      var k :| 0 <= k <= |s| && Like(p, e, s[k..]);
      assert s[k..][1..] == s[1..][k..];
    }
    if s != "" && LikeSomewhere(p[1..], e, s[1..]) {
      var k :| 0 <= k <= |s[1..]| && Like(p[1..], e, s[1..][k..]);
      assert s[k..][1..] == s[1..][k..];
      assert Like(p, e, s[k..]);
    }
  }

  // The pattern's first element consumes exactly one character of the string.
  predicate TakesOne(p: string, e: char) {
    p != "" && (p[0] == e || p[0] != '%')
  }

  // What is left of the pattern after its first one-character element.
  function AfterOne(p: string, e: char): string
    requires TakesOne(p, e)
  {
    if p[0] == e then (if |p| >= 2 then p[2..] else "")
    else if p[0] == '[' && e != '[' then
      (if CloseBracket(p) < |p| then p[CloseBracket(p) + 1..] else "")
    else p[1..]
  }

  // Whether the first element is well formed and accepts the character.
  predicate Accepts(p: string, e: char, c: char)
    requires TakesOne(p, e)
  {
    if p[0] == e then |p| >= 2 && c == p[1]
    else if p[0] == '_' then true
    else if p[0] == '[' then CloseBracket(p) < |p| && c in p[1..CloseBracket(p)]
    else c == p[0]
  }

  lemma OneStep(p: string, e: char, s: string)
    requires TakesOne(p, e)
    ensures Like(p, e, s) <==> s != "" && Accepts(p, e, s[0]) && Like(AfterOne(p, e), e, s[1..])
  {
  }

  // If some suffix of a string matches, then one character on some suffix of the rest of
  // the string matches the rest of the pattern.
  lemma SomewhereStep(p: string, e: char, s: string)
    requires TakesOne(p, e) && s != "" && LikeSomewhere(p, e, s)
    ensures LikeSomewhere(AfterOne(p, e), e, s[1..])
  {
    var k :| 0 <= k <= |s| && Like(p, e, s[k..]);
    OneStep(p, e, s[k..]);
    assert s[k..][1..] == s[1..][k..];
  }

  lemma NothingSomewhere(p: string, e: char)
    requires TakesOne(p, e)
    ensures !LikeSomewhere(p, e, "") && !Like(p, e, "")
  {
  }

  // ---------------------------------------------------------------------------
  // The matchers
  // ---------------------------------------------------------------------------

  predicate OccursAt(s: string, x: string, i: nat) {
    i + |x| <= |s| && s[i..i + |x|] == x
  }

  ghost predicate Contains(s: string, x: string) {
    exists i: nat :: OccursAt(s, x, i)
  }

  /** string_like_simple: plain substring search. */
  method StringLikeSimple(str: string, pattern: string) returns (found: bool)
    ensures found <==> Contains(str, pattern)
  {
    var searchLen := |str| - |pattern| + 1;
    var i := 0;
    while i < searchLen
      invariant 0 <= i
      invariant forall k: nat :: k < i ==> !OccursAt(str, pattern, k)
    {
      var j := 0;
      while j < |pattern| && pattern[j] == str[j + i]
        invariant 0 <= j <= |pattern|
        invariant forall k :: 0 <= k < j ==> pattern[k] == str[k + i]
      {
        j := j + 1;
      }
      if j >= |pattern| {
        assert OccursAt(str, pattern, i);
        return true;
      }
      assert str[i..i + |pattern|][j] != pattern[j];
      i := i + 1;
    }
    return false;
  }

  // Whether the list of a `[` at the head of `p` contains `c`: scans up to the `]`.
  method ScanList(p: string, c: char) returns (found: bool, pos: nat)
    requires p != "" && p[0] == '['
    ensures 1 <= pos <= |p|
    ensures found ==> pos < CloseBracket(p) && p[pos] == c
    ensures !found ==> pos == CloseBracket(p) && c !in p[1..CloseBracket(p)]
  {
    pos, found := 1, false;
    while pos < |p| && p[pos] != ']'
      invariant 1 <= pos <= |p|
      invariant forall j :: 1 <= j < pos ==> p[j] != ']' && p[j] != c
    {
      if c == p[pos] {
        found := true;
        CloseBeyond(p, pos);
        return;
      }
      pos := pos + 1;
    }
    CloseIs(p, pos);
  }

  lemma CloseIs(p: string, k: nat)
    requires p != "" && 1 <= k <= |p|
    requires forall j :: 1 <= j < k ==> p[j] != ']'
    requires k < |p| ==> p[k] == ']'
    ensures CloseBracket(p) == k
  {
  }

  lemma CloseBeyond(p: string, k: nat)
    requires p != "" && 1 <= k < |p|
    requires forall j :: 1 <= j <= k ==> p[j] != ']'
    ensures k < CloseBracket(p)
  {
  }

  // Matches one character against the first element of the pattern.
  method MatchElement(p: string, e: char, c: char) returns (status: LikeStatus, rest: string)
    requires TakesOne(p, e) && e != '%' && e != '_'
    ensures status == LikeTrue || status == LikeFalse || status == LikeError
    ensures status == LikeTrue ==> Accepts(p, e, c) && rest == AfterOne(p, e)
    ensures status == LikeFalse ==> !Accepts(p, e, c)
    ensures status == LikeError ==> forall d: char :: !Accepts(p, e, d)
  {
    rest := "";
    if p[0] == e {
      if |p| < 2 {
        return LikeError, rest;
      }
      if c != p[1] {
        return LikeFalse, rest;
      }
      return LikeTrue, p[2..];
    } else if p[0] == '_' {
      return LikeTrue, p[1..];
    } else if p[0] == '[' {
      var found, pos := ScanList(p, c);
      if !found {
        return LikeFalse, rest;
      }
      assert p[pos] == p[1..CloseBracket(p)][pos - 1];
      while pos < |p| && p[pos] != ']'
        invariant 1 <= pos <= CloseBracket(p)
      {
        pos := pos + 1;
      }
      if pos >= |p| {
        return LikeError, rest;
      }
      return LikeTrue, p[pos + 1..];
    } else {
      if c != p[0] {
        return LikeFalse, rest;
      }
      return LikeTrue, p[1..];
    }
  }

  lemma AcceptsNothing(p: string, e: char)
    requires TakesOne(p, e) && forall d: char :: !Accepts(p, e, d)
    ensures forall t: string :: !Like(p, e, t)
  {
    forall t: string ensures !Like(p, e, t) { OneStep(p, e, t); }
  }

  // The matcher's progress from (str, pattern) to (s, p).
  ghost predicate Progress(pattern: string, str: string, p: string, s: string, e: char) {
    && (Like(pattern, e, str) <==> Like(p, e, s))
    && (LikeSomewhere(pattern, e, str) ==> LikeSomewhere(p, e, s))
    && ((forall t: string :: !Like(p, e, t)) ==> forall t: string :: !Like(pattern, e, t))
  }

  lemma ProgressStep(pattern: string, str: string, p: string, s: string, e: char)
    requires Progress(pattern, str, p, s, e) && TakesOne(p, e) && s != "" && Accepts(p, e, s[0])
    ensures Progress(pattern, str, AfterOne(p, e), s[1..], e)
  {
    OneStep(p, e, s);
    if LikeSomewhere(p, e, s) { SomewhereStep(p, e, s); }
    if forall t: string :: !Like(AfterOne(p, e), e, t) {
      forall t: string ensures !Like(p, e, t) { OneStep(p, e, t); }
    }
  }

  /** string_like_match: the backtracking matcher.  An abort says more than a mismatch: no
      later start can succeed either, so the enclosing search may stop. */
  method StringLikeMatch(str: string, pattern: string, e: char) returns (status: LikeStatus)
    requires e != '%' && e != '_'
    ensures status == LikeTrue <==> Like(pattern, e, str)
    ensures status == LikeAbort ==> !LikeSomewhere(pattern, e, str)
    ensures status == LikeError ==> forall t: string :: !Like(pattern, e, t)
    decreases |pattern|, 1
  {
    var s, p := str, pattern;
    while s != "" && p != ""
      invariant |p| <= |pattern|
      invariant Progress(pattern, str, p, s, e)
      decreases |s|
    {
      if p[0] == '%' {
        status := MatchAfterWildcard(s, p, e);
        return;
      }
      var rest;
      OneStep(p, e, s);
      status, rest := MatchElement(p, e, s[0]);
      if status != LikeTrue {
        if status == LikeError { AcceptsNothing(p, e); }
        return;
      }
      ProgressStep(pattern, str, p, s, e);
      s, p := s[1..], rest;
    }
    if s != "" {
      return LikeFalse;
    }
    while p != "" && p[0] == '%'
      invariant Progress(pattern, str, p, "", e)
      decreases |p|
    {
      WildcardOnNothing(p, e);
      SomewhereWildcard(p, e, "");
      p := p[1..];
    }
    if p == "" {
      return LikeTrue;
    }
    NothingSomewhere(p, e);
    return LikeAbort;
  }

  lemma WildcardOnNothing(p: string, e: char)
    requires p != "" && p[0] == '%' && e != '%'
    ensures Like(p, e, "") <==> Like(p[1..], e, "")
    ensures (forall t: string :: !Like(p[1..], e, t)) ==> forall t: string :: !Like(p, e, t)
  {
    var t: string := "";
    assert t[0..] == t;
    if Like(p[1..], e, t) {
      assert 0 <= 0 <= |t| && Like(p[1..], e, t[0..]);
    }
  }

  // The branch of the matcher for a `%` at the head of the pattern.
  method MatchAfterWildcard(str: string, pattern: string, e: char) returns (status: LikeStatus)
    requires e != '%' && e != '_' && pattern != "" && pattern[0] == '%'
    ensures status == LikeTrue <==> Like(pattern, e, str)
    ensures status == LikeAbort ==> !LikeSomewhere(pattern, e, str)
    ensures status == LikeError ==> forall t: string :: !Like(pattern, e, t)
    decreases |pattern|, 0
  {
    var s, p := str, pattern[1..];
    SomewhereWildcard(pattern, e, str);
    WildcardError(pattern, e);
    while p != "" && (p[0] == '%' || p[0] == '_')
      invariant |p| < |pattern|
      invariant LikeSomewhere(pattern[1..], e, str) <==> LikeSomewhere(p, e, s)
      invariant (exists t: string :: Like(pattern, e, t)) ==> exists t: string :: LikeSomewhere(p, e, t)
      decreases |p|
    {
      SomewhereOnward(p, e);
      if p[0] == '%' {
        SomewhereWildcard(p, e, s);
      } else {
        SomewhereAnyChar(p, e, s);
        if s == "" {
          return LikeAbort;
        }
        s := s[1..];
      }
      p := p[1..];
    }
    if p == "" {
      EmptyMatchesSomewhere(e, s);
      return LikeTrue;
    }
    ElementError(p, e);
    if p[0] == e && |p| < 2 {
      return LikeError;
    }
    ghost var rest := s;
    while s != ""
      invariant LikeSomewhere(p, e, rest) <==> LikeSomewhere(p, e, s)
      decreases |s|
    {
      SomewhereSplit(p, e, s);
      OneStep(p, e, s);
      var match_: bool;
      if p[0] == '[' && p[0] != e {
        var pos;
        match_, pos := ScanList(p, s[0]);
        if pos >= |p| {
          return LikeError;
        }
      } else {
        match_ := s[0] == (if p[0] == e then p[1] else p[0]);
      }
      if match_ {
        status := StringLikeMatch(s, p, e);
        if status != LikeFalse {
          if status == LikeError { ErrorEverywhere(p, e); }
          return;
        }
      }
      s := s[1..];
    }
    NothingSomewhere(p, e);
    return LikeAbort;
  }

  lemma WildcardError(p: string, e: char)
    requires p != "" && p[0] == '%' && e != '%'
    ensures forall s: string :: Like(p, e, s) <==> LikeSomewhere(p[1..], e, s)
  {
  }

  lemma SomewhereOnward(p: string, e: char)
    requires p != "" && (p[0] == '%' || p[0] == '_') && e != '%' && e != '_'
    ensures (exists t: string :: LikeSomewhere(p, e, t)) ==> exists t: string :: LikeSomewhere(p[1..], e, t)
  {
    if t: string :| LikeSomewhere(p, e, t) {
      if p[0] == '%' { SomewhereWildcard(p, e, t); } else { SomewhereAnyChar(p, e, t); }
    }
  }

  lemma EmptyMatchesSomewhere(e: char, s: string)
    ensures LikeSomewhere("", e, s)
  {
    assert s[|s|..] == "";
    assert Like("", e, s[|s|..]);
  }

  lemma ErrorEverywhere(p: string, e: char)
    requires forall t: string :: !Like(p, e, t)
    ensures forall t: string :: !LikeSomewhere(p, e, t)
  {
  }

  // A first element that is malformed matches nothing.
  lemma ElementError(p: string, e: char)
    requires TakesOne(p, e)
    ensures p[0] == e && |p| < 2 ==> forall t: string :: !LikeSomewhere(p, e, t)
    ensures p[0] != e && p[0] == '[' && CloseBracket(p) == |p| ==> forall t: string :: !LikeSomewhere(p, e, t)
  {
  }

  /** string_like decides LIKE. */
  method StringLike(str: string, pattern: string, e: char) returns (result: bool)
    requires e != '%' && e != '_'
    ensures result <==> Like(pattern, e, str)
  {
    var status := StringLikeMatch(str, pattern, e);
    result := status == LikeTrue;
  }
}
