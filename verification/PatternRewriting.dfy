/** Rewriting of pattern predicates (Analyzer.cpp): a regular expression to LIKE, and LIKE
    to plain substring search. */
module PatternRewriting {
  import opened Basics
  import opened LikeMatching

  // ---------------------------------------------------------------------------
  // Regular expressions
  // ---------------------------------------------------------------------------

  datatype Regex = Empty | Chr(c: char) | Dot | Star(body: Regex) | Plus(body: Regex) | Seq(first: Regex, second: Regex)

  // The whole string matches the expression.
  ghost predicate Matches(r: Regex, s: string)
    decreases r, |s|, 0
  {
    match r
    case Empty => s == ""
    case Chr(c) => s == [c]
    case Dot => |s| == 1
    case Star(b) => Repeats(b, s)
    case Plus(b) => exists k :: 0 <= k <= |s| && Matches(b, s[..k]) && Repeats(b, s[k..])
    case Seq(x, y) => exists k :: 0 <= k <= |s| && Matches(x, s[..k]) && Matches(y, s[k..])
  }

  // Zero or more matches of the body, one after the other.
  ghost predicate Repeats(b: Regex, s: string)
    decreases b, |s|, 1
  {
    s == "" || exists k :: 0 < k <= |s| && Matches(b, s[..k]) && Repeats(b, s[k..])
  }

  predicate IsAlnum(c: char) {
    'a' <= c <= 'z' || 'A' <= c <= 'Z' || '0' <= c <= '9'
  }

  predicate IsOrdinary(c: char) {
    IsAlnum(c) || c == ' '
  }

  function Atom(c: char): Regex {
    if c == '.' then Dot else Chr(c)
  }

  // Reads a pattern of ordinary characters and dots, each possibly followed by `*` or `+`.
  function ReadRegex(p: string): Option<Regex>
    decreases |p|
  {
    if p == "" then Some(Empty)
    else if !IsOrdinary(p[0]) && p[0] != '.' then None
    else
      var postfix := |p| > 1 && (p[1] == '*' || p[1] == '+');
      var rest := ReadRegex(p[if postfix then 2 else 1..]);
      if rest.None? then None
      else
        var a := Atom(p[0]);
        Some(Seq(if !postfix then a else if p[1] == '*' then Star(a) else Plus(a), rest.value))
  }

  // ---------------------------------------------------------------------------
  // Regular expression to LIKE
  // ---------------------------------------------------------------------------

  // What the translation yields, read from left to right with one character of lookahead.
  function Translated(p: string): Option<string>
    decreases |p|
  {
    if p == "" then Some("")
    else if p[0] == '.' && |p| > 1 && p[1] == '*' then Prefixed("%", Translated(p[2..]))
    else if p[0] == '.' && |p| > 1 && p[1] == '+' then Prefixed("_%", Translated(p[2..]))
    else if p[0] == '.' then Prefixed("_", Translated(p[1..]))
    else if IsOrdinary(p[0]) then Prefixed([p[0]], Translated(p[1..]))
    else None
  }

  function Prefixed(x: string, rest: Option<string>): Option<string> {
    if rest.Some? then Some(x + rest.value) else None
  }

  /** translate_to_like_pattern.  It never accepts an escape, so for the escape characters
      that are not themselves accepted it computes `Translated`. */
  method TranslateToLikePattern(pattern: string, escape: char) returns (ok: bool, result: string)
    requires !IsOrdinary(escape) && escape !in ['.', '*', '+', '\0']
    ensures ok <==> Translated(pattern).Some?
    ensures result == if ok then Translated(pattern).value else pattern
  {
    var prev, prevPrev, like := '\0', '\0', "";
    assert pattern[0..] == pattern;
    if Translated(pattern).Some? { assert "" + Translated(pattern).value == Translated(pattern).value; }
    for i := 0 to |pattern|
      invariant prev != escape && prevPrev != escape
      invariant prev == '.' ==> like != "" && like[|like| - 1] == '_'
      invariant Translated(pattern) ==
        if prev == '.' then Prefixed(like[..|like| - 1], Translated("." + pattern[i..]))
        else Prefixed(like, Translated(pattern[i..]))
    {
      var cur := pattern[i];
      assert pattern[i..][1..] == pattern[i + 1..];
      assert ("." + pattern[i..])[1..] == pattern[i..];
      assert ("." + pattern[i..])[2..] == pattern[i + 1..];
      if prev == escape || IsAlnum(cur) || cur == ' ' || cur == '.' {
        ghost var before := like;
        if prev == '.' { assert before[..|before| - 1] + "_" == before; }
        like := like + [if cur == '.' then '_' else cur];
        assert like[..|like| - 1] == before;
        assert cur == '.' ==> pattern[i..] == "." + pattern[i + 1..];
        AppendPrefix(before, if cur == '.' then "" else [cur], Translated(pattern[i + 1..]));
        if prev == '.' {
          AppendPrefix(before[..|before| - 1], "_", Translated(pattern[i..]));
        }
        prevPrev := prev;
        prev := cur;
      } else if prev == '.' && prevPrev != escape && (cur == '*' || cur == '+') {
        ghost var before := like;
        assert before[..|before| - 1] + "_" == before;
        if cur == '*' {
          like := like[..|like| - 1];
        }
        AppendPrefix(before[..|before| - 1], if cur == '*' then "%" else "_%", Translated(pattern[i + 1..]));
        like := like + "%";
        assert like == before[..|before| - 1] + if cur == '*' then "%" else "_%";
        prevPrev := prev;
        prev := cur;
      } else {
        return false, pattern;
      }
    }
    LoneDot();
    assert prev == '.' ==> like == like[..|like| - 1] + "_";
    return true, like;
  }

  lemma LoneDot()
    ensures Translated("." + "") == Some("_")
  {
    var d := "." + "";
    assert d[1..] == "" && "_" + "" == "_";
    assert Translated(d) == Prefixed("_", Translated(""));
  }

  lemma AppendPrefix(a: string, b: string, rest: Option<string>)
    ensures Prefixed(a, Prefixed(b, rest)) == Prefixed(a + b, rest)
  {
    if rest.Some? { assert a + (b + rest.value) == (a + b) + rest.value; }
  }

  lemma {:induction false} StarOfDot(s: string)
    ensures Matches(Star(Dot), s)
  {
    if s != "" {
      StarOfDot(s[1..]);
      assert Matches(Dot, s[..1]);
    }
  }

  lemma {:induction false} RepeatsOfDot(s: string)
    ensures Repeats(Dot, s)
  {
    if s != "" {
      RepeatsOfDot(s[1..]);
      assert Matches(Dot, s[..1]);
    }
  }

  lemma PlusOfDot(s: string)
    ensures Matches(Plus(Dot), s) <==> s != ""
  {
    if s != "" {
      assert Matches(Dot, s[..1]);
      RepeatsOfDot(s[1..]);
    }
  }

  // A leading one-character element splits off exactly one character.
  lemma SeqOne(a: Regex, y: Regex, s: string)
    requires a.Dot? || a.Chr?
    ensures Matches(Seq(a, y), s) <==> s != "" && Matches(a, s[..1]) && Matches(y, s[1..])
  {
  }

  lemma SeqStar(y: Regex, s: string)
    ensures Matches(Seq(Star(Dot), y), s) <==> exists k :: 0 <= k <= |s| && Matches(y, s[k..])
  {
    if k :| 0 <= k <= |s| && Matches(y, s[k..]) { StarOfDot(s[..k]); }
  }

  lemma SeqPlus(y: Regex, s: string)
    ensures Matches(Seq(Plus(Dot), y), s) <==> exists k :: 0 < k <= |s| && Matches(y, s[k..])
  {
    if k :| 0 <= k <= |s| && Matches(Plus(Dot), s[..k]) && Matches(y, s[k..]) { PlusOfDot(s[..k]); }
    if k :| 0 < k <= |s| && Matches(y, s[k..]) { PlusOfDot(s[..k]); }
  }

  // `_%` matches what has a matching proper suffix.
  lemma LikePlus(rest: string, e: char, s: string)
    requires e != '%' && e != '_'
    ensures Like("_%" + rest, e, s) <==> exists k :: 0 < k <= |s| && Like(rest, e, s[k..])
  {
    var p := "_%" + rest;
    assert p[0] == '_' && p[1..] == "%" + rest && p[1..][0] == '%' && p[1..][1..] == rest;
    if Like(p, e, s) {
      assert Like(p[1..], e, s[1..]);
      var k :| 0 <= k <= |s[1..]| && Like(rest, e, s[1..][k..]);
      assert s[1..][k..] == s[k + 1..];
    }
    if k :| 0 < k <= |s| && Like(rest, e, s[k..]) {
      assert s[1..][k - 1..] == s[k..];
      assert Like(p[1..], e, s[1..]);
    }
  }

  /** The translation preserves the language: whenever it succeeds, every string matches
      the LIKE pattern exactly when the whole string matches the regular expression. */
  lemma {:induction false} TranslationPreservesLanguage(p: string, e: char, s: string)
    requires Translated(p).Some?
    requires !IsOrdinary(e) && e != '%' && e != '_'
    ensures ReadRegex(p).Some?
    ensures Like(Translated(p).value, e, s) <==> Matches(ReadRegex(p).value, s)
    decreases |p|
  {
    if p == "" {
    } else {
      var postfix := p[0] == '.' && |p| > 1 && (p[1] == '*' || p[1] == '+');
      var q := p[if postfix then 2 else 1..];
      TranslationPreservesLanguage(q, e, s);
      forall k | 0 <= k <= |s|
        ensures Like(Translated(q).value, e, s[k..]) <==> Matches(ReadRegex(q).value, s[k..])
      {
        TranslationPreservesLanguage(q, e, s[k..]);
      }
      NoStrayPostfix(p);
      var rest, y := Translated(q).value, ReadRegex(q).value;
      if postfix && p[1] == '*' {
        SeqStar(y, s);
        assert ("%" + rest)[1..] == rest;
      } else if postfix {
        SeqPlus(y, s);
        LikePlus(rest, e, s);
      } else {
        SeqOne(Atom(p[0]), y, s);
        var head: string := if p[0] == '.' then "_" else [p[0]];
        assert (head + rest)[1..] == rest;
        if s != "" { assert s[..1] == [s[0]]; }
      }
    }
  }

  // In an accepted pattern `*` and `+` follow dots only.
  lemma NoStrayPostfix(p: string)
    requires p != "" && Translated(p).Some?
    ensures |p| > 1 && (p[1] == '*' || p[1] == '+') ==> p[0] == '.'
  {
  }

  predicate AcceptedAt(p: string, i: nat)
    requires i < |p|
  {
    IsOrdinary(p[i]) || p[i] == '.' || ((p[i] == '*' || p[i] == '+') && i > 0 && p[i - 1] == '.')
  }

  /** Acceptance is exact: a pattern is translated if and only if every character is
      alphanumeric, a space or a dot, or is a `*` or `+` directly after a dot. */
  lemma {:induction false} TranslatedExactly(p: string)
    ensures Translated(p).Some? <==> forall i :: 0 <= i < |p| ==> AcceptedAt(p, i)
    decreases |p|
  {
    if p != "" {
      var n := if p[0] == '.' && |p| > 1 && (p[1] == '*' || p[1] == '+') then 2 else 1;
      var q := p[n..];
      TranslatedExactly(q);
      forall i | 0 <= i < |q| ensures AcceptedAt(q, i) <==> AcceptedAt(p, n + i) {
        assert q[i] == p[n + i];
        if i > 0 { assert q[i - 1] == p[n + i - 1]; }
      }
      if Translated(p).Some? {
        forall i | 0 <= i < |p| ensures AcceptedAt(p, i) {
          if i >= n { assert AcceptedAt(q, i - n); }
        }
      } else if AcceptedAt(p, 0) {
        var i :| 0 <= i < |q| && !AcceptedAt(q, i);
        assert !AcceptedAt(p, n + i);
      }
    }
  }
}
