/**
 A model of `matchesPattern` in index.ts. Each pattern is rewritten into a
 regular expression (`*` becomes `.*`, `?` becomes `.`, `/` becomes `\/`) that is
 anchored with `^` and `$`; every other character is copied unescaped, so a `.`
 of the pattern is the regular-expression wildcard too. The expression is built
 without the `s` flag, so its `.` matches any character except a line
 terminator.

 `RegexGlob(s, pat)` is the anchored match of the expression built from `pat`.
 It is a faithful model only for patterns that hold none of the other
 regular-expression metacharacters (`Supported`).
 */
module TsGlob {
  import Fnmatch

  /** The characters JavaScript's `.` does not match when the `s` flag is absent. */
  predicate IsLineTerminator(c: char)
  {
    c == '\n' || c == '\r' || c == '\U{2028}' || c == '\U{2029}'
  }

  /** Regular-expression metacharacters that the rewriting leaves unescaped and unmodelled. */
  predicate IsRegexSpecial(c: char)
  {
    c == '^' || c == '$' || c == '\\' || c == '+' || c == '|' ||
    c == '(' || c == ')' || c == '[' || c == ']' || c == '{' || c == '}'
  }

  predicate Supported(pat: string)
  {
    forall i :: 0 <= i < |pat| ==> !IsRegexSpecial(pat[i])
  }

  /** A pattern character that became the regular-expression `.`. */
  predicate IsAnyChar(c: char)
  {
    c == '?' || c == '.'
  }

  predicate RegexGlob(s: string, pat: string)
    decreases |pat|, |s|
  {
    if |pat| == 0 then |s| == 0
    else if pat[0] == '*' then
      RegexGlob(s, pat[1..]) || (0 < |s| && !IsLineTerminator(s[0]) && RegexGlob(s[1..], pat))
    else if IsAnyChar(pat[0]) then 0 < |s| && !IsLineTerminator(s[0]) && RegexGlob(s[1..], pat[1..])
    else 0 < |s| && s[0] == pat[0] && RegexGlob(s[1..], pat[1..])
  }

  /** `patterns.some(...)`: the path matches at least one of the (supported) patterns. */
  predicate MatchesPattern(filePath: string, patterns: seq<string>)
    requires forall k :: 0 <= k < |patterns| ==> Supported(patterns[k])
  {
    exists k :: 0 <= k < |patterns| && RegexGlob(filePath, patterns[k])
  }

  predicate NoLineTerminators(s: string)
  {
    forall i :: 0 <= i < |s| ==> !IsLineTerminator(s[i])
  }

  /** A pattern with no `*`, `?` or `.`: every character of it stands for itself. */
  predicate IsLiteral(pat: string)
  {
    forall i :: 0 <= i < |pat| ==> pat[i] != '*' && !IsAnyChar(pat[i])
  }

  /** An empty pattern list never matches. */
  lemma NoPatternsNoMatch(filePath: string)
    ensures !MatchesPattern(filePath, [])
  {
  }

  /** `*` matches any run of characters, `/` included, that holds no line terminator. */
  lemma {:induction false} StarMatchesRun(s: string)
    ensures RegexGlob(s, "*") <==> NoLineTerminators(s)
  {
    if |s| > 0 {
      StarMatchesRun(s[1..]);
      assert "*"[1..] == "";
      if NoLineTerminators(s[1..]) && !IsLineTerminator(s[0]) {
        assert forall i :: 1 <= i < |s| ==> s[i] == s[1..][i - 1];
      }
    }
  }

  /** `?` and `.` each match exactly one character that is not a line terminator. */
  lemma AnyCharMatchesOne(s: string, c: char)
    requires IsAnyChar(c)
    ensures RegexGlob(s, [c]) <==> (|s| == 1 && !IsLineTerminator(s[0]))
  {
  }

  /** A literal pattern matches exactly the identical path: the match is anchored at both ends. */
  lemma {:induction false} LiteralMatchesExactly(s: string, pat: string)
    requires Supported(pat) && IsLiteral(pat)
    ensures RegexGlob(s, pat) <==> s == pat
  {
    if |pat| > 0 && |s| > 0 {
      LiteralMatchesExactly(s[1..], pat[1..]);
      if s[0] == pat[0] && s[1..] == pat[1..] {
        assert s == [s[0]] + s[1..] && pat == [pat[0]] + pat[1..];
      }
    }
  }

  /** A literal prefix common to path and pattern can be dropped. */
  lemma {:induction false} LiteralPrefix(u: string, s: string, pat: string)
    requires IsLiteral(u)
    ensures RegexGlob(u + s, u + pat) <==> RegexGlob(s, pat)
  {
    if |u| > 0 {
      assert (u + s)[1..] == u[1..] + s;
      assert (u + pat)[1..] == u[1..] + pat;
      LiteralPrefix(u[1..], s, pat);
    } else {
      assert u + s == s && u + pat == pat;
    }
  }

  /** Since `.` is not escaped, `u.v` matches exactly the paths made of `u`, one character
      that is not a line terminator, and `v`. */
  lemma {:induction false} DotMatchesAnyChar(s: string, u: string, v: string)
    requires Supported(u) && Supported(v)
    requires IsLiteral(u) && IsLiteral(v)
    ensures RegexGlob(s, u + "." + v)
        <==> (|s| == |u| + 1 + |v| && s[..|u|] == u && !IsLineTerminator(s[|u|]) && s[|u| + 1..] == v)
  {
    assert u + "." + v == u + ("." + v);
    if |u| <= |s| && s[..|u|] == u {
      var t := s[|u|..];
      assert s == u + t;
      LiteralPrefix(u, t, "." + v);
      DotThenLiteral(t, v);
      if 0 < |t| {
        assert t[0] == s[|u|] && t[1..] == s[|u| + 1..];
      }
    } else {
      LiteralDoesNotFit(s, u, "." + v);
    }
  }

  /** `.v` for a literal `v` matches one character that is not a line terminator, then `v`. */
  lemma {:induction false} DotThenLiteral(t: string, v: string)
    requires Supported(v) && IsLiteral(v)
    ensures RegexGlob(t, "." + v) <==> (0 < |t| && !IsLineTerminator(t[0]) && t[1..] == v)
  {
    assert ("." + v)[0] == '.' && ("." + v)[1..] == v;
    if 0 < |t| {
      LiteralMatchesExactly(t[1..], v);
    }
  }

  /** `u*` for a literal `u` matches exactly the paths that start with `u` and whose
      remainder holds no line terminator. */
  lemma PrefixStar(s: string, u: string)
    requires Supported(u) && IsLiteral(u)
    ensures RegexGlob(s, u + "*") <==> (|u| <= |s| && s[..|u|] == u && NoLineTerminators(s[|u|..]))
  {
    if |u| <= |s| && s[..|u|] == u {
      assert s == u + s[|u|..];
      LiteralPrefix(u, s[|u|..], "*");
      StarMatchesRun(s[|u|..]);
    } else {
      LiteralDoesNotFit(s, u, "*");
    }
  }

  /** A literal prefix of the pattern that the path does not start with rules the match out. */
  lemma {:induction false} LiteralDoesNotFit(s: string, u: string, pat: string)
    requires IsLiteral(u)
    requires !(|u| <= |s| && s[..|u|] == u)
    ensures !RegexGlob(s, u + pat)
  {
    if |u| > 0 && |s| > 0 && s[0] == u[0] {
      assert (u + pat)[1..] == u[1..] + pat;
      PrefixStep(s, u);
      LiteralDoesNotFit(s[1..], u[1..], pat);
    }
  }

  /** With equal first characters, `s` starts with `u` exactly when their tails do. */
  lemma PrefixStep(s: string, u: string)
    requires 0 < |u| && 0 < |s| && s[0] == u[0]
    ensures (|u| <= |s| && s[..|u|] == u) <==> (|u| - 1 <= |s| - 1 && s[1..][..|u| - 1] == u[1..])
  {
    if |u| - 1 <= |s| - 1 {
      assert s[..|u|] == [s[0]] + s[1..][..|u| - 1];
      assert u == [u[0]] + u[1..];
    }
  }

  /** On patterns without `.` and `[`, and paths without line terminators, the translated
      expression of index.ts and Python's fnmatch agree. */
  lemma {:induction false} AgreesWithFnmatch(s: string, pat: string)
    requires Supported(pat) && NoLineTerminators(s)
    requires forall i :: 0 <= i < |pat| ==> pat[i] != '.'
    ensures RegexGlob(s, pat) <==> Fnmatch.FnMatch(s, pat)
    decreases |pat|, |s|
  {
    if |pat| > 0 {
      assert pat[0] != '[';
      var head := if pat[0] == '*' then Fnmatch.AnyRun
                  else if pat[0] == '?' then Fnmatch.AnyChar
                  else Fnmatch.Literal(pat[0]);
      assert Fnmatch.Translate(pat) == [head] + Fnmatch.Translate(pat[1..]);
      assert Fnmatch.Translate(pat)[0] == head && Fnmatch.Translate(pat)[1..] == Fnmatch.Translate(pat[1..]);
      if pat[0] == '*' {
        AgreesWithFnmatch(s, pat[1..]);
        if |s| > 0 {
          AgreesWithFnmatch(s[1..], pat);
        }
      } else if |s| > 0 {
        AgreesWithFnmatch(s[1..], pat[1..]);
      }
    }
  }
}
