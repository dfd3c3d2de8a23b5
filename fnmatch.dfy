/**
 A model of Python's `fnmatch.fnmatch(name, pat)` on a POSIX host (no case
 folding). As CPython does it, the pattern is first translated into a regular
 expression (`Translate`), which is then matched against the WHOLE name
 (`Matches`), with `.` matching newlines too:
   `*`        any run of characters, including `/` and newlines,
   `?`        exactly one character,
   `[...]`    a character class, with `!` right after `[` negating it, a `]` right
              after `[` or `[!` an ordinary member and `x-y` a range; as Python 3.9
              and later do it, descending ranges are dropped first and the test for
              `!` is made on what remains; a `[` with no closing `]` is an ordinary
              character,
   anything else, `\` included, stands for itself.
 */
module Fnmatch {

  datatype Option<T> = None | Some(value: T)

  /** Index of the first `]` at or after `j`. */
  function FindClose(body: string, j: nat): (r: Option<nat>)
    decreases |body| - j
    ensures r.Some? ==> j <= r.value < |body| && body[r.value] == ']'
    ensures r.Some? ==> forall k :: j <= k < r.value ==> body[k] != ']'
    ensures r.None? ==> forall k :: j <= k < |body| ==> body[k] != ']'
  {
    if j >= |body| then None
    else if body[j] == ']' then Some(j)
    else FindClose(body, j + 1)
  }

  /** Where the search for the closing `]` starts: after an optional `!` and an optional `]`. */
  function ClassStart(body: string): nat
  {
    var j := if 0 < |body| && body[0] == '!' then 1 else 0;
    if j < |body| && body[j] == ']' then j + 1 else j
  }

  /** For `body`, the text right after a `[`: the index in `body` of the `]` closing the class. */
  function ClassClose(body: string): (r: Option<nat>)
    ensures r.Some? ==> r.value < |body| && body[r.value] == ']'
  {
    FindClose(body, ClassStart(body))
  }

  /** Index of the first `-` of `s` at or after `k` (`str.find`). */
  function FindDash(s: string, k: nat): (r: Option<nat>)
    decreases |s| - k
    ensures r.Some? ==> k <= r.value < |s| && s[r.value] == '-'
  {
    if k >= |s| then None
    else if s[k] == '-' then Some(k)
    else FindDash(s, k + 1)
  }

  /** The pieces of the class text `s` from `start` on, split at the hyphens that form ranges:
      the search for the next one starts at `k`, two characters past the previous range's
      upper end. A hyphen that ends the text is kept, as a member, on the last piece. */
  function SplitFrom(s: string, start: nat, k: nat): seq<string>
    requires start <= k <= |s| + 2
    decreases |s| + 2 - k
  {
    match FindDash(s, k)
    case None => if start < |s| then [s[start..]] else []
    case Some(i) =>
      var rest := SplitFrom(s, i + 1, i + 3);
      if rest == [] then [s[start..i] + "-"] else [s[start..i]] + rest
  }

  /** `translate` splits a class text that holds a `-` into pieces; the first range hyphen
      is searched for after the first character, and after a leading `!`. */
  function SplitAtRanges(s: string): seq<string>
  {
    SplitFrom(s, 0, if 0 < |s| && s[0] == '!' then 2 else 1)
  }

  /** `translate` drops every descending range, right to left: when a piece ends above the
      first character of the (already reduced) next one, the two bounds go and the pieces join. */
  function DropEmptyRanges(pieces: seq<string>): seq<string>
  {
    if |pieces| <= 1 then pieces
    else
      var first := pieces[0];
      var rest := DropEmptyRanges(pieces[1..]);
      if 0 < |first| && 0 < |rest| && 0 < |rest[0]| && first[|first| - 1] > rest[0][0] then
        [first[..|first| - 1] + rest[0][1..]] + rest[1..]
      else [first] + rest
  }

  /** One element of the bracket expression `translate` builds: an escaped member, or a
      range-forming `-`. */
  datatype ClassToken = Member(c: char) | RangeDash

  function TokenChar(t: ClassToken): char
  {
    match t
    case Member(c) => c
    case RangeDash => '-'
  }

  /** Every character of `s` as a member. */
  function Members(s: string): (r: seq<ClassToken>)
    ensures |r| == |s|
  {
    if |s| == 0 then [] else [Member(s[0])] + Members(s[1..])
  }

  /** The pieces joined by range-forming hyphens (`'-'.join(...)` of escaped pieces). */
  function JoinPieces(pieces: seq<string>): seq<ClassToken>
  {
    if |pieces| == 0 then []
    else if |pieces| == 1 then Members(pieces[0])
    else Members(pieces[0]) + [RangeDash] + JoinPieces(pieces[1..])
  }

  /** The bracket expression `translate` builds for the class text `contents` (its `stuff`). */
  function ClassStuff(contents: string): seq<ClassToken>
  {
    if '-' !in contents then Members(contents)
    else JoinPieces(DropEmptyRanges(SplitAtRanges(contents)))
  }

  /** Two pieces: the range between them is dropped exactly when it descends. */
  lemma DropBetweenTwo(first: string, second: string)
    ensures DropEmptyRanges([first, second])
        == if 0 < |first| && 0 < |second| && first[|first| - 1] > second[0]
           then [first[..|first| - 1] + second[1..]]
           else [first, second]
  {
    assert [first, second][0] == first && [first, second][1..] == [second];
    assert DropEmptyRanges([second]) == [second];
  }

  /** A regular-expression set, read left to right: an element followed by a range-forming
      `-` and a third element is a range, any other element stands for itself. */
  predicate SetAccepts(c: char, items: seq<ClassToken>)
    decreases |items|
  {
    if |items| == 0 then false
    else if 3 <= |items| && items[1] == RangeDash then
      (TokenChar(items[0]) <= c <= TokenChar(items[2])) || SetAccepts(c, items[3..])
    else c == TokenChar(items[0]) || SetAccepts(c, items[1..])
  }

  /** One element of the expression `translate` builds from a pattern. */
  datatype Element =
    | AnyRun                                     // `.*`
    | AnyChar                                    // `.`
    | Literal(c: char)                           // an escaped character
    | Never                                      // `(?!)`
    | Set(negated: bool, items: seq<ClassToken>) // `[...]`, or `[^...]` when negated

  /** What `translate` emits for the class text `contents`: an empty expression can never
      match, a lone `!` matches any character, and a leading `!` negates the rest. The test
      for `!` is made after the descending ranges are gone. */
  function ClassElement(contents: string): (r: Element)
    ensures r != AnyRun
  {
    var stuff := ClassStuff(contents);
    if stuff == [] then Never
    else if stuff == [Member('!')] then AnyChar
    else if stuff[0] == Member('!') then Set(true, stuff[1..])
    else Set(false, stuff)
  }

  /** `translate`: the pattern as a sequence of expression elements. */
  function Translate(pat: string): seq<Element>
    decreases |pat|
  {
    if |pat| == 0 then []
    else if pat[0] == '*' then [AnyRun] + Translate(pat[1..])
    else if pat[0] == '?' then [AnyChar] + Translate(pat[1..])
    else if pat[0] == '[' && ClassClose(pat[1..]).Some? then
      var k := ClassClose(pat[1..]).value;
      [ClassElement(pat[1..k + 1])] + Translate(pat[k + 2..])
    else [Literal(pat[0])] + Translate(pat[1..])
  }

  /** A one-character element admits `c`. */
  predicate Admits(e: Element, c: char)
  {
    match e
    case AnyRun => false
    case AnyChar => true
    case Literal(x) => c == x
    case Never => false
    case Set(negated, items) => SetAccepts(c, items) != negated
  }

  /** The expression matches the whole of `name` (`re.match` with `\Z` and DOTALL). */
  predicate Matches(name: string, elems: seq<Element>)
    decreases |elems|, |name|
  {
    if |elems| == 0 then |name| == 0
    else if elems[0] == AnyRun then
      Matches(name, elems[1..]) || (0 < |name| && Matches(name[1..], elems))
    else 0 < |name| && Admits(elems[0], name[0]) && Matches(name[1..], elems[1..])
  }

  predicate FnMatch(name: string, pat: string)
  {
    Matches(name, Translate(pat))
  }

  /** The class with text `contents` (between the brackets) admits `c`. */
  predicate ClassAccepts(contents: string, c: char)
  {
    Admits(ClassElement(contents), c)
  }

  /** A character with a meaning of its own in a pattern. */
  predicate IsWildcard(c: char)
  {
    c == '*' || c == '?' || c == '['
  }

  predicate NoWildcards(pat: string)
  {
    forall i :: 0 <= i < |pat| ==> !IsWildcard(pat[i])
  }

  /** `.*` matches every name. */
  lemma {:induction false} AnyRunMatchesAll(name: string)
    ensures Matches(name, [AnyRun])
  {
    assert [AnyRun][1..] == [];
    if |name| > 0 {
      AnyRunMatchesAll(name[1..]);
    }
  }

  /** `*` matches every name, the empty one included. */
  lemma StarMatchesAll(name: string)
    ensures FnMatch(name, "*")
  {
    assert Translate("*") == [AnyRun] + Translate("*"[1..]);
    assert "*"[1..] == "" && [AnyRun] + [] == [AnyRun];
    AnyRunMatchesAll(name);
  }

  /** A pattern without wildcards matches exactly the identical name. */
  lemma {:induction false} LiteralMatchesExactly(name: string, pat: string)
    requires NoWildcards(pat)
    ensures FnMatch(name, pat) <==> name == pat
  {
    if |pat| > 0 {
      assert Translate(pat) == [Literal(pat[0])] + Translate(pat[1..]);
      assert Translate(pat)[1..] == Translate(pat[1..]);
      if |name| > 0 {
        LiteralMatchesExactly(name[1..], pat[1..]);
        if name[0] == pat[0] && name[1..] == pat[1..] {
          assert name == [name[0]] + name[1..] && pat == [pat[0]] + pat[1..];
        }
      }
    }
  }

  /** `u*` for a wildcard-free `u` matches exactly the names that start with `u`. */
  lemma {:induction false} PrefixStar(name: string, u: string)
    requires NoWildcards(u)
    ensures FnMatch(name, u + "*") <==> (|u| <= |name| && name[..|u|] == u)
  {
    if |u| == 0 {
      assert u + "*" == "*";
      StarMatchesAll(name);
    } else {
      var pat := u + "*";
      assert pat[0] == u[0] && pat[1..] == u[1..] + "*";
      assert Translate(pat) == [Literal(u[0])] + Translate(pat[1..]);
      assert Translate(pat)[1..] == Translate(u[1..] + "*");
      if |name| > 0 {
        PrefixStar(name[1..], u[1..]);
        if |u| <= |name| && name[..|u|] == u {
          assert name[1..][..|u| - 1] == name[..|u|][1..];
        }
        if |u| - 1 <= |name| - 1 && name[1..][..|u| - 1] == u[1..] && name[0] == u[0] {
          assert name[..|u|] == [name[0]] + name[1..][..|u| - 1];
          assert u == [u[0]] + u[1..];
        }
      }
    }
  }

  /** A one-character pattern: `*` matches everything, `?` any single character, any other
      character (a lone `[` included) only itself. */
  lemma SingleCharPattern(name: string, c: char)
    ensures FnMatch(name, [c]) <==> (c == '*' || (|name| == 1 && (c == '?' || name[0] == c)))
  {
    assert [c][1..] == [];
    if c == '*' {
      StarMatchesAll(name);
    } else {
      if c == '[' {
        assert ClassClose([c][1..]).None?;
      }
      assert Translate([c]) == [if c == '?' then AnyChar else Literal(c)];
      if |name| > 0 {
        assert Matches(name[1..], []) <==> |name| == 1;
      }
    }
  }

  /** A pattern that starts with a closed class translates to that class, then the rest. */
  lemma {:induction false} ClassTranslates(pat: string, k: nat)
    requires 0 < |pat| && pat[0] == '[' && ClassClose(pat[1..]) == Some(k)
    ensures Translate(pat) == [ClassElement(pat[1..k + 1])] + Translate(pat[k + 2..])
  {
  }

  /** Without a `]` inside, other than the lone `[!]`, the class closes at the final `]`. */
  lemma ClassClosesAtEnd(contents: string)
    requires 0 < |contents| && contents != "!"
    requires forall i :: 0 <= i < |contents| ==> contents[i] != ']'
    ensures ClassClose(contents + "]") == Some(|contents|)
  {
    var body := contents + "]";
    var m := |contents|;
    assert forall i :: 0 <= i < m ==> body[i] == contents[i];
    var n := ClassStart(body);
    assert n == (if contents[0] == '!' then 1 else 0);
    FindCloseSkips(body, n, m);
  }

  /** A class with no `]` inside it, other than the lone `[!]`, closes at the final `]`, so a
      one-character name matches exactly when the class admits its character. */
  lemma ClassWithoutBracket(c: char, contents: string)
    requires 0 < |contents| && contents != "!"
    requires forall i :: 0 <= i < |contents| ==> contents[i] != ']'
    ensures FnMatch([c], "[" + contents + "]") <==> ClassAccepts(contents, c)
  {
    var pat := "[" + contents + "]";
    var m := |contents|;
    ClassClosesAtEnd(contents);
    assert pat[1..] == contents + "]";
    ClassTranslates(pat, m);
    assert pat[1..m + 1] == contents;
    assert pat[m + 2..] == [];
    assert Translate(pat) == [ClassElement(contents)];
    OneElement(c, ClassElement(contents));
  }

  /** A one-character element matches exactly the one-character names it admits. */
  lemma OneElement(c: char, e: Element)
    requires e != AnyRun
    ensures Matches([c], [e]) <==> Admits(e, c)
  {
    assert [c][1..] == [] && [e][1..] == [];
  }

  /** A set of plain members admits exactly those characters. */
  lemma {:induction false} MembersAccept(c: char, s: string)
    ensures SetAccepts(c, Members(s)) <==> c in s
  {
    if |s| > 0 {
      MembersAccept(c, s[1..]);
      assert s == [s[0]] + s[1..];
    }
  }

  /** The class text `members` or `!members`, with no `-` among the members, admits
      exactly the members, respectively exactly the other characters. */
  lemma MembersClassAccepts(c: char, members: string, negated: bool)
    requires 0 < |members| && members[0] != '!'
    requires forall i :: 0 <= i < |members| ==> members[i] != '-'
    ensures ClassAccepts((if negated then "!" else "") + members, c) <==> ((c in members) != negated)
  {
    var contents := (if negated then "!" else "") + members;
    MembersAccept(c, members);
    assert '-' !in contents;
    assert Members(members) == [Member(members[0])] + Members(members[1..]);
    if negated {
      assert contents[1..] == members;
      assert Members(contents) == [Member('!')] + Members(members);
      assert ClassStuff(contents)[1..] == Members(members);
    } else {
      assert contents == members;
    }
  }

  /** `[members]` and `[!members]`, with no `]` and no `-` among the members, accept a
      one-character name exactly when the character is, respectively is not, a member. */
  lemma ClassMatchesOneChar(c: char, members: string, negated: bool)
    requires 0 < |members| && members[0] != '!'
    requires forall i :: 0 <= i < |members| ==> members[i] != ']' && members[i] != '-'
    ensures FnMatch([c], (if negated then "[!" else "[") + members + "]")
        <==> ((c in members) != negated)
  {
    var contents := (if negated then "!" else "") + members;
    var n := |contents| - |members|;
    assert forall i :: n <= i < |contents| ==> contents[i] == members[i - n];
    assert contents[0] != ']' && |contents| == n + |members|;
    assert contents != "!";
    assert (if negated then "[!" else "[") + members + "]" == "[" + contents + "]";
    ClassWithoutBracket(c, contents);
    MembersClassAccepts(c, members, negated);
  }

  /** A class text with a single range hyphen, at `n + 1` after a prefix of length `n`,
      splits into the text before it and the text after it. */
  lemma SplitAtOneRange(contents: string, n: nat)
    requires n <= 1 && |contents| == n + 3 && contents[n + 1] == '-'
    requires (n == 1) <==> contents[0] == '!'
    ensures SplitAtRanges(contents) == [contents[..n + 1], contents[n + 2..]]
  {
    assert FindDash(contents, n + 1) == Some(n + 1);
    assert FindDash(contents, n + 4) == None;
    assert SplitFrom(contents, n + 2, n + 4) == [contents[n + 2..]];
  }

  lemma {:induction false} MembersConcat(a: string, b: string)
    ensures Members(a + b) == Members(a) + Members(b)
  {
    if |a| > 0 {
      assert (a + b)[0] == a[0] && (a + b)[1..] == a[1..] + b;
      MembersConcat(a[1..], b);
    } else {
      assert a + b == b;
    }
  }

  /** What `translate` makes of the class text `lo-hi`, after an optional `!`: the range, or
      nothing when it descends. */
  lemma {:induction false} RangeStuff(prefix: string, lo: char, hi: char)
    requires prefix == "" || prefix == "!"
    requires prefix == "" ==> lo != '!'
    ensures ClassStuff(prefix + [lo, '-', hi])
        == if hi < lo then Members(prefix) else Members(prefix) + [Member(lo), RangeDash, Member(hi)]
  {
    var contents := prefix + [lo, '-', hi];
    var n := |prefix|;
    var first := prefix + [lo];
    assert contents[..n + 1] == first && contents[n + 2..] == [hi];
    SplitAtOneRange(contents, n);
    assert first[..|first| - 1] == prefix && first[|first| - 1] == lo;
    DropBetweenTwo(first, [hi]);
    assert '-' in contents by {
      assert contents[n + 1] == '-';
    }
    if hi < lo {
      assert first[..|first| - 1] + [hi][1..] == prefix;
    } else {
      assert JoinPieces([first, [hi]]) == Members(first) + [RangeDash] + Members([hi]) by {
        assert [first, [hi]][1..] == [[hi]];
      }
      MembersConcat(prefix, [lo]);
    }
  }

  /** The set `lo-hi` admits exactly the characters from `lo` to `hi`. */
  lemma RangeAccepts(c: char, lo: char, hi: char)
    ensures SetAccepts(c, [Member(lo), RangeDash, Member(hi)]) <==> lo <= c <= hi
  {
    assert [Member(lo), RangeDash, Member(hi)][3..] == [];
  }

  /** The class text `lo-hi` admits exactly the characters from `lo` to `hi` and `!lo-hi`
      exactly the others; a descending range admits nothing, so `!` with it admits everything. */
  lemma RangeClassAccepts(c: char, lo: char, hi: char, negated: bool)
    requires !negated ==> lo != '!'
    ensures ClassAccepts((if negated then "!" else "") + [lo, '-', hi], c) <==> ((lo <= c <= hi) != negated)
  {
    var prefix := if negated then "!" else "";
    var contents := prefix + [lo, '-', hi];
    var range := [Member(lo), RangeDash, Member(hi)];
    RangeStuff(prefix, lo, hi);
    RangeAccepts(c, lo, hi);
    if negated {
      assert Members(prefix) == [Member('!')];
      if hi < lo {
        assert ClassElement(contents) == AnyChar;
      } else {
        assert ([Member('!')] + range)[1..] == range;
        assert ClassElement(contents) == Set(true, range);
      }
    } else {
      assert Members(prefix) == [];
      if hi < lo {
        assert ClassElement(contents) == Never;
      } else {
        assert [] + range == range;
        assert ClassElement(contents) == Set(false, range);
      }
    }
  }

  /** `[lo-hi]` admits exactly the characters from `lo` to `hi` and `[!lo-hi]` exactly the
      others; a descending range admits nothing, so its negation admits every character. */
  lemma RangeClass(c: char, lo: char, hi: char, negated: bool)
    requires lo != ']' && hi != ']'
    requires !negated ==> lo != '!'
    ensures FnMatch([c], (if negated then "[!" else "[") + [lo, '-', hi] + "]")
        <==> ((lo <= c <= hi) != negated)
  {
    var contents := (if negated then "!" else "") + [lo, '-', hi];
    assert (if negated then "[!" else "[") + [lo, '-', hi] + "]" == "[" + contents + "]";
    ClassWithoutBracket(c, contents);
    RangeClassAccepts(c, lo, hi, negated);
  }

  /** A class text that starts with a descending range and then `!` is negated. */
  lemma {:induction false} EmptyRangeThenBangAccepts(c: char, lo: char, hi: char, members: string)
    requires hi < lo && lo != '!'
    requires forall i :: 0 <= i < |members| ==> members[i] != '-'
    ensures ClassAccepts([lo, '-', hi, '!'] + members, c) <==> c !in members
  {
    var contents := [lo, '-', hi, '!'] + members;
    assert forall i :: 4 <= i < |contents| ==> contents[i] == members[i - 4];
    assert FindDash(contents, 1) == Some(1);
    NoDashAfter(contents, 4);
    assert SplitFrom(contents, 2, 4) == [contents[2..]];
    assert contents[..1] == [lo];
    assert SplitAtRanges(contents) == [[lo], contents[2..]];
    assert contents[2..][0] == hi && [lo][..0] == [];
    DropBetweenTwo([lo], contents[2..]);
    assert [lo][..0] + contents[2..][1..] == "!" + members;
    assert DropEmptyRanges([[lo], contents[2..]]) == ["!" + members];
    assert Members("!" + members) == [Member('!')] + Members(members);
    MembersAccept(c, members);
  }

  /** `translate` drops the descending ranges before it looks for `!`, so a class that
      starts with one and then `!` is negated: `[z-a!x]` admits every character but `x`,
      and `[z-a!]` every character. */
  lemma EmptyRangeThenBang(c: char, lo: char, hi: char, members: string)
    requires hi < lo && lo != '!' && lo != ']' && hi != ']'
    requires forall i :: 0 <= i < |members| ==> members[i] != ']' && members[i] != '-'
    ensures FnMatch([c], "[" + [lo, '-', hi, '!'] + members + "]") <==> c !in members
  {
    var contents := [lo, '-', hi, '!'] + members;
    assert "[" + [lo, '-', hi, '!'] + members + "]" == "[" + contents + "]";
    ClassWithoutBracket(c, contents);
    EmptyRangeThenBangAccepts(c, lo, hi, members);
  }

  lemma {:induction false} NoDashAfter(s: string, k: nat)
    requires forall i :: k <= i < |s| ==> s[i] != '-'
    ensures FindDash(s, k) == None
    decreases |s| - k
  {
    if k < |s| {
      NoDashAfter(s, k + 1);
    }
  }

  lemma {:induction false} FindCloseSkips(body: string, j: nat, k: nat)
    requires j <= k < |body| && body[k] == ']'
    requires forall i :: j <= i < k ==> body[i] != ']'
    ensures FindClose(body, j) == Some(k)
    decreases k - j
  {
    if j < k {
      FindCloseSkips(body, j + 1, k);
    }
  }
}
