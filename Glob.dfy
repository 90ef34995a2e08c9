/**
 * `matchesPattern`: the glob is turned into an anchored, case-insensitive
 * regular expression in which every character but `*` and `?` is escaped.
 * The matcher below states that meaning directly: `*` matches any run of
 * characters, `?` exactly one, every other character itself up to ASCII
 * case.  As in a JavaScript `.`, neither wildcard matches a line terminator.
 */
module Glob {
  import opened Text

  /** ASCII case folding: upper-case letters map to lower case, all else is kept. */
  function Fold(c: char): (r: char)
    ensures 'A' <= c <= 'Z' ==> r as int == c as int + 32
    ensures !('A' <= c <= 'Z') ==> r == c
  {
    if 'A' <= c <= 'Z' then (c as int + 32) as char else c
  }

  predicate IsWildcard(c: char) {
    c == '*' || c == '?'
  }

  predicate NoWildcards(p: string) {
    forall i :: 0 <= i < |p| ==> !IsWildcard(p[i])
  }

  /** Equal up to ASCII case, position by position. */
  predicate SameUpToCase(a: string, b: string) {
    |a| == |b| && forall i :: 0 <= i < |a| ==> Fold(a[i]) == Fold(b[i])
  }

  /** Whether the whole of `name` matches the whole of `pattern`. */
  predicate Matches(name: string, pattern: string)
    decreases |name| + |pattern|
  {
    if pattern == [] then name == []
    else if pattern[0] == '*' then
      Matches(name, pattern[1..])
      || (name != [] && !IsLineTerminator(name[0]) && Matches(name[1..], pattern))
    else if pattern[0] == '?' then
      name != [] && !IsLineTerminator(name[0]) && Matches(name[1..], pattern[1..])
    else
      name != [] && Fold(name[0]) == Fold(pattern[0]) && Matches(name[1..], pattern[1..])
  }

  /** Without wildcards the match is anchored and literal: equality up to ASCII case. */
  lemma {:induction false} LiteralPattern(name: string, pattern: string)
    requires NoWildcards(pattern)
    ensures Matches(name, pattern) <==> SameUpToCase(name, pattern)
  {
    if pattern != [] && name != [] {
      LiteralPattern(name[1..], pattern[1..]);
      if SameUpToCase(name[1..], pattern[1..]) && Fold(name[0]) == Fold(pattern[0]) {
        forall i | 0 <= i < |name| ensures Fold(name[i]) == Fold(pattern[i]) {
          if i > 0 {
            assert name[i] == name[1..][i - 1] && pattern[i] == pattern[1..][i - 1];
          }
        }
      }
      if SameUpToCase(name, pattern) {
        forall i | 0 <= i < |name| - 1 ensures Fold(name[1..][i]) == Fold(pattern[1..][i]) {
          assert name[1..][i] == name[i + 1];
        }
      }
    }
  }

  /** A leading `*` matches any run free of line terminators, the empty run included. */
  lemma {:induction false} LeadingStar(name: string, rest: string)
    ensures Matches(name, ['*'] + rest) <==>
              exists k :: 0 <= k <= |name| && NoLineTerminators(name[..k]) && Matches(name[k..], rest)
  {
    var p := ['*'] + rest;
    assert p[1..] == rest;
    if name == [] {
      if Matches(name, p) {
        assert NoLineTerminators(name[..0]) && Matches(name[0..], rest);
      }
    } else {
      LeadingStar(name[1..], rest);
      if Matches(name, p) {
        if Matches(name, rest) {
          assert NoLineTerminators(name[..0]) && name[0..] == name;
        } else {
          var k :| 0 <= k <= |name[1..]| && NoLineTerminators(name[1..][..k]) && Matches(name[1..][k..], rest);
          assert name[..k + 1] == [name[0]] + name[1..][..k];
          assert name[k + 1..] == name[1..][k..];
          assert NoLineTerminators(name[..k + 1]);
        }
      }
      if exists k :: 0 <= k <= |name| && NoLineTerminators(name[..k]) && Matches(name[k..], rest) {
        var k :| 0 <= k <= |name| && NoLineTerminators(name[..k]) && Matches(name[k..], rest);
        if k > 0 {
          assert name[1..][..k - 1] == name[1..k];
          var t := name[1..][..k - 1];
          assert NoLineTerminators(t) by {
            forall i | 0 <= i < |t| ensures !IsLineTerminator(t[i]) {
              assert t[i] == name[..k][i + 1];
            }
          }
          assert name[1..][k - 1..] == name[k..];
          assert !IsLineTerminator(name[..k][0]);
        } else {
          assert name[0..] == name;
        }
      }
    }
  }

  /** A leading `?` consumes exactly one character that is not a line terminator. */
  lemma LeadingQuestion(name: string, rest: string)
    ensures Matches(name, ['?'] + rest) <==>
              |name| >= 1 && !IsLineTerminator(name[0]) && Matches(name[1..], rest)
  {
    assert (['?'] + rest)[1..] == rest;
  }

  /** A literal head of the pattern must be met, up to case, by the head of the name. */
  lemma {:induction false} LiteralHead(name: string, lit: string, rest: string)
    requires NoWildcards(lit)
    ensures Matches(name, lit + rest) <==>
              |name| >= |lit| && SameUpToCase(name[..|lit|], lit) && Matches(name[|lit|..], rest)
  {
    if lit == [] {
      assert lit + rest == rest && name[0..] == name;
    } else {
      assert (lit + rest)[0] == lit[0] && (lit + rest)[1..] == lit[1..] + rest;
      if name != [] {
        LiteralHead(name[1..], lit[1..], rest);
        if |name| >= |lit| {
          assert name[1..][..|lit| - 1] == name[..|lit|][1..];
          assert name[1..][|lit| - 1..] == name[|lit|..];
          SameUpToCaseCons(name[..|lit|], lit);
        }
      }
    }
  }

  lemma SameUpToCaseCons(a: string, b: string)
    requires |a| == |b| >= 1
    ensures SameUpToCase(a, b) <==> Fold(a[0]) == Fold(b[0]) && SameUpToCase(a[1..], b[1..])
  {
    if Fold(a[0]) == Fold(b[0]) && SameUpToCase(a[1..], b[1..]) {
      forall i | 1 <= i < |a| ensures Fold(a[i]) == Fold(b[i]) {
        assert a[i] == a[1..][i - 1] && b[i] == b[1..][i - 1];
      }
    }
  }

  /** A pattern made of a literal head and one trailing star. */
  lemma HeadThenStar(name: string, lit: string)
    requires NoWildcards(lit)
    ensures Matches(name, lit + ['*']) <==>
              |name| >= |lit| && SameUpToCase(name[..|lit|], lit) && NoLineTerminators(name[|lit|..])
  {
    LiteralHead(name, lit, ['*']);
    if |name| >= |lit| {
      var tail := name[|lit|..];
      LeadingStar(tail, []);
      assert ['*'] + [] == ['*'];
      if NoLineTerminators(tail) {
        assert tail[..|tail|] == tail && Matches(tail[|tail|..], []);
      }
      if exists k :: 0 <= k <= |tail| && NoLineTerminators(tail[..k]) && Matches(tail[k..], []) {
        var k :| 0 <= k <= |tail| && NoLineTerminators(tail[..k]) && Matches(tail[k..], []);
        assert tail[..k] == tail;
      }
    }
  }

  /** The pattern "feature/" followed by a star accepts a name under "feature/" ... */
  lemma FeatureAccepts()
    ensures Matches("feature/login", "feature/*")
  {
    var lit := "feature/";
    var name := "feature/login";
    assert "feature/*" == lit + ['*'];
    HeadThenStar(name, lit);
    assert name[..8] == lit;
    assert name[8..] == "login";
    assert NoLineTerminators("login");
  }

  /** ... whatever the case of its letters ... */
  lemma FeatureAcceptsAnyCase()
    ensures Matches("Feature/Login", "feature/*")
  {
    var lit := "feature/";
    var name := "Feature/Login";
    assert "feature/*" == lit + ['*'];
    HeadThenStar(name, lit);
    assert name[..8] == "Feature/";
    assert SameUpToCase("Feature/", lit) by {
      assert Fold('F') == 'f';
    }
    assert name[8..] == "Login";
    assert NoLineTerminators("Login");
  }

  /** ... and rejects the bare prefix without its slash and every other prefix. */
  lemma FeatureRejects()
    ensures !Matches("feature", "feature/*")
    ensures !Matches("hotfix/login", "feature/*")
  {
    var lit := "feature/";
    assert "feature/*" == lit + ['*'];
    HeadThenStar("feature", lit);
    HeadThenStar("hotfix/login", lit);
    assert Fold("hotfix/login"[..8][0]) != Fold(lit[0]);
  }

  /** Regular-expression metacharacters are plain characters. */
  lemma MetacharactersAreLiteral()
    ensures Matches("a.b", "a.b") && !Matches("axb", "a.b")
    ensures Matches("v1+(x)", "V1+(X)")
  {
    LiteralPattern("a.b", "a.b");
    LiteralPattern("axb", "a.b");
    assert Fold("axb"[1]) != Fold("a.b"[1]);
    LiteralPattern("v1+(x)", "V1+(X)");
  }

  /** A question mark stands for exactly one character. */
  lemma QuestionMarkIsOneCharacter()
    ensures Matches("fix-1", "fix-?") && !Matches("fix-10", "fix-?")
  {
    assert "fix-?" == "fix-" + ['?'];
    LiteralHead("fix-1", "fix-", ['?']);
    LiteralHead("fix-10", "fix-", ['?']);
    assert "fix-1"[..4] == "fix-" && "fix-10"[..4] == "fix-";
    assert "fix-1"[4..] == "1" && "fix-10"[4..] == "10";
    LeadingQuestion("1", []);
    LeadingQuestion("10", []);
    assert "10"[1..] == "0";
  }
}
