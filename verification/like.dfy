/**
 * PostgreSQL's `LIKE`, as `find({ where: { path: Like(pattern) } })` applies it:
 * `%` matches any run of characters, `_` any single character, and a backslash
 * makes the character after it literal. A pattern that ends in a lone backslash
 * is rejected by the database.
 */
module Like {
  import opened Strings

  const Percent: char := '%'
  const Underscore: char := '_'
  const Escape: char := '\\'

  predicate IsMeta(c: char)
  {
    c == Percent || c == Underscore || c == Escape
  }

  /** `pat` has no character that `LIKE` treats specially. */
  predicate Literal(pat: string)
  {
    forall i :: 0 <= i < |pat| ==> !IsMeta(pat[i])
  }

  /** `s LIKE pat`. */
  predicate Matches(s: string, pat: string)
    decreases |pat|, |s|
  {
    if |pat| == 0 then |s| == 0
    else if pat[0] == Percent then Matches(s, pat[1..]) || (|s| > 0 && Matches(s[1..], pat))
    else if pat[0] == Underscore then |s| > 0 && Matches(s[1..], pat[1..])
    else if pat[0] == Escape then |pat| >= 2 && |s| > 0 && s[0] == pat[1] && Matches(s[1..], pat[2..])
    else |s| > 0 && s[0] == pat[0] && Matches(s[1..], pat[1..])
  }

  /** The pattern ends in an escape character with nothing to escape. */
  predicate EndsInEscape(pat: string)
    decreases |pat|
  {
    if |pat| == 0 then false
    else if pat[0] == Escape then |pat| == 1 || EndsInEscape(pat[2..])
    else EndsInEscape(pat[1..])
  }

  /** A pattern without backslashes cannot end in an escape. */
  lemma {:induction false} NoEscapeIsWellFormed(pat: string)
    requires Escape !in pat
    ensures !EndsInEscape(pat)
    decreases |pat|
  {
    if |pat| > 0 {
      assert pat == [pat[0]] + pat[1..];
      NoEscapeIsWellFormed(pat[1..]);
    }
  }

  /** `lit` with a backslash in front of every character. */
  function Escaped(lit: string): (pat: string)
    ensures |pat| == 2 * |lit|
    decreases |lit|
  {
    if |lit| == 0 then [] else [Escape, lit[0]] + Escaped(lit[1..])
  }

  /** A lone `%` matches every string, the empty one included. */
  lemma {:induction false} PercentMatchesAll(s: string)
    ensures Matches(s, [Percent])
    decreases |s|
  {
    assert [Percent][1..] == [];
    if |s| > 0 {
      PercentMatchesAll(s[1..]);
    }
  }

  /** `n` underscores match exactly the strings of length `n`. */
  lemma {:induction false} UnderscoresMatchLength(s: string, n: nat)
    ensures Matches(s, seq(n, _ => Underscore)) <==> |s| == n
    decreases n
  {
    var pat := seq(n, _ => Underscore);
    if n > 0 {
      assert pat[1..] == seq(n - 1, _ => Underscore);
      if |s| > 0 {
        UnderscoresMatchLength(s[1..], n - 1);
      }
    }
  }

  /** Escaping every character makes any text, metacharacters included, match
      exactly itself; and such a pattern is well formed, while one more lone
      backslash after it is not. */
  lemma {:induction false} EscapedMatchesItself(s: string, lit: string)
    ensures Matches(s, Escaped(lit)) <==> s == lit
    ensures !EndsInEscape(Escaped(lit)) && EndsInEscape(Escaped(lit) + [Escape])
    decreases |lit|
  {
    var pat := Escaped(lit);
    if |lit| > 0 {
      assert pat[2..] == Escaped(lit[1..]);
      assert (pat + [Escape])[2..] == Escaped(lit[1..]) + [Escape];
      EscapedMatchesItself(if |s| > 0 then s[1..] else s, lit[1..]);
      if |s| > 0 && s[0] == lit[0] {
        assert s == [s[0]] + s[1..] && lit == [lit[0]] + lit[1..];
      }
    }
  }

  /** A literal head of a pattern matches exactly itself. */
  lemma {:induction false} LiteralPrefix(s: string, lit: string, rest: string)
    requires Literal(lit)
    ensures Matches(s, lit + rest) <==> lit <= s && Matches(s[|lit|..], rest)
    decreases |lit|
  {
    if |lit| == 0 {
      assert lit + rest == rest;
    } else {
      assert (lit + rest)[0] == lit[0];
      assert (lit + rest)[1..] == lit[1..] + rest;
      if |s| > 0 {
        LiteralPrefix(s[1..], lit[1..], rest);
        if |lit| <= |s| {
          assert s[1..][|lit| - 1..] == s[|lit|..];
          assert lit <= s <==> lit[1..] <= s[1..] && s[0] == lit[0];
        }
      }
    }
  }

  /** `%` followed by a literal matches exactly the strings that end with it. */
  lemma {:induction false} PercentThenLiteral(s: string, lit: string)
    requires Literal(lit)
    ensures Matches(s, [Percent] + lit) <==> |lit| <= |s| && s[|s| - |lit|..] == lit
    decreases |s|
  {
    var pat := [Percent] + lit;
    assert pat[1..] == lit;
    LiteralPrefix(s, lit, []);
    assert lit + [] == lit;
    if |s| > 0 {
      PercentThenLiteral(s[1..], lit);
      if |lit| <= |s| - 1 {
        assert s[1..][|s| - 1 - |lit|..] == s[|s| - |lit|..];
      }
    }
    if |lit| == |s| {
      assert s[|s| - |lit|..] == s;
    }
  }

  /**
   * The list pattern: the first `*` of a path free of `LIKE` metacharacters
   * becomes `%`, so a path matches when it starts with the text before that
   * `*` and ends with the text after it (further `*` are literal).
   */
  lemma WildcardMatches(s: string, path: string, i: nat)
    requires Literal(path)
    requires FirstOccurrence(path, "*", i)
    ensures Matches(s, ReplaceFirst(path, "*", [Percent]))
        <==> |path| - 1 <= |s| && path[..i] <= s && s[|s| - (|path| - i - 1)..] == path[i + 1..]
  {
    var pre, post := path[..i], path[i + 1..];
    WildcardPieces(path, i);
    LiteralPrefix(s, pre, [Percent] + post);
    if |pre| <= |s| {
      PercentThenLiteral(s[|pre|..], post);
      if |post| <= |s| - |pre| {
        assert s[|pre|..][|s| - |pre| - |post|..] == s[|s| - |post|..];
      }
    }
  }

  /** The list pattern is the literal text before the first `*`, `%`, and the
      literal text after it. */
  lemma WildcardPieces(path: string, i: nat)
    requires Literal(path)
    requires FirstOccurrence(path, "*", i)
    ensures ReplaceFirst(path, "*", [Percent]) == path[..i] + ([Percent] + path[i + 1..])
    ensures Literal(path[..i]) && Literal(path[i + 1..])
  {
    var post := path[i + 1..];
    assert forall j :: 0 <= j < |post| ==> post[j] == path[i + 1 + j];
  }
}
