/**
  The email check of the signup form: `/\S+@\S+\.\S+/.test(email)`. The
  pattern is not anchored, so it succeeds when SOME substring of the email
  has the shape non-whitespace+ '@' non-whitespace+ '.' non-whitespace+.
 */
module EmailPattern {
  import opened JsString

  /**
    The pattern matches s[a..end]: `\S+` on s[a..at], '@' at `at`, `\S+` on
    s[at+1..dot], '.' at `dot` and `\S+` on s[dot+1..end].
   */
  ghost predicate MatchAt(s: string, a: int, at: int, dot: int, end: int) {
    && 0 <= a < at && at + 1 < dot && dot + 1 < end <= |s|
    && s[at] == '@' && s[dot] == '.'
    && NoWhitespace(s[a..at]) && NoWhitespace(s[at + 1..dot]) && NoWhitespace(s[dot + 1..end])
  }

  /** The semantics of `RegExp.prototype.test` for the unanchored pattern. */
  ghost predicate Matches(s: string) {
    exists a, at, dot, end :: MatchAt(s, a, at, dot, end)
  }

  /**
    The test the form runs. Each `\S+` can be shrunk to its character next to
    the '@' or the '.', so it is enough to look for an '@' and a later '.' that
    sit inside one whitespace-free stretch with a character before the '@',
    one between them and one after the '.'.
   */
  function Test(s: string): bool {
    exists at, dot | 0 < at < |s| && at + 1 < dot < |s| - 1 ::
      s[at] == '@' && s[dot] == '.' && NoWhitespace(s[at - 1..dot + 2])
  }

  /** `Test` decides exactly the regular expression's unanchored match. */
  lemma TestIsMatch(s: string)
    ensures Test(s) <==> Matches(s)
  {
    if Test(s) {
      TestFindsMatch(s);
    }
    if Matches(s) {
      MatchPassesTest(s);
    }
  }

  lemma TestFindsMatch(s: string)
    requires Test(s)
    ensures Matches(s)
  {
    var at, dot :| 0 < at < |s| && at + 1 < dot < |s| - 1
      && s[at] == '@' && s[dot] == '.' && NoWhitespace(s[at - 1..dot + 2]);
    NoWhitespaceSlice(s, at - 1, dot + 2, at - 1, at);
    NoWhitespaceSlice(s, at - 1, dot + 2, at + 1, dot);
    NoWhitespaceSlice(s, at - 1, dot + 2, dot + 1, dot + 2);
    assert MatchAt(s, at - 1, at, dot, dot + 2);
  }

  lemma MatchPassesTest(s: string)
    requires Matches(s)
    ensures Test(s)
  {
    var a, at, dot, end :| MatchAt(s, a, at, dot, end);
    var w := s[at - 1..dot + 2];
    forall i | 0 <= i < |w|
      ensures !IsWhitespace(w[i])
    {
      var k := at - 1 + i;
      assert w[i] == s[k];
      if k == at || k == dot {
      } else if k < at {
        assert s[k] == s[a..at][k - a];
      } else if k < dot {
        assert s[k] == s[at + 1..dot][k - at - 1];
      } else {
        assert s[k] == s[dot + 1..end][0];
      }
    }
    assert 0 < at < |s| && at + 1 < dot < |s| - 1 && s[at] == '@' && s[dot] == '.';
  }

  lemma NoWhitespaceSlice(s: string, i: int, j: int, k: int, l: int)
    requires 0 <= i <= k <= l <= j <= |s|
    requires NoWhitespace(s[i..j])
    ensures NoWhitespace(s[k..l])
  {
    forall n | 0 <= n < l - k
      ensures !IsWhitespace(s[k..l][n])
    {
      assert s[k..l][n] == s[i..j][k - i + n];
    }
  }

  /** Text around a match never spoils it: the test is unanchored. */
  lemma MatchIsUnanchored(p: string, s: string, q: string)
    requires Matches(s)
    ensures Matches(p + s + q)
  {
    var a, at, dot, end :| MatchAt(s, a, at, dot, end);
    var u := p + s + q;
    var n := |p|;
    assert u[n + a..n + at] == s[a..at];
    assert u[n + at + 1..n + dot] == s[at + 1..dot];
    assert u[n + dot + 1..n + end] == s[dot + 1..end];
    assert u[n + at] == s[at] && u[n + dot] == s[dot];
    assert MatchAt(u, n + a, n + at, n + dot, n + end);
  }

  /** The empty string never matches, so the source's `!email` test adds nothing. */
  lemma EmptyNeverMatches()
    ensures !Matches("")
    ensures !Test("")
  {
  }

  /** Sample inputs: a bare address, one padded with spaces, and three misses. */
  lemma Samples()
    ensures Matches("a@b.c")
    ensures Matches(" mail: a@b.c ")
    ensures !Matches("a@b")
    ensures !Matches("a @b.c")
    ensures !Matches("a@.c")
  {
    var s := "a@b.c";
    assert MatchAt(s, 0, 1, 3, 5);
    MatchIsUnanchored(" mail: ", s, " ");
    assert " mail: " + s + " " == " mail: a@b.c ";
    assert "a @b.c"[1..2] == " ";
    assert !NoWhitespace(" ") by { assert IsWhitespace(" "[0]); }
  }
}
