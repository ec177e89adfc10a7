/**
  The two pieces of JavaScript string semantics the signup form relies on:
  the `\s` character class of its email pattern and `String.prototype.trim`,
  which the custom-preference adder applies to its input buffer. Both use one
  whitespace set (ECMAScript WhiteSpace plus LineTerminator).
 */
module JsString {

  /** A character that `\s` matches and `trim` removes. */
  predicate IsWhitespace(c: char) {
    || c == ' ' || c == '\t' || c == '\n' || c == '\r'
    || c == '\U{000B}' || c == '\U{000C}'
    || c == '\U{00A0}' || c == '\U{1680}'
    || ('\U{2000}' <= c <= '\U{200A}')
    || c == '\U{2028}' || c == '\U{2029}'
    || c == '\U{202F}' || c == '\U{205F}' || c == '\U{3000}'
    || c == '\U{FEFF}'
  }

  /** Every character of `s` is matched by `\S`. */
  predicate NoWhitespace(s: string) {
    forall i | 0 <= i < |s| :: !IsWhitespace(s[i])
  }

  /** Every character of `s` is whitespace (vacuously so for ""). */
  predicate AllWhitespace(s: string) {
    forall i | 0 <= i < |s| :: IsWhitespace(s[i])
  }

  /** `s` is empty or starts and ends with a non-whitespace character. */
  predicate Trimmed(s: string) {
    s == [] || (!IsWhitespace(s[0]) && !IsWhitespace(s[|s| - 1]))
  }

  /** `s` with its leading whitespace removed. */
  function TrimStart(s: string): string
    decreases |s|
  {
    if s != [] && IsWhitespace(s[0]) then TrimStart(s[1..]) else s
  }

  /** `s` with its trailing whitespace removed. */
  function TrimEnd(s: string): string
    decreases |s|
  {
    if s != [] && IsWhitespace(s[|s| - 1]) then TrimEnd(s[..|s| - 1]) else s
  }

  /**
    `TrimStart` keeps a suffix of its input: everything it drops is
    whitespace, and what it keeps does not start with whitespace.
   */
  lemma {:induction false} TrimStartSpec(s: string)
    ensures var r := TrimStart(s);
      && |r| <= |s| && r == s[|s| - |r|..]
      && AllWhitespace(s[..|s| - |r|])
      && (r == [] || !IsWhitespace(r[0]))
    decreases |s|
  {
    if s != [] && IsWhitespace(s[0]) {
      var t := s[1..];
      var r := TrimStart(t);
      TrimStartSpec(t);
      assert r == t[|t| - |r|..] == s[|s| - |r|..];
      var dropped := s[..|s| - |r|];
      assert dropped == [s[0]] + t[..|t| - |r|];
      assert forall i | 1 <= i < |dropped| :: dropped[i] == t[..|t| - |r|][i - 1];
    }
  }

  /**
    `TrimEnd` keeps a prefix of its input: everything it drops is
    whitespace, and what it keeps does not end with whitespace.
   */
  lemma {:induction false} TrimEndSpec(s: string)
    ensures var r := TrimEnd(s);
      && |r| <= |s| && r == s[..|r|]
      && AllWhitespace(s[|r|..])
      && (r == [] || !IsWhitespace(r[|r| - 1]))
    decreases |s|
  {
    if s != [] && IsWhitespace(s[|s| - 1]) {
      var r := TrimEnd(s[..|s| - 1]);
      TrimEndSpec(s[..|s| - 1]);
      assert s[|r|..] == s[..|s| - 1][|r|..] + [s[|s| - 1]];
    }
  }

  /** `String.prototype.trim`: whitespace removed from both ends. */
  function Trim(s: string): (r: string)
    ensures Trimmed(r)
    ensures r == [] <==> AllWhitespace(s)
  {
    TrimFacts(s);
    TrimEnd(TrimStart(s))
  }

  lemma TrimFacts(s: string)
    ensures var r := TrimEnd(TrimStart(s)); Trimmed(r) && (r == [] <==> AllWhitespace(s))
  {
    var t := TrimStart(s);
    var r := TrimEnd(t);
    TrimStartSpec(s);
    TrimEndSpec(t);
    assert r != [] ==> r[0] == t[0];
    if r == [] {
      assert s == s[..|s| - |t|] + t;
      AllWhitespaceConcat(s[..|s| - |t|], t);
    } else {
      assert !IsWhitespace(s[|s| - |t|]);
    }
  }

  /**
    `Trim` returns a slice of its input, and only whitespace lies outside
    that slice on either side.
   */
  lemma TrimKeepsCore(s: string)
    ensures exists i, j ::
              && 0 <= i <= j <= |s| && Trim(s) == s[i..j]
              && AllWhitespace(s[..i]) && AllWhitespace(s[j..])
  {
    var t := TrimStart(s);
    var r := TrimEnd(t);
    TrimStartSpec(s);
    TrimEndSpec(t);
    var i := |s| - |t|;
    var j := i + |r|;
    assert r == s[i..j];
    assert s[j..] == t[|r|..];
  }

  lemma AllWhitespaceConcat(p: string, q: string)
    requires AllWhitespace(p) && AllWhitespace(q)
    ensures AllWhitespace(p + q)
  {
  }

  /** Leading whitespace never survives `TrimStart`. */
  lemma {:induction false} TrimStartSkips(p: string, t: string)
    requires AllWhitespace(p)
    ensures TrimStart(p + t) == TrimStart(t)
    decreases |p|
  {
    if p != [] {
      var u := p + t;
      assert u[0] == p[0] && IsWhitespace(u[0]);
      assert u[1..] == p[1..] + t;
      assert TrimStart(u) == TrimStart(u[1..]);
      TrimStartSkips(p[1..], t);
    } else {
      assert p + t == t;
    }
  }

  /** Trailing whitespace never survives `TrimEnd`. */
  lemma {:induction false} TrimEndSkips(t: string, q: string)
    requires AllWhitespace(q)
    ensures TrimEnd(t + q) == TrimEnd(t)
    decreases |q|
  {
    if q != [] {
      var u := t + q;
      assert u[|u| - 1] == q[|q| - 1] && IsWhitespace(u[|u| - 1]);
      assert u[..|u| - 1] == t + q[..|q| - 1];
      assert TrimEnd(u) == TrimEnd(u[..|u| - 1]);
      TrimEndSkips(t, q[..|q| - 1]);
    } else {
      assert t + q == t;
    }
  }

  /**
    The reference definition of `trim`: whatever whitespace surrounds a
    trimmed core, `Trim` returns exactly that core.
   */
  lemma TrimUnique(p: string, r: string, q: string)
    requires AllWhitespace(p) && AllWhitespace(q) && Trimmed(r)
    ensures Trim(p + r + q) == r
  {
    assert p + r + q == p + (r + q);
    TrimStartSkips(p, r + q);
    if r == [] {
      assert r + q == q;
      TrimStartSpec(q);
      assert TrimStart(q) == [];
    } else {
      assert TrimStart(r + q) == r + q;
      TrimEndSkips(r, q);
    }
  }

  /** Trimming twice is trimming once. */
  lemma TrimIdempotent(s: string)
    ensures Trim(Trim(s)) == Trim(s)
  {
    var r := Trim(s);
    assert [] + r + [] == r;
    TrimUnique([], r, []);
  }
}
