/**
 * Character classes and the whitespace stripping that every request handler
 * applies to its form fields (Python's `str.strip()` with no argument),
 * restricted to ASCII.
 */
module Text {

  /** The ASCII characters for which Python's `str.isspace()` holds; the
      regular-expression class `\s` accepts the same ones. */
  predicate IsSpace(c: char) {
    c == ' ' || c == '\t' || c == '\n' || c == '\r' || c == '\U{0B}' || c == '\U{0C}'
    || ('\U{1C}' <= c <= '\U{1F}')
  }

  predicate IsDigit(c: char) {
    '0' <= c <= '9'
  }

  predicate IsLetter(c: char) {
    'a' <= c <= 'z' || 'A' <= c <= 'Z'
  }

  predicate AllSpace(s: string) {
    forall k :: 0 <= k < |s| ==> IsSpace(s[k])
  }

  /** A string that `Strip` leaves alone: it neither starts nor ends with whitespace. */
  predicate NoOuterSpace(s: string) {
    s == [] || (!IsSpace(s[0]) && !IsSpace(s[|s| - 1]))
  }

  /** Python's `s.strip()`: whitespace is removed from both ends until
      neither end is whitespace. */
  function Strip(s: string): (r: string)
    ensures NoOuterSpace(r)
    ensures |r| <= |s|
    decreases |s|
  {
    if s != [] && IsSpace(s[0]) then Strip(s[1..])
    else if s != [] && IsSpace(s[|s| - 1]) then Strip(s[..|s| - 1])
    else s
  }

  /** `r` sits in `s` at index `i`, with only whitespace before and after it. */
  predicate SpaceAround(s: string, r: string, i: nat) {
    && i + |r| <= |s|
    && r == s[i..i + |r|]
    && (forall k :: 0 <= k < i ==> IsSpace(s[k]))
    && (forall k :: i + |r| <= k < |s| ==> IsSpace(s[k]))
  }

  /** Stripping only removes whitespace: the result sits inside `s` with whitespace around it. */
  lemma {:induction false} StripInfix(s: string) returns (i: nat)
    ensures SpaceAround(s, Strip(s), i)
    decreases |s|
  {
    if s != [] && IsSpace(s[0]) {
      var j := StripInfix(s[1..]);
      SpaceBefore(s, Strip(s), j);
      i := j + 1;
    } else if s != [] && IsSpace(s[|s| - 1]) {
      i := StripInfix(s[..|s| - 1]);
      SpaceAfter(s, Strip(s), i);
    } else {
      i := 0;
    }
  }

  /** A whitespace character in front keeps `r` surrounded by whitespace. */
  lemma SpaceBefore(s: string, r: string, j: nat)
    requires s != [] && IsSpace(s[0]) && SpaceAround(s[1..], r, j)
    ensures SpaceAround(s, r, j + 1)
  {
    forall k | 0 < k < j + 1 ensures IsSpace(s[k]) {
      assert s[k] == s[1..][k - 1];
    }
    forall k | j + 1 + |r| <= k < |s| ensures IsSpace(s[k]) {
      assert s[k] == s[1..][k - 1];
    }
    assert s[1..][j..j + |r|] == s[j + 1..j + 1 + |r|];
  }

  /** A whitespace character at the end keeps `r` surrounded by whitespace. */
  lemma SpaceAfter(s: string, r: string, i: nat)
    requires s != [] && IsSpace(s[|s| - 1]) && SpaceAround(s[..|s| - 1], r, i)
    ensures SpaceAround(s, r, i)
  {
    forall k | i + |r| <= k < |s| - 1 ensures IsSpace(s[k]) {
      assert s[k] == s[..|s| - 1][k];
    }
    assert s[..|s| - 1][i..i + |r|] == s[i..i + |r|];
  }

  /** Stripping leaves nothing exactly when the string is all whitespace. */
  lemma StripEmpty(s: string)
    ensures Strip(s) == [] <==> AllSpace(s)
  {
    var i := StripInfix(s);
    if Strip(s) != [] {
      assert Strip(s)[0] == s[i];
    }
  }

  /** Stripping is idempotent: a string without outer whitespace is its own strip. */
  lemma StripFixed(s: string)
    requires NoOuterSpace(s)
    ensures Strip(s) == s
  {
  }

  lemma StripIdempotent(s: string)
    ensures Strip(Strip(s)) == Strip(s)
  {
    StripFixed(Strip(s));
  }

  /** SQLite's ASCII-only case folding, used by LIKE. */
  function Lower(c: char): (r: char)
    ensures 'A' <= c <= 'Z' ==> 'a' <= r <= 'z' && r as int - c as int == 32
    ensures !('A' <= c <= 'Z') ==> r == c
  {
    if 'A' <= c <= 'Z' then (c as int + 32) as char else c
  }
}
