/**
 * SQLite's `LIKE` operator with its default settings: `%` matches any run of
 * characters, `_` matches exactly one, there is no escape character, and
 * letters compare without regard to case for ASCII only.
 */
module SqlLike {
  import opened Text

  predicate IsWildcard(c: char) {
    c == '%' || c == '_'
  }

  predicate NoWildcards(t: string) {
    forall k :: 0 <= k < |t| ==> !IsWildcard(t[k])
  }

  /** `s LIKE p`. */
  function Like(s: string, p: string): (r: bool)
    ensures NoWildcards(p) ==> (r <==> |s| == |p| && forall k :: 0 <= k < |s| ==> Lower(s[k]) == Lower(p[k]))
    decreases |s| + |p|
  {
    if p == [] then s == []
    else if p[0] == '%' then Like(s, p[1..]) || (s != [] && Like(s[1..], p))
    else s != [] && (p[0] == '_' || Lower(s[0]) == Lower(p[0])) && Like(s[1..], p[1..])
  }

  /** `t` occurs in `s` at position `i`, ignoring ASCII case. */
  predicate MatchAt(s: string, t: string, i: int) {
    0 <= i && i + |t| <= |s| && forall k :: 0 <= k < |t| ==> Lower(s[i + k]) == Lower(t[k])
  }

  /** `t` is a substring of `s`, ignoring ASCII case. */
  ghost predicate ContainsIgnoringCase(s: string, t: string) {
    exists i :: MatchAt(s, t, i)
  }

  /** The pattern the search handlers build from the user's text: `f"%{search}%"`. */
  function SearchPattern(search: string): (p: string)
    ensures |p| == |search| + 2 && p[0] == '%' && p[|p| - 1] == '%'
  {
    "%" + search + "%"
  }

  /** A lone `%` matches every string. */
  lemma {:induction false} LikeAnything(s: string)
    ensures Like(s, "%")
    decreases |s|
  {
    if s != [] {
      LikeAnything(s[1..]);
    }
  }

  /** A wildcard-free text followed by `%` matches exactly the strings that start with that text. */
  lemma {:induction false} LikePrefix(s: string, t: string)
    requires NoWildcards(t)
    ensures Like(s, t + "%") <==> MatchAt(s, t, 0)
    decreases |t|
  {
    if t == [] {
      assert t + "%" == "%";
      LikeAnything(s);
    } else {
      var p := t + "%";
      assert p[0] == t[0] && p[1..] == t[1..] + "%";
      LikePrefix(if s == [] then s else s[1..], t[1..]);
      if s != [] {
        if MatchAt(s, t, 0) {
          forall k | 0 <= k < |t[1..]| ensures Lower(s[1..][k]) == Lower(t[1..][k]) {
            assert Lower(s[k + 1]) == Lower(t[k + 1]);
          }
        }
        if Lower(s[0]) == Lower(t[0]) && MatchAt(s[1..], t[1..], 0) {
          forall k | 0 <= k < |t| ensures Lower(s[k]) == Lower(t[k]) {
            if k > 0 {
              assert Lower(s[1..][k - 1]) == Lower(t[1..][k - 1]);
            }
          }
        }
      }
    }
  }

  /** A leading `%` lets the rest of the pattern match any suffix. */
  lemma {:induction false} LikeSuffix(s: string, q: string)
    ensures Like(s, "%" + q) <==> exists i :: 0 <= i <= |s| && Like(s[i..], q)
    decreases |s|
  {
    var p := "%" + q;
    assert p[0] == '%' && p[1..] == q;
    assert s[0..] == s;
    if s == [] {
      assert Like(s, p) <==> Like(s, q);
    } else {
      LikeSuffix(s[1..], q);
      if !Like(s, q) && Like(s[1..], p) {
        var i :| 0 <= i <= |s[1..]| && Like(s[1..][i..], q);
        assert s[1..][i..] == s[i + 1..];
      }
      if exists i :: 0 <= i <= |s| && Like(s[i..], q) {
        var i :| 0 <= i <= |s| && Like(s[i..], q);
        if i == 0 {
          assert s[i..] == s;
        } else {
          assert s[1..][i - 1..] == s[i..];
        }
      }
    }
  }

  /** The search pattern of a wildcard-free text is a case-insensitive substring test. */
  lemma SearchIsSubstring(s: string, search: string)
    requires NoWildcards(search)
    ensures Like(s, SearchPattern(search)) <==> ContainsIgnoringCase(s, search)
  {
    var q := search + "%";
    assert SearchPattern(search) == "%" + q;
    LikeSuffix(s, q);
    if Like(s, SearchPattern(search)) {
      var i :| 0 <= i <= |s| && Like(s[i..], q);
      LikePrefix(s[i..], search);
      forall k | 0 <= k < |search| ensures Lower(s[i + k]) == Lower(search[k]) {
        assert s[i..][k] == s[i + k];
      }
      assert MatchAt(s, search, i);
    }
    if ContainsIgnoringCase(s, search) {
      var i :| MatchAt(s, search, i);
      forall k | 0 <= k < |search| ensures Lower(s[i..][k]) == Lower(search[k]) {
        assert s[i..][k] == s[i + k];
      }
      LikePrefix(s[i..], search);
    }
  }
}
