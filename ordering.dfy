/**
 * `ORDER BY name` under SQLite's default BINARY collation: strings compare
 * character by character on their code points (the order of their UTF-8
 * bytes), and a proper prefix sorts first.
 */
module Ordering {

  /** `a <= b` in the BINARY collation. */
  predicate NameLe(a: string, b: string) {
    a == [] || (b != [] && (a[0] < b[0] || (a[0] == b[0] && NameLe(a[1..], b[1..]))))
  }

  lemma {:induction false} NameLeTotal(a: string, b: string)
    ensures NameLe(a, b) || NameLe(b, a)
  {
    if a != [] && b != [] && a[0] == b[0] {
      NameLeTotal(a[1..], b[1..]);
    }
  }

  lemma {:induction false} NameLeTransitive(a: string, b: string, c: string)
    requires NameLe(a, b) && NameLe(b, c)
    ensures NameLe(a, c)
  {
    if a != [] && a[0] == b[0] && b[0] == c[0] {
      NameLeTransitive(a[1..], b[1..], c[1..]);
    }
  }

  lemma {:induction false} NameLeAntisymmetric(a: string, b: string)
    requires NameLe(a, b) && NameLe(b, a)
    ensures a == b
  {
    if a != [] {
      NameLeAntisymmetric(a[1..], b[1..]);
      assert a == [a[0]] + a[1..] && b == [b[0]] + b[1..];
    }
  }

  /** Every row is in order with every later row. */
  ghost predicate SortedBy<T>(s: seq<T>, key: T -> string) {
    forall i, j :: 0 <= i < j < |s| ==> NameLe(key(s[i]), key(s[j]))
  }

  /** `x` placed into the sorted `s` after every row whose key is not greater than its own. */
  function Insert<T>(x: T, s: seq<T>, key: T -> string): (r: seq<T>)
    ensures |r| == |s| + 1
    ensures multiset(r) == multiset(s) + multiset{x}
  {
    if s == [] then [x]
    else if NameLe(key(x), key(s[0])) && key(x) != key(s[0]) then [x] + s
    else
      assert s == [s[0]] + s[1..];
      [s[0]] + Insert(x, s[1..], key)
  }

  lemma {:induction false} InsertSorted<T>(x: T, s: seq<T>, key: T -> string)
    requires SortedBy(s, key)
    ensures SortedBy(Insert(x, s, key), key)
  {
    if s != [] {
      var r := Insert(x, s, key);
      if NameLe(key(x), key(s[0])) && key(x) != key(s[0]) {
        forall i, j | 0 <= i < j < |r| ensures NameLe(key(r[i]), key(r[j])) {
          if i == 0 && j > 1 {
            NameLeTransitive(key(x), key(s[0]), key(s[j - 1]));
          }
        }
      } else {
        InsertSorted(x, s[1..], key);
        var t := Insert(x, s[1..], key);
        NameLeTotal(key(x), key(s[0]));
        if key(x) == key(s[0]) {
          NameLeTotal(key(x), key(x));
        }
        assert r == [s[0]] + t;
        forall j | 0 <= j < |t| ensures NameLe(key(s[0]), key(t[j])) {
          assert t[j] in multiset(t);
          if t[j] != x {
            assert t[j] in multiset(s[1..]);
            var m :| 0 <= m < |s[1..]| && s[1..][m] == t[j];
            assert s[1..][m] == s[m + 1];
          }
        }
        forall i, j | 0 <= i < j < |r| ensures NameLe(key(r[i]), key(r[j])) {
          if i > 0 {
            assert r[i] == t[i - 1] && r[j] == t[j - 1];
          } else {
            assert r[j] == t[j - 1];
          }
        }
      }
    }
  }

  /** The rows of `s` in ascending key order; rows with equal keys keep their
      table order. */
  function SortBy<T>(s: seq<T>, key: T -> string): (r: seq<T>)
    ensures |r| == |s|
    ensures multiset(r) == multiset(s)
  {
    if s == [] then []
    else
      assert s == s[..|s| - 1] + [s[|s| - 1]];
      Insert(s[|s| - 1], SortBy(s[..|s| - 1], key), key)
  }

  /** Sorting yields a permutation in ascending key order. */
  lemma {:induction false} SortBySorted<T>(s: seq<T>, key: T -> string)
    ensures SortedBy(SortBy(s, key), key)
  {
    if s != [] {
      SortBySorted(s[..|s| - 1], key);
      InsertSorted(s[|s| - 1], SortBy(s[..|s| - 1], key), key);
    }
  }

  /** Sorting keeps exactly the rows it was given. */
  lemma SortByMembers<T>(s: seq<T>, key: T -> string, x: T)
    ensures x in SortBy(s, key) <==> x in s
  {
    assert x in SortBy(s, key) <==> x in multiset(SortBy(s, key));
    assert x in s <==> x in multiset(s);
  }

  /** `SortByMembers` for every element at once. */
  lemma SortByMembersAll<T>(s: seq<T>, key: T -> string)
    ensures forall x :: x in SortBy(s, key) <==> x in s
  {
    forall x ensures x in SortBy(s, key) <==> x in s {
      SortByMembers(s, key, x);
    }
  }

  /** A run of consecutive rows of a sorted sequence is sorted. */
  lemma SortedRun<T>(s: seq<T>, r: seq<T>, key: T -> string, d: nat)
    requires SortedBy(s, key)
    requires d + |r| <= |s| && r == s[d..d + |r|]
    ensures SortedBy(r, key)
  {
    forall i, j | 0 <= i < j < |r| ensures NameLe(key(r[i]), key(r[j])) {
      assert r[i] == s[d + i] && r[j] == s[d + j];
    }
  }
}
