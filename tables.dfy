/**
 * A table is a sequence of rows in rowid order. `WHERE` keeps the rows that
 * satisfy a condition, in that order; `DELETE ... WHERE` keeps the others;
 * `fetchone()` takes the first row a query returns.
 */
module Tables {
  import opened Wrappers

  /** SQLite stores integers in 64 bits. Binding a Python `int` outside that
      range as a query parameter raises `OverflowError`, which is not a
      `sqlite3.Error`. */
  predicate Bindable(x: int) {
    -0x8000_0000_0000_0000 <= x < 0x8000_0000_0000_0000
  }

  /** `SELECT * ... WHERE p` with `fetchone()`: the first row satisfying `p`. */
  function Find<T>(rows: seq<T>, p: T -> bool): (r: Option<T>)
    ensures r.Some? ==> r.value in rows && p(r.value)
    ensures r.None? <==> forall k :: 0 <= k < |rows| ==> !p(rows[k])
  {
    if rows == [] then None
    else if p(rows[0]) then Some(rows[0])
    else Find(rows[1..], p)
  }

  /** Rows that `p` rejects in front of the table do not change what `Find` returns. */
  lemma {:induction false} FindAfterMisses<T>(a: seq<T>, b: seq<T>, p: T -> bool)
    requires forall k :: 0 <= k < |a| ==> !p(a[k])
    ensures Find(a + b, p) == Find(b, p)
  {
    if a == [] {
      assert a + b == b;
    } else {
      assert (a + b)[1..] == a[1..] + b;
      FindAfterMisses(a[1..], b, p);
    }
  }

  /** The rows of `rows` that satisfy `p`, in table order. */
  function Filter<T(!new)>(rows: seq<T>, p: T -> bool): (r: seq<T>)
    ensures |r| <= |rows|
    ensures forall x :: x in r <==> x in rows && p(x)
  {
    if rows == [] then []
    else (if p(rows[0]) then [rows[0]] else []) + Filter(rows[1..], p)
  }

  /** When every row satisfies `p`, nothing is dropped. */
  lemma {:induction false} FilterAll<T(!new)>(rows: seq<T>, p: T -> bool)
    requires forall x :: x in rows ==> p(x)
    ensures Filter(rows, p) == rows
  {
    if rows != [] {
      FilterAll(rows[1..], p);
      assert rows == [rows[0]] + rows[1..];
    }
  }

  /** Filtering twice by the same condition is filtering once. */
  lemma FilterIdempotent<T(!new)>(rows: seq<T>, p: T -> bool)
    ensures Filter(Filter(rows, p), p) == Filter(rows, p)
  {
    FilterAll(Filter(rows, p), p);
  }

  /** Filtering distributes over appending rows. */
  lemma {:induction false} FilterAppend<T(!new)>(a: seq<T>, b: seq<T>, p: T -> bool)
    ensures Filter(a + b, p) == Filter(a, p) + Filter(b, p)
  {
    if a == [] {
      assert a + b == b;
    } else {
      assert (a + b)[0] == a[0] && (a + b)[1..] == a[1..] + b;
      FilterAppend(a[1..], b, p);
    }
  }

  /** A filter that drops no row has a condition every row satisfies. */
  lemma {:induction false} FilterNoneDropped<T(!new)>(rows: seq<T>, p: T -> bool)
    requires |Filter(rows, p)| == |rows|
    ensures forall x :: x in rows ==> p(x)
  {
    if rows != [] && p(rows[0]) {
      FilterNoneDropped(rows[1..], p);
      assert forall x :: x in rows ==> x == rows[0] || x in rows[1..];
    }
  }

  /** `key` strictly increases along `rows`. */
  ghost predicate Increasing<T>(rows: seq<T>, key: T -> int) {
    forall i, j :: 0 <= i < j < |rows| ==> key(rows[i]) < key(rows[j])
  }

  /** Filtering keeps the rows in table order: a key that strictly increases
      along the table still does along the result. */
  lemma {:induction false} FilterIncreasing<T(!new)>(rows: seq<T>, p: T -> bool, key: T -> int)
    requires Increasing(rows, key)
    ensures Increasing(Filter(rows, p), key)
  {
    if rows != [] {
      var tail := Filter(rows[1..], p);
      FilterIncreasing(rows[1..], p, key);
      forall x | x in tail ensures key(rows[0]) < key(x) {
        assert x in rows[1..];
        var m :| 0 <= m < |rows| - 1 && rows[1..][m] == x;
        assert rows[1..][m] == rows[m + 1];
      }
      if p(rows[0]) {
        assert Filter(rows, p) == [rows[0]] + tail;
        IncreasingCons(rows[0], tail, key);
      } else {
        assert Filter(rows, p) == tail;
      }
    }
  }

  /** What an AUTOINCREMENT key guarantees: it strictly increases in table
      order and stays below `next`, the value it hands out next. */
  ghost predicate IdsBelow<T>(rows: seq<T>, key: T -> int, next: int) {
    && Increasing(rows, key)
    && forall i :: 0 <= i < |rows| ==> key(rows[i]) < next
  }

  /** Deleting rows keeps the ids increasing and below the counter. */
  lemma FilterIdsBelow<T(!new)>(rows: seq<T>, p: T -> bool, key: T -> int, next: int)
    requires IdsBelow(rows, key, next)
    ensures IdsBelow(Filter(rows, p), key, next)
  {
    FilterIncreasing(rows, p, key);
    var r := Filter(rows, p);
    forall i | 0 <= i < |r| ensures key(r[i]) < next {
      assert r[i] in r;
    }
  }

  /** Inserting a row under the next id keeps the invariant with the counter advanced. */
  lemma AppendIdsBelow<T>(rows: seq<T>, x: T, key: T -> int, next: int)
    requires IdsBelow(rows, key, next) && key(x) == next
    ensures IdsBelow(rows + [x], key, next + 1)
  {
  }

  lemma IncreasingCons<T>(h: T, tail: seq<T>, key: T -> int)
    requires Increasing(tail, key)
    requires forall x :: x in tail ==> key(h) < key(x)
    ensures Increasing([h] + tail, key)
  {
    var r := [h] + tail;
    forall i, j | 0 <= i < j < |r| ensures key(r[i]) < key(r[j]) {
      assert r[j] == tail[j - 1];
      if i == 0 {
        assert r[j] in tail;
      } else {
        assert r[i] == tail[i - 1];
      }
    }
  }
}
