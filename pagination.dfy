/**
 * Page arithmetic of the listing: `get_pagination`, the `LIMIT ? OFFSET ?`
 * window SQLite applies to the ordered rows, and the page count.
 */
module Pagination {

  /** The listing always asks for ten rows per page. */
  const PerPage: int := 10

  /** `get_pagination(page, per_page)`: the offset of the page's first row, and
      the page size. Python integers do not overflow. */
  function GetPagination(page: int, perPage: int): (r: (int, int))
    ensures r.1 == perPage
    ensures page >= 1 && perPage >= 0 ==> r.0 >= 0
  {
    ((page - 1) * perPage, perPage)
  }

  /** `LIMIT limit OFFSET offset` in SQLite: a negative offset counts as zero and
      a negative limit means no limit. */
  function Window<T>(rows: seq<T>, offset: int, limit: int): (r: seq<T>)
    ensures var skip := if offset < 0 then 0 else offset;
            |r| == if skip >= |rows| then 0 else if 0 <= limit < |rows| - skip then limit else |rows| - skip
    ensures forall k :: 0 <= k < |r| ==> r[k] == rows[(if offset < 0 then 0 else offset) + k]
  {
    var start := if offset <= 0 then 0 else if offset < |rows| then offset else |rows|;
    rows[start..if limit < 0 || start + limit > |rows| then |rows| else start + limit]
  }

  /** `(total + per_page - 1) // per_page`: the least number of pages of
      `perPage` rows that hold `total` rows. */
  function TotalPages(total: nat, perPage: int): (n: nat)
    requires perPage > 0
    ensures total == 0 ==> n == 0
    ensures total > 0 ==> (n - 1) * perPage < total <= n * perPage
  {
    var n := (total + perPage - 1) / perPage;
    assert n * perPage <= total + perPage - 1 < n * perPage + perPage;
    n
  }

  /** Page number `page` (counting from 1) of the ordered rows. */
  function Page<T>(rows: seq<T>, page: int): (p: seq<T>)
    ensures |p| <= PerPage
    ensures page >= 1 ==> forall k :: 0 <= k < |p| ==>
              (page - 1) * PerPage + k < |rows| && p[k] == rows[(page - 1) * PerPage + k]
    ensures page >= 1 && page * PerPage <= |rows| ==> |p| == PerPage
  {
    var (offset, limit) := GetPagination(page, PerPage);
    Window(rows, offset, limit)
  }

  /** Pages 1 to `n`, one after the other. */
  function Pages<T>(rows: seq<T>, n: nat): seq<T> {
    if n == 0 then [] else Pages(rows, n - 1) + Page(rows, n)
  }

  /** Pages 1 to `n` hold exactly the first `n` pages' worth of rows. */
  lemma {:induction false} PagesPrefix<T>(rows: seq<T>, n: nat)
    ensures Pages(rows, n) == rows[..if n * PerPage < |rows| then n * PerPage else |rows|]
  {
    if n > 0 {
      PagesPrefix(rows, n - 1);
    }
  }

  /** Browsing every page from 1 to the page count shows each row of the
      ordered result exactly once, in order: the pages partition the rows. */
  lemma PagesPartition<T>(rows: seq<T>)
    ensures Pages(rows, TotalPages(|rows|, PerPage)) == rows
  {
    PagesPrefix(rows, TotalPages(|rows|, PerPage));
  }

  /** A page past the last page is empty. */
  lemma PageBeyondLast<T>(rows: seq<T>, page: int)
    requires page > TotalPages(|rows|, PerPage)
    ensures Page(rows, page) == []
  {
  }

  /** Page numbers below 1 give a negative offset, which SQLite reads as 0:
      they show the first page. */
  lemma PageBelowFirst<T>(rows: seq<T>, page: int)
    requires page < 1
    ensures Page(rows, page) == Page(rows, 1)
  {
  }
}
