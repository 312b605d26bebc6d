/** Page arithmetic of the transaction listing
    (backend/src/routes/transactions.ts, lines 12-14 and 28-46) and the
    LIMIT/OFFSET window SQLite applies to the ordered rows. */
module Pagination {
  import opened Common

  /** The `page` and `limit` query parameters after `parseInt`; `None` is NaN
      (missing or not a number). */
  datatype PageQuery = PageQuery(page: Option<int>, limit: Option<int>)

  /** `parseInt(x) || fallback`: NaN and 0 are falsy. */
  function OrFallback(n: Option<int>, fallback: int): (r: int)
    ensures r == fallback || (n.Some? && r == n.value && r != 0)
    ensures n.Some? && n.value != 0 ==> r == n.value
  {
    if n.Some? && n.value != 0 then n.value else fallback
  }

  function PageNumber(q: PageQuery): (p: int)
    ensures q.page.None? || q.page.value == 0 ==> p == 1
    ensures p != 0
  {
    OrFallback(q.page, 1)
  }

  /** `Math.min(parseInt(limit) || 50, 100)` as the route computes it. */
  function LimitAsWritten(q: PageQuery): (n: int)
    ensures n <= 100
    ensures q.limit.None? || q.limit.value == 0 ==> n == 50
  {
    var asked := OrFallback(q.limit, 50);
    if asked <= 100 then asked else 100
  }

  /** The page size the listing evidently intends: the requested size capped
      at 100, with 50 for anything missing or below 1. */
  function Limit(q: PageQuery): (n: int)
    ensures 1 <= n <= 100
    ensures q.limit.None? || q.limit.value < 1 ==> n == 50
    ensures q.limit.Some? && 1 <= q.limit.value <= 100 ==> n == q.limit.value
    ensures q.limit.Some? && q.limit.value > 100 ==> n == 100
  {
    var asked := if q.limit.Some? && q.limit.value >= 1 then q.limit.value else 50;
    if asked <= 100 then asked else 100
  }

  /** Both agree whenever the requested size is not negative. */
  lemma LimitAgreesUnlessNegative(q: PageQuery)
    requires q.limit.None? || q.limit.value >= 0
    ensures Limit(q) == LimitAsWritten(q)
  {
  }

  /** `(page - 1) * limit`. */
  function Offset(page: int, limit: int): int
  {
    (page - 1) * limit
  }

  /** `LIMIT limit OFFSET offset` over already-ordered rows. SQLite treats a
      negative OFFSET as 0 and a negative LIMIT as no upper bound. */
  function Window<T>(rows: seq<T>, limit: int, offset: int): (w: seq<T>)
    ensures var start := if offset < 0 then 0 else if offset > |rows| then |rows| else offset;
      && start + |w| <= |rows|
      && w == rows[start..start + |w|]
      && (limit >= 0 ==> |w| <= limit)
      && ((limit >= 0 && |w| == limit) || start + |w| == |rows|)
  {
    var start := if offset < 0 then 0 else if offset > |rows| then |rows| else offset;
    var stop := if limit < 0 || start + limit > |rows| then |rows| else start + limit;
    rows[start..stop]
  }

  /** `Math.ceil(total / limit)` for a positive page size. */
  function TotalPages(total: nat, limit: int): (n: nat)
    requires limit >= 1
    ensures total == 0 ==> n == 0
    ensures total > 0 ==> (n - 1) * limit < total <= n * limit
  {
    (total + limit - 1) / limit
  }

  /** The listing as written: a negative `limit` survives `Math.min` and
      reaches SQLite as an unbounded LIMIT, so `?limit=-1` returns every row,
      however many there are, despite the cap of 100. */
  lemma NegativeLimitIsUnbounded(rows: seq<int>)
    requires |rows| > 100
    ensures var q := PageQuery(None, Some(-1));
      && LimitAsWritten(q) == -1
      && |Window(rows, LimitAsWritten(q), Offset(PageNumber(q), LimitAsWritten(q)))| == |rows|
      && |Window(rows, LimitAsWritten(q), Offset(PageNumber(q), LimitAsWritten(q)))| > 100
  {
  }

  /** With the corrected page size no listing returns more than 100 rows. */
  lemma PageIsBounded<T>(rows: seq<T>, q: PageQuery)
    ensures |Window(rows, Limit(q), Offset(PageNumber(q), Limit(q)))| <= Limit(q) <= 100
  {
  }

  /** Page `p >= 1` is exactly the `p`-th run of `n` rows. */
  lemma PageIsRun<T>(rows: seq<T>, n: int, p: int)
    requires 1 <= n && 1 <= p && (p - 1) * n <= |rows|
    ensures Window(rows, n, Offset(p, n)) == rows[(p - 1) * n .. if p * n <= |rows| then p * n else |rows|]
  {
    var o := Offset(p, n);
    assert o + n == p * n;
    MulMonotone(0, p - 1, n);
    WindowFrom(rows, n, o);
  }

  /** A window whose offset lies inside the rows is the slice from there. */
  lemma WindowFrom<T>(rows: seq<T>, n: int, o: int)
    requires 0 <= n && 0 <= o <= |rows|
    ensures Window(rows, n, o) == rows[o .. if o + n <= |rows| then o + n else |rows|]
  {
  }

  /** Consecutive pages tile the ordered rows: page `p + 1` starts where
      page `p` ends. */
  lemma {:induction false} PagesTile<T>(rows: seq<T>, n: int, p: int)
    requires 1 <= n && 1 <= p && p * n <= |rows|
    ensures Window(rows, n, Offset(p, n)) + Window(rows, n, Offset(p + 1, n))
      == rows[(p - 1) * n .. if (p + 1) * n <= |rows| then (p + 1) * n else |rows|]
  {
    var o := Offset(p, n);
    assert o + n == p * n && Offset(p + 1, n) == p * n && p * n + n == (p + 1) * n;
    MulMonotone(0, p - 1, n);
    WindowFrom(rows, n, o);
    WindowFrom(rows, n, p * n);
    assert rows[o..p * n] + rows[p * n .. if (p + 1) * n <= |rows| then (p + 1) * n else |rows|]
      == rows[o .. if (p + 1) * n <= |rows| then (p + 1) * n else |rows|];
  }

  lemma MulCancel(a: int, b: int, n: int)
    requires n >= 1 && a * n < b * n
    ensures a < b
  {
    if a >= b {
      MulMonotone(b, a, n);
    }
  }

  lemma MulMonotone(a: int, b: int, n: int)
    requires n >= 0 && a <= b
    ensures a * n <= b * n
  {
  }

  /** Every row sits on exactly one of the `TotalPages` pages. */
  lemma RowOnItsPage(total: nat, n: int, i: nat)
    requires 1 <= n && i < total
    ensures var p := i / n + 1; 1 <= p <= TotalPages(total, n) && Offset(p, n) <= i < Offset(p, n) + n
  {
    var p := i / n + 1;
    assert (p - 1) * n <= i < p * n;
    var tp := TotalPages(total, n);
    assert (p - 1) * n < tp * n;
    MulCancel(p - 1, tp, n);
  }
}
