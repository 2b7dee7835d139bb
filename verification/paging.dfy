/** The pagination arithmetic of the book listing: clamping the requested
    page and page size, the row offset, the page count, and the slice of
    rows a page returns. */
module Paging {
  import opened Base

  const DEFAULT_PAGE: int := 1
  const DEFAULT_LIMIT: int := 10
  const MAX_LIMIT: int := 100

  function Max(a: int, b: int): int { if a >= b then a else b }
  function Min(a: int, b: int): int { if a <= b then a else b }

  /** `parseInt(x) || d`: an unparsable value (NaN) and 0 are both falsy and
      fall back to the default. */
  function OrDefault(parsed: Option<int>, d: int): int {
    if parsed.None? || parsed.value == 0 then d else parsed.value
  }

  /** `Math.max(1, parseInt(page) || 1)`. */
  function PageNumber(parsed: Option<int>): (p: int)
    ensures p >= 1
    ensures parsed.Some? && parsed.value >= 1 ==> p == parsed.value
    ensures parsed.None? || parsed.value < 1 ==> p == 1
  {
    Max(1, OrDefault(parsed, DEFAULT_PAGE))
  }

  /** `Math.max(1, Math.min(100, parseInt(limit) || 10))`: a size within
      [1, 100] is kept, larger ones are cut to 100, negative ones raised to
      1, and 0 or an unparsable value gives the default 10. */
  function PageSize(parsed: Option<int>): (l: int)
    ensures 1 <= l <= MAX_LIMIT
    ensures parsed.Some? && 1 <= parsed.value <= MAX_LIMIT ==> l == parsed.value
    ensures parsed.Some? && parsed.value > MAX_LIMIT ==> l == MAX_LIMIT
    ensures parsed.Some? && parsed.value < 0 ==> l == 1
    ensures parsed.None? || parsed.value == 0 ==> l == DEFAULT_LIMIT
  {
    Max(1, Min(MAX_LIMIT, OrDefault(parsed, DEFAULT_LIMIT)))
  }

  /** `(pageNum - 1) * limitNum`: the rows skipped before the page. */
  function Offset(page: int, limit: int): (o: int)
    requires page >= 1 && limit >= 1
    ensures 0 <= o && o + limit == page * limit
  {
    MulNonNeg(page - 1, limit);
    (page - 1) * limit
  }

  lemma MulNonNeg(a: int, b: int)
    requires a >= 0 && b >= 0
    ensures a * b >= 0
  {
  }

  /** `a <= b` scales by a positive factor. */
  lemma MulMono(a: int, b: int, k: int)
    requires a <= b && k >= 0
    ensures a * k <= b * k
  {
    MulNonNeg(b - a, k);
    assert b * k - a * k == (b - a) * k;
  }

  /** Pages do not overlap: a later page starts after an earlier page ends. */
  lemma OffsetsOrdered(p1: int, p2: int, limit: int)
    requires 1 <= p1 < p2 && limit >= 1
    ensures Offset(p1, limit) + limit <= Offset(p2, limit)
  {
    MulMono(p1, p2 - 1, limit);
  }

  /** `Math.ceil(n / d)` on non-negative integers. */
  function CeilDiv(n: int, d: int): (q: int)
    requires n >= 0 && d >= 1
    ensures q >= 0
    ensures n == 0 ==> q == 0
    ensures n > 0 ==> (q - 1) * d < n <= q * d
  {
    CeilDivBounds(n, d);
    (n + d - 1) / d
  }

  lemma CeilDivBounds(n: int, d: int)
    requires n >= 0 && d >= 1
    ensures var q := (n + d - 1) / d;
      && q >= 0
      && (n == 0 ==> q == 0)
      && (n > 0 ==> (q - 1) * d < n <= q * d)
  {
    var q := (n + d - 1) / d;
    var r := (n + d - 1) % d;
    assert n + d - 1 == q * d + r && 0 <= r < d;
    assert (q - 1) * d == q * d - d;
    if q < 0 {
      MulMono(q, -1, d);
      assert false;
    }
    if n == 0 && q >= 1 {
      MulMono(1, q, d);
      assert false;
    }
  }

  /** `Math.max(1, Math.ceil(count / limitNum))`: at least one page even for
      no rows, and otherwise the fewest pages of `limit` rows that hold them. */
  function TotalPages(count: int, limit: int): (t: int)
    requires count >= 0 && limit >= 1
    ensures t >= 1
    ensures count == 0 ==> t == 1
    ensures count > 0 ==> (t - 1) * limit < count <= t * limit
  {
    Max(1, CeilDiv(count, limit))
  }

  /** No fewer pages than needed: one page more than `TotalPages` would be empty. */
  lemma TotalPagesLeast(count: int, limit: int, t: int)
    requires count >= 0 && limit >= 1
    requires t >= 1 && count <= t * limit
    ensures TotalPages(count, limit) <= t
  {
    var tp := TotalPages(count, limit);
    if tp > t {
      MulMono(t, tp - 1, limit);
      assert false;
    }
  }

  /** The rows of page `page`: `LIMIT limit OFFSET offset` over the ordered rows. */
  function Window<T>(xs: seq<T>, page: int, limit: int): (r: seq<T>)
    requires page >= 1 && limit >= 1
    ensures |r| <= limit
    ensures forall i :: 0 <= i < |r| ==> Offset(page, limit) + i < |xs| && r[i] == xs[Offset(page, limit) + i]
    ensures Offset(page, limit) < |xs| ==> |r| == Min(limit, |xs| - Offset(page, limit))
    ensures Offset(page, limit) >= |xs| ==> r == []
  {
    var o := Offset(page, limit);
    if o >= |xs| then [] else xs[o..Min(o + limit, |xs|)]
  }

  /** A page past the last one is empty. */
  lemma PastLastPageEmpty<T>(xs: seq<T>, page: int, limit: int)
    requires limit >= 1 && page > TotalPages(|xs|, limit)
    ensures Window(xs, page, limit) == []
  {
    var t := TotalPages(|xs|, limit);
    MulMono(t, page - 1, limit);
    assert |xs| <= t * limit;
  }

  /** The page holding row `i` (counting from 0) starts at or before it and
      ends after it. */
  lemma RowPage(limit: int, i: int)
    requires limit >= 1 && i >= 0
    ensures Offset(i / limit + 1, limit) <= i < Offset(i / limit + 1, limit) + limit
  {
    var q := i / limit;
    assert i == q * limit + i % limit;
    assert Offset(q + 1, limit) == q * limit;
  }

  /** Pages cover disjoint row ranges: a row within page `page` fixes it. */
  lemma PageUnique(limit: int, i: int, page: int, page': int)
    requires limit >= 1 && page >= 1 && page' >= 1
    requires Offset(page, limit) <= i < Offset(page, limit) + limit
    requires Offset(page', limit) <= i < Offset(page', limit) + limit
    ensures page == page'
  {
    if page < page' {
      MulMono(page, page' - 1, limit);
      assert false;
    } else if page' < page {
      MulMono(page', page - 1, limit);
      assert false;
    }
  }

  /** Every row lies on exactly one page, and that page is within range. */
  lemma RowOnOnePage(count: int, limit: int, i: int, page: int)
    requires limit >= 1 && 0 <= i < count
    ensures 1 <= i / limit + 1 <= TotalPages(count, limit)
    ensures Offset(i / limit + 1, limit) <= i < Offset(i / limit + 1, limit) + limit
    ensures page >= 1 && Offset(page, limit) <= i < Offset(page, limit) + limit ==> page == i / limit + 1
  {
    var p := i / limit + 1;
    var t := TotalPages(count, limit);
    RowPage(limit, i);
    if p > t {
      MulMono(t, p - 1, limit);
      assert false;
    }
    if page >= 1 && Offset(page, limit) <= i < Offset(page, limit) + limit {
      PageUnique(limit, i, page, p);
    }
  }
}
