/**
 * paginate: normalise the requested page and page size, then cut the
 * half-open slice of the result set that the page covers.
 */
module Pagination {

  /** A page of results, with the total count and the page and page size actually used. */
  datatype Page<T> = Page(items: seq<T>, total: int, page: int, pageSize: int)

  const DefaultPageSize: int := 10

  function Min(a: int, b: int): int {
    if a <= b then a else b
  }

  /** First index of page `page` (counting from 1), clipped to the length `n`. */
  function PageStart(page: int, pageSize: int, n: nat): int {
    Min((page - 1) * pageSize, n)
  }

  /** One past the last index of page `page`, clipped to the length `n`. */
  function PageEnd(page: int, pageSize: int, n: nat): int {
    Min(page * pageSize, n)
  }

  /** The index arithmetic of a page: its start is not negative and its end is one page size later. */
  lemma PageArithmetic(page: int, pageSize: int)
    requires page >= 1 && pageSize >= 1
    ensures (page - 1) * pageSize >= 0
    ensures page * pageSize == (page - 1) * pageSize + pageSize
  {
  }

  /**
   * paginate: a page below 1 becomes 1, a page size below 1 becomes 10; a
   * start at or past the end gives an empty page rather than an error.
   */
  function Paginate<T>(items: seq<T>, page: int, pageSize: int): (r: Page<T>)
    ensures r.total == |items|
    ensures r.page >= 1 && r.pageSize >= 1
    ensures page >= 1 ==> r.page == page
    ensures page < 1 ==> r.page == 1
    ensures pageSize >= 1 ==> r.pageSize == pageSize
    ensures pageSize < 1 ==> r.pageSize == DefaultPageSize
    ensures 0 <= PageStart(r.page, r.pageSize, |items|) <= PageEnd(r.page, r.pageSize, |items|) <= |items|
    ensures r.items == items[PageStart(r.page, r.pageSize, |items|)..PageEnd(r.page, r.pageSize, |items|)]
    ensures |r.items| <= r.pageSize
  {
    var page := if page < 1 then 1 else page;
    var pageSize := if pageSize < 1 then DefaultPageSize else pageSize;
    var total := |items|;
    var start := (page - 1) * pageSize;
    PageArithmetic(page, pageSize);
    if start >= total then
      Page([], total, page, pageSize)
    else
      var end := Min(start + pageSize, total);
      Page(items[start..end], total, page, pageSize)
  }

  /** Distinct pages cover disjoint index ranges, in page order. */
  lemma PagesOrdered(p: int, q: int, pageSize: int, n: nat)
    requires 1 <= p < q && pageSize >= 1
    ensures PageEnd(p, pageSize, n) <= PageStart(q, pageSize, n)
  {
    assert p * pageSize <= (q - 1) * pageSize;
  }

  /** Two consecutive pages are adjacent slices of the input. */
  lemma PagesAdjacent<T>(items: seq<T>, p: int, pageSize: int)
    requires p >= 1 && pageSize >= 1
    ensures Paginate(items, p, pageSize).items + Paginate(items, p + 1, pageSize).items
         == items[PageStart(p, pageSize, |items|)..PageEnd(p + 1, pageSize, |items|)]
  {
    var n := |items|;
    var a, b, c := PageStart(p, pageSize, n), PageEnd(p, pageSize, n), PageEnd(p + 1, pageSize, n);
    assert PageStart(p + 1, pageSize, n) == b;
    assert items[a..b] + items[b..c] == items[a..c];
  }

  /** The first `k` pages, in order, concatenated. */
  function FirstPages<T>(items: seq<T>, pageSize: int, k: nat): seq<T>
    requires pageSize >= 1
  {
    if k == 0 then [] else FirstPages(items, pageSize, k - 1) + Paginate(items, k, pageSize).items
  }

  /** The first `k` pages are exactly the prefix of the input they cover: nothing is skipped or repeated. */
  lemma {:induction false} FirstPagesArePrefix<T>(items: seq<T>, pageSize: int, k: nat)
    requires pageSize >= 1
    ensures FirstPages(items, pageSize, k) == items[..PageEnd(k, pageSize, |items|)]
  {
    if k > 0 {
      FirstPagesArePrefix(items, pageSize, k - 1);
      var n := |items|;
      assert PageEnd(k - 1, pageSize, n) == PageStart(k, pageSize, n);
      assert 0 <= PageStart(k, pageSize, n) <= PageEnd(k, pageSize, n);
      var s, e := PageStart(k, pageSize, n), PageEnd(k, pageSize, n);
      assert items[..s] + items[s..e] == items[..e];
    }
  }

  /** Enough pages together reproduce the whole input. */
  lemma AllPagesCoverInput<T>(items: seq<T>, pageSize: int, k: nat)
    requires pageSize >= 1 && k * pageSize >= |items|
    ensures FirstPages(items, pageSize, k) == items
  {
    FirstPagesArePrefix(items, pageSize, k);
    assert items[..|items|] == items;
  }

  /** Five items with page size 3: three on page 1, two on page 2, none on page 3; total 5 each time. */
  lemma FiveItemsPagesOfThree<T>(items: seq<T>)
    requires |items| == 5
    ensures Paginate(items, 1, 3) == Page(items[0..3], 5, 1, 3)
    ensures Paginate(items, 2, 3) == Page(items[3..5], 5, 2, 3)
    ensures Paginate(items, 3, 3) == Page([], 5, 3, 3)
  {
  }

  /** An empty result set with no paging requested gives page 1 of size 10 with total 0. */
  lemma EmptyDefaults<T>(items: seq<T>, page: int, pageSize: int)
    requires items == [] && page <= 1 && pageSize <= 0
    ensures Paginate(items, page, pageSize) == Page([], 0, 1, DefaultPageSize)
  {
  }
}
