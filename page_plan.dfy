/**
 * Page planning of the multi-frame request: discover pages 1 and 2 are always
 * requested, then pages 3 up to `min(yearGap, totalPage)`, where `totalPage` is
 * the page count the catalog reports, or -1 when that call failed.
 */
module PagePlan {
  import opened Calendar

  /** `getTotalPage`'s error sentinel. */
  const TotalPageUnavailable: int := -1

  function Min(a: int, b: int): int
  {
    if a <= b then a else b
  }

  /** How many pages the plan requests. */
  function PageCount(yearGap: int, totalPage: int): (c: nat)
    ensures c >= 2
  {
    var maxPage := Min(yearGap, totalPage);
    if maxPage > 2 then maxPage else 2
  }

  /** The planned pages, in request order. */
  function PlannedPages(yearGap: int, totalPage: int): (pages: seq<int>)
    ensures |pages| == PageCount(yearGap, totalPage)
  {
    seq(PageCount(yearGap, totalPage), k => k + 1)
  }

  /** Builds the `requests` list: the two seed pages, then one request per page
      from 3 to `min(yearGap, totalPage)`. */
  method PlanPages(yearGap: int, totalPage: int) returns (requests: seq<int>)
    ensures requests == PlannedPages(yearGap, totalPage)
    ensures requests[0] == 1 && requests[1] == 2
    ensures forall p :: p in requests <==> p == 1 || p == 2 || 3 <= p <= Min(yearGap, totalPage)
    ensures forall k, l :: 0 <= k < l < |requests| ==> requests[k] < requests[l]
  {
    requests := [1, 2];
    var maxPage := Min(yearGap, totalPage);
    var pageNo := 3;
    while pageNo <= maxPage
      invariant 3 <= pageNo
      invariant pageNo <= maxPage + 1 || pageNo == 3
      invariant |requests| == pageNo - 1
      invariant forall k :: 0 <= k < |requests| ==> requests[k] == k + 1
    {
      requests := requests + [pageNo];
      pageNo := pageNo + 1;
    }
    assert |requests| == PageCount(yearGap, totalPage);
    forall p
      ensures p in requests <==> p == 1 || p == 2 || 3 <= p <= maxPage
    {
      if 1 <= p <= |requests| {
        assert requests[p - 1] == p;
      }
    }
  }

  /** For a fixed page total, a wider year gap never plans fewer pages. */
  lemma PageCountMonotone(yearGap1: int, yearGap2: int, totalPage: int)
    requires yearGap1 <= yearGap2
    ensures PageCount(yearGap1, totalPage) <= PageCount(yearGap2, totalPage)
  {
  }

  /** When the page total is unknown, or the gap is at most two years, exactly
      the seed pages are planned. */
  lemma SeedPagesOnly(yearGap: int, totalPage: int)
    requires totalPage == TotalPageUnavailable || yearGap <= 2 || totalPage <= 2
    ensures PlannedPages(yearGap, totalPage) == [1, 2]
  {
  }

  /** For a fixed start date and page total, a later end date never plans
      fewer pages. */
  lemma PlanMonotoneInEndDate(start: Date, end1: Date, end2: Date, totalPage: int)
    requires OnOrBefore(end1, end2)
    ensures PageCount(YearDifference(start, end1), totalPage)
            <= PageCount(YearDifference(start, end2), totalPage)
  {
    YearDifferenceMonotone(start, end1, end2);
    PageCountMonotone(YearDifference(start, end1), YearDifference(start, end2), totalPage);
  }
}
