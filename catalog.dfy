/**
 * The two process-wide movie lists (English and Hindi) and the operations that
 * read or replace them: `updateMovieIDList`, which refreshes one list page by
 * page from the catalog, and `getRandomMovieFramePath`, which draws a single
 * frame from one list.
 */
module Catalog {
  import opened FrameTypes
  import FrameResolver

  /** The results of a loaded page; a failed page contributes nothing. */
  function PageEntries(f: PageFetch): seq<Entry>
  {
    if f.Loaded? then f.results else []
  }

  /** A page the refresh accepts: loaded, with at least one movie. */
  predicate HasMovies(f: PageFetch)
  {
    f.Loaded? && |f.results| > 0
  }

  /** The entries of discover pages 1 to `k`, in page order. */
  function PagesUpTo(fetch: int -> PageFetch, k: int): seq<Entry>
    decreases k
  {
    if k < 1 then [] else PagesUpTo(fetch, k - 1) + PageEntries(fetch(k))
  }

  /** The last page the refresh keeps when it starts at `page`: it stops before
      the first page past `totalPage`, the first empty page, or the first page
      whose request fails. */
  function LastKeptPage(fetch: int -> PageFetch, page: int, totalPage: int): int
    decreases totalPage - page + 1
  {
    if page > totalPage || !HasMovies(fetch(page)) then page - 1
    else LastKeptPage(fetch, page + 1, totalPage)
  }

  /** The refreshed list, when the page total is known. */
  function Refreshed(fetch: int -> PageFetch, totalPage: int): seq<Entry>
  {
    PagesUpTo(fetch, LastKeptPage(fetch, 1, totalPage))
  }

  /** The kept pages are a run of non-empty loaded pages ending at the page
      total or just before a page that stopped the refresh. */
  lemma {:induction false} LastKeptPageFacts(fetch: int -> PageFetch, page: int, totalPage: int)
    ensures var k := LastKeptPage(fetch, page, totalPage);
            && page - 1 <= k
            && (k <= totalPage || k == page - 1)
            && (forall q :: page <= q <= k ==> HasMovies(fetch(q)))
            && (k < totalPage ==> !HasMovies(fetch(k + 1)))
    decreases totalPage - page + 1
  {
    if page <= totalPage && HasMovies(fetch(page)) {
      LastKeptPageFacts(fetch, page + 1, totalPage);
    }
  }

  /** Every entry of the refreshed list comes from a kept page, and every entry
      of a kept page is in the refreshed list. */
  lemma {:induction false} PagesUpToMembership(fetch: int -> PageFetch, k: int, e: Entry)
    ensures e in PagesUpTo(fetch, k) <==> exists q :: 1 <= q <= k && e in PageEntries(fetch(q))
    decreases k
  {
    if k >= 1 {
      PagesUpToMembership(fetch, k - 1, e);
      if e in PageEntries(fetch(k)) {
        assert 1 <= k <= k && e in PageEntries(fetch(k));
      }
    }
  }

  /** What the refresh leaves in the list: the movies of pages 1 to `k`, where
      every one of those pages was loaded and non-empty and `k` is the page
      total unless page `k + 1` was empty or failed. */
  lemma RefreshedFacts(fetch: int -> PageFetch, totalPage: int)
    ensures exists k ::
              && 0 <= k && (k <= totalPage || k == 0)
              && Refreshed(fetch, totalPage) == PagesUpTo(fetch, k)
              && (forall q :: 1 <= q <= k ==> HasMovies(fetch(q)))
              && (k < totalPage ==> !HasMovies(fetch(k + 1)))
  {
    LastKeptPageFacts(fetch, 1, totalPage);
    var k := LastKeptPage(fetch, 1, totalPage);
    assert Refreshed(fetch, totalPage) == PagesUpTo(fetch, k);
  }

  /** The two movie lists (`engMovieIdList` and `hindiMovieIdList`). */
  class MovieLists {
    var engMovieIdList: seq<Entry>
    var hindiMovieIdList: seq<Entry>

    /** The lists as the server starts with them. */
    constructor (eng: seq<Entry>, hindi: seq<Entry>)
      ensures engMovieIdList == eng && hindiMovieIdList == hindi
    {
      engMovieIdList := eng;
      hindiMovieIdList := hindi;
    }

    /** The list a language reads: "en" the English one, anything else the
        Hindi one. */
    function ListFor(lang: string): seq<Entry>
      reads this
    {
      if lang == "en" then engMovieIdList else hindiMovieIdList
    }

    /** `updateMovieIDList`: given the page total the catalog reported (-1 when
        that call failed) and the outcome of each discover page, nothing changes
        when the total is unavailable; otherwise the language's list is cleared
        and refilled page by page from page 1 until the page total, an empty
        page, or a failing request (whose error the refresh swallows, keeping
        what was already appended).  The other list is untouched. */
    method UpdateMovieIdList(lang: string, totalPage: int, fetch: int -> PageFetch)
      modifies this
      ensures lang == "en" ==> hindiMovieIdList == old(hindiMovieIdList)
      ensures lang != "en" ==> engMovieIdList == old(engMovieIdList)
      ensures totalPage == -1 ==> ListFor(lang) == old(ListFor(lang))
      ensures totalPage != -1 ==> ListFor(lang) == Refreshed(fetch, totalPage)
    {
      if totalPage != -1 {
        if lang == "en" {
          engMovieIdList := [];
        } else {
          hindiMovieIdList := [];
        }
        var page := 1;
        while page <= totalPage
          invariant 1 <= page
          invariant lang == "en" ==> hindiMovieIdList == old(hindiMovieIdList)
          invariant lang != "en" ==> engMovieIdList == old(engMovieIdList)
          invariant ListFor(lang) == PagesUpTo(fetch, page - 1)
          invariant LastKeptPage(fetch, page, totalPage) == LastKeptPage(fetch, 1, totalPage)
          decreases totalPage - page + 1
        {
          match fetch(page)
          case FetchFailed =>
            break;
          case Loaded(data) =>
            if |data| == 0 {
              break;
            }
            if lang == "en" {
              engMovieIdList := engMovieIdList + data;
            } else {
              hindiMovieIdList := hindiMovieIdList + data;
            }
          page := page + 1;
        }
      }
    }

    /** `getRandomMovieFramePath`: up to `maxAttempts` draws of a random movie
        of the language's list; the first one with a backdrop gives its title and
        a random backdrop path, and a failed metadata request, an empty list or
        ten misses give no frame. */
    method RandomMovieFramePath(lang: string, images: int -> ImageFetch, rand: nat -> real)
      returns (frame: Option<Round>)
      requires ValidDraws(rand)
      ensures frame == FrameResolver.PickFrame(ListFor(lang), images, rand)
    {
      var movieIdList := if lang == "en" then engMovieIdList else hindiMovieIdList;
      var attempt := 0;
      while attempt < FrameResolver.MaxAttempts
        invariant 0 <= attempt <= FrameResolver.MaxAttempts
        invariant FrameResolver.PickFrom(movieIdList, images, rand, attempt)
                  == FrameResolver.PickFrame(movieIdList, images, rand)
      {
        if |movieIdList| == 0 {
          // reading a movie out of an empty list throws, and the error is caught
          return None;
        }
        var randIndex := RandIndex(rand(attempt), |movieIdList|);
        var movie := movieIdList[randIndex];
        match images(movie.id)
        case ImagesFailed =>
          return None;
        case Images(backdrops) =>
          if |backdrops| > 0 {
            var randBackdropIndex := RandIndex(rand(attempt + 1), |backdrops|);
            return Some(Round(movie.title, ImageBase + backdrops[randBackdropIndex].filePath));
          }
        attempt := attempt + 1;
      }
      return None;
    }
  }
}
