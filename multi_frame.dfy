/**
 * The `/anyNumberOfMovieFrame` request end to end: the 400 guard, the
 * default date range, page planning, the all-or-nothing page fetch, the
 * shuffle and the assembly walk, with the three outcomes the client sees.
 */
module MultiFrame {
  import opened FrameTypes
  import opened Shuffle
  import opened Calendar
  import opened PagePlan
  import opened Assembly

  /** What the client receives: status 400, status 500, or the rounds. */
  datatype FramesReply = BadRequest | ServerError | Frames(rounds: seq<Round>)

  /** The request's date, or its default when the parameter is absent. */
  function DateOr(d: Option<Date>, default: Date): Date
  {
    if d.Some? then d.value else default
  }

  /** The discover pages the request plans. */
  function RequestPages(startYear: Option<Date>, endYear: Option<Date>, totalPage: int): seq<int>
  {
    PlannedPages(YearDifference(DateOr(startYear, DefaultStart), DateOr(endYear, DefaultEnd)), totalPage)
  }

  /** The reply to a request with `lang` ("" when absent), the optional dates,
      `noOfFrame` (`None` when it does not parse as an integer), the page total
      the catalog reported, and the outcome of every page and metadata
      request.  The shuffle consumes the first draws and the backdrop choices
      the ones after it. */
  function FramesResponse(lang: string, startYear: Option<Date>, endYear: Option<Date>, noOfFrame: Option<int>,
                          totalPage: int, fetch: int -> PageFetch, images: int -> ImageFetch, rand: nat -> real)
    : FramesReply
    requires ValidDraws(rand)
  {
    if noOfFrame.None? || lang == "" then BadRequest
    else
      match Merge(RequestPages(startYear, endYear, totalPage), fetch)
      case None => ServerError
      case Some(data) =>
        match Assembled(Shuffled(data, rand), noOfFrame.value, images, rand, ShuffleDraws(|data|))
        case None => ServerError
        case Some(rounds) => Frames(rounds)
  }

  /** The `/anyNumberOfMovieFrame` handler. */
  method AnyNumberOfMovieFrame(lang: string, startYear: Option<Date>, endYear: Option<Date>, noOfFrame: Option<int>,
                               totalPage: int, fetch: int -> PageFetch, images: int -> ImageFetch, rand: nat -> real)
    returns (reply: FramesReply)
    requires ValidDraws(rand)
    ensures reply == FramesResponse(lang, startYear, endYear, noOfFrame, totalPage, fetch, images, rand)
  {
    if noOfFrame.None? || lang == "" {
      return BadRequest;
    }
    var start := DateOr(startYear, DefaultStart);
    var end := DateOr(endYear, DefaultEnd);
    var yearGap := YearDifference(start, end);
    var requests := PlanPages(yearGap, totalPage);
    var responses := Merge(requests, fetch);
    if responses.None? {
      return ServerError;
    }
    var data := responses.value;
    var arr := new Entry[|data|](k requires 0 <= k < |data| => data[k]);
    assert arr[..] == data;
    ShuffleArray(arr, rand);
    var shuffledArr := arr[..];
    var gameArray := AssembleRounds(shuffledArr, noOfFrame.value, images, rand, ShuffleDraws(|data|));
    if gameArray.None? {
      return ServerError;
    }
    return Frames(gameArray.value);
  }

  /** `e` is a movie of one of the fetched `pages`. */
  ghost predicate FetchedFrom(pages: seq<int>, fetch: int -> PageFetch, e: Entry)
  {
    exists k :: 0 <= k < |pages| && fetch(pages[k]).Loaded? && e in fetch(pages[k]).results
  }

  /** The rounds are built from fetched movies with pairwise distinct ids, each
      round showing its movie's title and one of its backdrops. */
  ghost predicate FromDistinctMovies(rounds: seq<Round>, pages: seq<int>, fetch: int -> PageFetch,
                                     images: int -> ImageFetch)
  {
    exists movies: seq<Entry> ::
      && |movies| == |rounds|
      && (forall k :: 0 <= k < |movies| ==>
            FetchedFrom(pages, fetch, movies[k]) && ShowsBackdropOf(rounds[k], movies[k], images(movies[k].id)))
      && (forall k, l :: 0 <= k < l < |movies| ==> movies[k].id != movies[l].id)
  }

  /** Every member of the merged pages was fetched from one of them. */
  lemma MergedMember(pages: seq<int>, fetch: int -> PageFetch, e: Entry)
    requires Merge(pages, fetch).Some? && e in Merge(pages, fetch).value
    ensures FetchedFrom(pages, fetch, e)
  {
    MergeFacts(pages, fetch);
  }

  /** Every position of the shuffled list holds a member of the list. */
  lemma ShuffledMember(data: seq<Entry>, rand: nat -> real, q: nat)
    requires ValidDraws(rand) && q < |Shuffled(data, rand)|
    ensures Shuffled(data, rand)[q] in data
  {
    ShuffledIsPermutation(data, rand);
    assert Shuffled(data, rand)[q] in multiset(Shuffled(data, rand));
  }

  /** 400 is returned exactly when `noOfFrame` is not a number or `lang` is
      absent. */
  lemma BadRequestExactly(lang: string, startYear: Option<Date>, endYear: Option<Date>, noOfFrame: Option<int>,
                          totalPage: int, fetch: int -> PageFetch, images: int -> ImageFetch, rand: nat -> real)
    requires ValidDraws(rand)
    ensures FramesResponse(lang, startYear, endYear, noOfFrame, totalPage, fetch, images, rand).BadRequest?
            <==> noOfFrame.None? || lang == ""
  {
    if !(noOfFrame.None? || lang == "") {
      var merged := Merge(RequestPages(startYear, endYear, totalPage), fetch);
      if merged.Some? {
        var data := merged.value;
        var rounds := Assembled(Shuffled(data, rand), noOfFrame.value, images, rand, ShuffleDraws(|data|));
        assert rounds.Some? ==> FramesResponse(lang, startYear, endYear, noOfFrame, totalPage, fetch, images, rand)
                                == Frames(rounds.value);
      }
    }
  }

  /** 500 is returned only when a planned page request or the metadata request
      of a fetched movie failed. */
  lemma ServerErrorCause(lang: string, startYear: Option<Date>, endYear: Option<Date>, noOfFrame: Option<int>,
                         totalPage: int, fetch: int -> PageFetch, images: int -> ImageFetch, rand: nat -> real)
    requires ValidDraws(rand)
    requires FramesResponse(lang, startYear, endYear, noOfFrame, totalPage, fetch, images, rand).ServerError?
    ensures var pages := RequestPages(startYear, endYear, totalPage);
            || (exists k :: 0 <= k < |pages| && fetch(pages[k]).FetchFailed?)
            || (exists e :: FetchedFrom(pages, fetch, e) && images(e.id).ImagesFailed?)
  {
    var pages := RequestPages(startYear, endYear, totalPage);
    MergeFacts(pages, fetch);
    var merged := Merge(pages, fetch);
    if merged.Some? {
      var data := merged.value;
      var s := Shuffled(data, rand);
      AssembledRounds(s, noOfFrame.value, images, rand, ShuffleDraws(|data|));
      var q :| 0 <= q < |s| && images(s[q].id).ImagesFailed?;
      ShuffledMember(data, rand, q);
      MergedMember(pages, fetch, s[q]);
    }
  }

  /** Conversely, a well-formed request one of whose planned page requests
      fails gets 500. */
  lemma PageFailureIsServerError(lang: string, startYear: Option<Date>, endYear: Option<Date>, noOfFrame: Option<int>,
                                 totalPage: int, fetch: int -> PageFetch, images: int -> ImageFetch, rand: nat -> real)
    requires ValidDraws(rand) && noOfFrame.Some? && lang != ""
    requires var pages := RequestPages(startYear, endYear, totalPage);
             exists k :: 0 <= k < |pages| && fetch(pages[k]).FetchFailed?
    ensures FramesResponse(lang, startYear, endYear, noOfFrame, totalPage, fetch, images, rand).ServerError?
  {
    MergeFacts(RequestPages(startYear, endYear, totalPage), fetch);
  }

  /** A successful reply holds at most `max(noOfFrame, 0)` rounds, built from
      fetched movies with distinct ids, each showing one of its movie's
      backdrops. */
  lemma FramesFromDistinctMovies(lang: string, startYear: Option<Date>, endYear: Option<Date>, noOfFrame: Option<int>,
                                 totalPage: int, fetch: int -> PageFetch, images: int -> ImageFetch, rand: nat -> real)
    requires ValidDraws(rand)
    requires FramesResponse(lang, startYear, endYear, noOfFrame, totalPage, fetch, images, rand).Frames?
    ensures var reply := FramesResponse(lang, startYear, endYear, noOfFrame, totalPage, fetch, images, rand);
            && noOfFrame.Some?
            && |reply.rounds| <= Max0(noOfFrame.value)
            && FromDistinctMovies(reply.rounds, RequestPages(startYear, endYear, totalPage), fetch, images)
  {
    var pages := RequestPages(startYear, endYear, totalPage);
    var data := Merge(pages, fetch).value;
    var s := Shuffled(data, rand);
    var n := noOfFrame.value;
    var offset := ShuffleDraws(|data|);
    var rounds := Assembled(s, n, images, rand, offset).value;
    var movies := AssembledMovies(s, n, images, rand, offset);
    assert FramesResponse(lang, startYear, endYear, noOfFrame, totalPage, fetch, images, rand) == Frames(rounds);
    forall k | 0 <= k < |movies|
      ensures FetchedFrom(pages, fetch, movies[k])
    {
      var q :| 0 <= q < |s| && s[q] == movies[k];
      ShuffledMember(data, rand, q);
      MergedMember(pages, fetch, movies[k]);
    }
    assert |movies| == |rounds|;
  }
}
