/**
 * The multi-frame request (`/anyNumberOfMovieFrame`): plan the discover pages,
 * fetch them all or fail, flatten and shuffle the results, then walk the
 * shuffled list keeping a set of placed movie ids.  A candidate becomes a
 * round when its id is new and its image metadata has a backdrop; the walk
 * stops once `noOfFrame` rounds are placed or the list is exhausted.
 */
module Assembly {
  import opened FrameTypes
  import opened Shuffle
  import opened Calendar
  import opened PagePlan

  function Max0(n: int): nat
  {
    if n > 0 then n else 0
  }

  // ---------------------------------------------------------------------------
  // Fetching the planned pages (all or nothing) and flattening them
  // ---------------------------------------------------------------------------

  /** The results of all `pages`, concatenated in request order, or `None` when
      any page request fails. */
  function Merge(pages: seq<int>, fetch: int -> PageFetch): Option<seq<Entry>>
  {
    if pages == [] then Some([])
    else match fetch(pages[0])
      case FetchFailed => None
      case Loaded(results) =>
        match Merge(pages[1..], fetch)
        case None => None
        case Some(rest) => Some(results + rest)
  }

  /** The merge fails exactly when some page fails; otherwise it holds the
      entries of the pages and nothing else. */
  lemma {:induction false} MergeFacts(pages: seq<int>, fetch: int -> PageFetch)
    ensures Merge(pages, fetch).None?
            <==> exists k :: 0 <= k < |pages| && fetch(pages[k]).FetchFailed?
    ensures Merge(pages, fetch).Some? ==>
              forall e :: e in Merge(pages, fetch).value
                <==> exists k :: 0 <= k < |pages| && fetch(pages[k]).Loaded? && e in fetch(pages[k]).results
  {
    if pages != [] {
      MergeFacts(pages[1..], fetch);
      assert forall k :: 0 < k < |pages| ==> pages[k] == pages[1..][k - 1];
      if Merge(pages, fetch).Some? {
        var results := fetch(pages[0]).results;
        forall e | e in Merge(pages, fetch).value
          ensures exists k :: 0 <= k < |pages| && fetch(pages[k]).Loaded? && e in fetch(pages[k]).results
        {
          if e !in results {
            var k :| 0 <= k < |pages[1..]| && fetch(pages[1..][k]).Loaded? && e in fetch(pages[1..][k]).results;
            assert pages[k + 1] == pages[1..][k];
          }
        }
      }
    }
  }

  // ---------------------------------------------------------------------------
  // The assembly walk
  // ---------------------------------------------------------------------------

  /** The walk from position `i` with the ids placed so far (`ids`) and the
      positions of the rounds built so far (`picks`): the final positions, or
      `None` when an image-metadata request fails. */
  function Run(s: seq<Entry>, n: int, images: int -> ImageFetch, i: nat, ids: set<int>, picks: seq<nat>)
    : Option<seq<nat>>
    requires i <= |s|
    decreases |s| - i
  {
    if i == |s| || |ids| >= n then Some(picks)
    else if s[i].id in ids then Run(s, n, images, i + 1, ids, picks)
    else match images(s[i].id)
      case ImagesFailed => None
      case Images(backdrops) =>
        if |backdrops| > 0 then Run(s, n, images, i + 1, ids + {s[i].id}, picks + [i])
        else Run(s, n, images, i + 1, ids, picks)
  }

  /** One step of the walk: a failed image request for a new id ends it. */
  lemma RunFail(s: seq<Entry>, n: int, images: int -> ImageFetch, i: nat, ids: set<int>, picks: seq<nat>)
    requires i < |s| && |ids| < n
    requires s[i].id !in ids && images(s[i].id).ImagesFailed?
    ensures Run(s, n, images, i, ids, picks) == None
  {
  }

  /** The positions of `s` the walk turns into rounds. */
  function Selection(s: seq<Entry>, n: int, images: int -> ImageFetch): Option<seq<nat>>
  {
    Run(s, n, images, 0, {}, [])
  }

  /** The ids of the entries of `s` at positions `p` (positions outside `s`
      contribute nothing). */
  function IdSet(s: seq<Entry>, p: seq<nat>): set<int>
    decreases |p|
  {
    if p == [] then {}
    else
      var last := p[|p| - 1];
      IdSet(s, p[..|p| - 1]) + (if last < |s| then {s[last].id} else {})
  }

  /** An id is in `IdSet(s, p)` exactly when some position of `p` holds it. */
  lemma {:induction false} IdSetMembership(s: seq<Entry>, p: seq<nat>, x: int)
    ensures x in IdSet(s, p) <==> exists k :: 0 <= k < |p| && p[k] < |s| && s[p[k]].id == x
    decreases |p|
  {
    if p != [] {
      var init := p[..|p| - 1];
      IdSetMembership(s, init, x);
      if x in IdSet(s, init) {
        var k :| 0 <= k < |init| && init[k] < |s| && s[init[k]].id == x;
        assert p[k] == init[k];
      }
      if exists k :: 0 <= k < |p| && p[k] < |s| && s[p[k]].id == x {
        var k :| 0 <= k < |p| && p[k] < |s| && s[p[k]].id == x;
        if k < |init| {
          assert init[k] == p[k];
        }
      }
    }
  }

  /** Every usable candidate strictly before position `pos` has its id among
      those of the positions `placed`. */
  ghost predicate CoveredBefore(s: seq<Entry>, images: int -> ImageFetch, placed: seq<nat>, pos: int)
  {
    forall q :: 0 <= q < pos && q < |s| && HasBackdrop(images(s[q].id)) ==> s[q].id in IdSet(s, placed)
  }

  /** What a finished selection `p` of positions of `s` must be: in shuffled
      order, each with a backdrop, pairwise-distinct ids, at most `noOfFrame` of
      them; every usable candidate before the `k`-th pick has its id among the
      earlier picks (first occurrence wins); and a selection shorter than
      `noOfFrame` has placed the id of every usable candidate (the pool ran out). */
  ghost predicate Selected(s: seq<Entry>, n: int, images: int -> ImageFetch, p: seq<nat>)
  {
    && (forall k :: 0 <= k < |p| ==> p[k] < |s| && HasBackdrop(images(s[p[k]].id)))
    && (forall k, l :: 0 <= k < l < |p| ==> p[k] < p[l] && s[p[k]].id != s[p[l]].id)
    && |p| <= Max0(n)
    && (forall k :: 0 <= k < |p| ==> CoveredBefore(s, images, p[..k], p[k]))
    && (|p| < n ==> CoveredBefore(s, images, p, |s|))
  }

  /** Every pick lies before position `i` and has a backdrop. */
  ghost predicate PicksUsable(s: seq<Entry>, images: int -> ImageFetch, i: nat, picks: seq<nat>)
  {
    forall k :: 0 <= k < |picks| ==> picks[k] < i && picks[k] < |s| && HasBackdrop(images(s[picks[k]].id))
  }

  ghost predicate Increasing(picks: seq<nat>)
  {
    forall k, l :: 0 <= k < l < |picks| ==> picks[k] < picks[l]
  }

  /** Each pick was a new id, and every usable candidate before it had its id
      among the earlier picks. */
  ghost predicate FirstOccurrences(s: seq<Entry>, images: int -> ImageFetch, picks: seq<nat>)
  {
    forall k :: 0 <= k < |picks| && picks[k] < |s| ==>
      s[picks[k]].id !in IdSet(s, picks[..k]) && CoveredBefore(s, images, picks[..k], picks[k])
  }

  /** The loop state after visiting positions `0 .. i - 1`: `indices` is the set
      of the ids behind the rounds and has as many elements as there are rounds
      (`gameArray.length == indices.size`), at most `noOfFrame`; each pick was a
      new id with a backdrop, preceded only by usable candidates already placed;
      and every usable candidate visited so far has its id placed. */
  ghost predicate Placed(s: seq<Entry>, n: int, images: int -> ImageFetch, i: nat, ids: set<int>, picks: seq<nat>)
  {
    && i <= |s|
    && PicksUsable(s, images, i, picks)
    && Increasing(picks)
    && ids == IdSet(s, picks)
    && |ids| == |picks|
    && |picks| <= Max0(n)
    && FirstOccurrences(s, images, picks)
    && CoveredBefore(s, images, picks, i)
  }

  lemma PlacedStart(s: seq<Entry>, n: int, images: int -> ImageFetch)
    ensures Placed(s, n, images, 0, {}, [])
  {
  }

  /** Skipping a placed id or a candidate without backdrops keeps the state. */
  lemma PlacedSkip(s: seq<Entry>, n: int, images: int -> ImageFetch, i: nat, ids: set<int>, picks: seq<nat>)
    requires Placed(s, n, images, i, ids, picks) && i < |s|
    requires s[i].id in ids || !HasBackdrop(images(s[i].id))
    ensures Placed(s, n, images, i + 1, ids, picks)
  {
  }

  lemma IdSetSnoc(s: seq<Entry>, picks: seq<nat>, i: nat)
    requires i < |s|
    ensures IdSet(s, picks + [i]) == IdSet(s, picks) + {s[i].id}
  {
    assert (picks + [i])[..|picks|] == picks;
  }

  lemma FirstOccurrencesSnoc(s: seq<Entry>, images: int -> ImageFetch, picks: seq<nat>, i: nat)
    requires FirstOccurrences(s, images, picks) && i < |s|
    requires s[i].id !in IdSet(s, picks) && CoveredBefore(s, images, picks, i)
    ensures FirstOccurrences(s, images, picks + [i])
  {
    var picks' := picks + [i];
    forall k | 0 <= k < |picks'| && picks'[k] < |s|
      ensures s[picks'[k]].id !in IdSet(s, picks'[..k]) && CoveredBefore(s, images, picks'[..k], picks'[k])
    {
      if k < |picks| {
        assert picks'[..k] == picks[..k];
        assert picks'[k] == picks[k];
      } else {
        assert picks'[..k] == picks;
      }
    }
  }

  lemma CoveredSnoc(s: seq<Entry>, images: int -> ImageFetch, picks: seq<nat>, i: nat)
    requires CoveredBefore(s, images, picks, i) && i < |s|
    ensures CoveredBefore(s, images, picks + [i], i + 1)
  {
    IdSetSnoc(s, picks, i);
  }

  lemma PicksUsableSnoc(s: seq<Entry>, images: int -> ImageFetch, picks: seq<nat>, i: nat)
    requires PicksUsable(s, images, i, picks) && i < |s| && HasBackdrop(images(s[i].id))
    ensures PicksUsable(s, images, i + 1, picks + [i])
  {
    var picks' := picks + [i];
    assert forall k :: 0 <= k < |picks| ==> picks'[k] == picks[k];
  }

  lemma IncreasingSnoc(picks: seq<nat>, i: nat)
    requires Increasing(picks) && forall k :: 0 <= k < |picks| ==> picks[k] < i
    ensures Increasing(picks + [i])
  {
    var picks' := picks + [i];
    assert forall k :: 0 <= k < |picks| ==> picks'[k] == picks[k];
  }

  /** Placing a new id with a backdrop grows both the set and the rounds by one. */
  lemma PlacedAdd(s: seq<Entry>, n: int, images: int -> ImageFetch, i: nat, ids: set<int>, picks: seq<nat>)
    requires Placed(s, n, images, i, ids, picks) && i < |s| && |ids| < n
    requires s[i].id !in ids && HasBackdrop(images(s[i].id))
    ensures Placed(s, n, images, i + 1, ids + {s[i].id}, picks + [i])
  {
    IdSetSnoc(s, picks, i);
    FirstOccurrencesSnoc(s, images, picks, i);
    CoveredSnoc(s, images, picks, i);
    PicksUsableSnoc(s, images, picks, i);
    IncreasingSnoc(picks, i);
  }

  /** A state where the loop stops is a finished selection. */
  lemma PlacedFinal(s: seq<Entry>, n: int, images: int -> ImageFetch, i: nat, ids: set<int>, picks: seq<nat>)
    requires Placed(s, n, images, i, ids, picks)
    requires i == |s| || |ids| >= n
    ensures Selected(s, n, images, picks)
  {
    forall k, l | 0 <= k < l < |picks| ensures s[picks[k]].id != s[picks[l]].id {
      assert picks[..l][k] == picks[k];
      IdSetMembership(s, picks[..l], s[picks[k]].id);
    }
    forall k | 0 <= k < |picks| ensures CoveredBefore(s, images, picks[..k], picks[k]) {
    }
  }

  /** Whether the walk places the candidate at position `i`. */
  predicate Places(s: seq<Entry>, images: int -> ImageFetch, i: nat, ids: set<int>)
    requires i < |s|
  {
    s[i].id !in ids && HasBackdrop(images(s[i].id))
  }

  /** The ids placed after visiting position `i`. */
  function NextIds(s: seq<Entry>, images: int -> ImageFetch, i: nat, ids: set<int>): set<int>
    requires i < |s|
  {
    if Places(s, images, i, ids) then ids + {s[i].id} else ids
  }

  /** The picks after visiting position `i`. */
  function NextPicks(s: seq<Entry>, images: int -> ImageFetch, i: nat, ids: set<int>, picks: seq<nat>): seq<nat>
    requires i < |s|
  {
    if Places(s, images, i, ids) then picks + [i] else picks
  }

  /** A visit that does not fail moves the walk on by one position. */
  lemma RunNext(s: seq<Entry>, n: int, images: int -> ImageFetch, i: nat, ids: set<int>, picks: seq<nat>)
    requires i < |s| && |ids| < n
    requires s[i].id in ids || images(s[i].id).Images?
    ensures Run(s, n, images, i, ids, picks)
            == Run(s, n, images, i + 1, NextIds(s, images, i, ids), NextPicks(s, images, i, ids, picks))
  {
  }

  /** A visit keeps the loop state consistent. */
  lemma PlacedNext(s: seq<Entry>, n: int, images: int -> ImageFetch, i: nat, ids: set<int>, picks: seq<nat>)
    requires Placed(s, n, images, i, ids, picks) && i < |s| && |ids| < n
    ensures Placed(s, n, images, i + 1, NextIds(s, images, i, ids), NextPicks(s, images, i, ids, picks))
  {
    if Places(s, images, i, ids) {
      PlacedAdd(s, n, images, i, ids, picks);
    } else {
      PlacedSkip(s, n, images, i, ids, picks);
    }
  }

  /** From a consistent state, a walk that does not fail ends in a selection
      with every property of `Selected`. */
  lemma {:induction false} RunSelects(s: seq<Entry>, n: int, images: int -> ImageFetch, i: nat, ids: set<int>, picks: seq<nat>)
    requires Placed(s, n, images, i, ids, picks)
    ensures Run(s, n, images, i, ids, picks).Some? ==> Selected(s, n, images, Run(s, n, images, i, ids, picks).value)
    decreases |s| - i
  {
    if i == |s| || |ids| >= n {
      PlacedFinal(s, n, images, i, ids, picks);
    } else if s[i].id in ids || images(s[i].id).Images? {
      WalkStep(s, n, images, i, ids, picks);
      RunSelects(s, n, images, i + 1, NextIds(s, images, i, ids), NextPicks(s, images, i, ids, picks));
    }
  }

  /** A visit that does not fail keeps the loop state consistent and moves the
      walk on by one position. */
  lemma WalkStep(s: seq<Entry>, n: int, images: int -> ImageFetch, i: nat, ids: set<int>, picks: seq<nat>)
    requires Placed(s, n, images, i, ids, picks) && i < |s| && |ids| < n
    requires s[i].id in ids || images(s[i].id).Images?
    ensures Placed(s, n, images, i + 1, NextIds(s, images, i, ids), NextPicks(s, images, i, ids, picks))
    ensures Run(s, n, images, i, ids, picks)
            == Run(s, n, images, i + 1, NextIds(s, images, i, ids), NextPicks(s, images, i, ids, picks))
  {
    RunNext(s, n, images, i, ids, picks);
    PlacedNext(s, n, images, i, ids, picks);
  }

  /** A walk fails only after reaching a candidate whose image metadata could
      not be fetched. */
  lemma {:induction false} RunFailsOnImages(s: seq<Entry>, n: int, images: int -> ImageFetch, i: nat, ids: set<int>, picks: seq<nat>)
    requires i <= |s|
    ensures Run(s, n, images, i, ids, picks).None? ==> exists q :: i <= q < |s| && images(s[q].id).ImagesFailed?
    decreases |s| - i
  {
    if i < |s| && |ids| < n {
      if s[i].id in ids {
        RunFailsOnImages(s, n, images, i + 1, ids, picks);
      } else if HasBackdrop(images(s[i].id)) {
        RunFailsOnImages(s, n, images, i + 1, ids + {s[i].id}, picks + [i]);
      } else if images(s[i].id).Images? {
        RunFailsOnImages(s, n, images, i + 1, ids, picks);
      }
    }
  }

  /** The rounds built for the selected positions `picks`: the `k`-th round uses
      draw `offset + k` to choose its backdrop. */
  function Rounds(s: seq<Entry>, picks: seq<nat>, images: int -> ImageFetch, rand: nat -> real, offset: nat)
    : (rounds: seq<Round>)
    requires ValidDraws(rand)
    requires forall k :: 0 <= k < |picks| ==> picks[k] < |s| && HasBackdrop(images(s[picks[k]].id))
    ensures |rounds| == |picks|
  {
    seq(|picks|, k requires 0 <= k < |picks| => RoundFor(s[picks[k]], images(s[picks[k]].id), rand(offset + k)))
  }

  /** Each round shows its candidate's title and one of its backdrops. */
  lemma RoundsShowBackdrops(s: seq<Entry>, picks: seq<nat>, images: int -> ImageFetch, rand: nat -> real, offset: nat)
    requires ValidDraws(rand)
    requires forall k :: 0 <= k < |picks| ==> picks[k] < |s| && HasBackdrop(images(s[picks[k]].id))
    ensures forall k :: 0 <= k < |picks| ==>
              ShowsBackdropOf(Rounds(s, picks, images, rand, offset)[k], s[picks[k]], images(s[picks[k]].id))
  {
  }

  /** Placing the candidate at `i`, whose metadata lists `backdrops`, appends
      its round, built with the next draw. */
  lemma RoundsAppend(s: seq<Entry>, picks: seq<nat>, i: nat, images: int -> ImageFetch, rand: nat -> real, offset: nat,
                     backdrops: seq<Backdrop>, rounds: seq<Round>, round: Round)
    requires ValidDraws(rand)
    requires forall k :: 0 <= k < |picks| ==> picks[k] < |s| && HasBackdrop(images(s[picks[k]].id))
    requires i < |s| && images(s[i].id) == Images(backdrops) && |backdrops| > 0
    requires rounds == Rounds(s, picks, images, rand, offset)
    requires round == Round(s[i].title, ImageBase + backdrops[RandIndex(rand(offset + |picks|), |backdrops|)].filePath)
    ensures rounds + [round] == Rounds(s, picks + [i], images, rand, offset)
  {
    var picks' := picks + [i];
    assert forall k :: 0 <= k < |picks| ==> picks'[k] == picks[k];
  }

  /** The rounds the walk over the shuffled list `s` yields, or `None` when an
      image-metadata request fails. */
  function Assembled(s: seq<Entry>, n: int, images: int -> ImageFetch, rand: nat -> real, offset: nat)
    : Option<seq<Round>>
    requires ValidDraws(rand)
  {
    PlacedStart(s, n, images);
    RunSelects(s, n, images, 0, {}, []);
    match Selection(s, n, images)
    case None => None
    case Some(p) => Some(Rounds(s, p, images, rand, offset))
  }

  lemma AssembledFromSelection(s: seq<Entry>, n: int, images: int -> ImageFetch, rand: nat -> real, offset: nat)
    requires ValidDraws(rand)
    ensures Selection(s, n, images).None? ==> Assembled(s, n, images, rand, offset).None?
    ensures Selection(s, n, images).Some? ==>
              && (forall k :: 0 <= k < |Selection(s, n, images).value| ==>
                    Selection(s, n, images).value[k] < |s| && HasBackdrop(images(s[Selection(s, n, images).value[k]].id)))
              && Assembled(s, n, images, rand, offset) == Some(Rounds(s, Selection(s, n, images).value, images, rand, offset))
  {
    PlacedStart(s, n, images);
    RunSelects(s, n, images, 0, {}, []);
  }

  /** What the caller receives from a walk that does not fail: at most
      `max(noOfFrame, 0)` rounds, the `k`-th built from the `k`-th selected
      candidate (its title, one of its backdrops), the candidates having
      distinct ids and appearing in shuffled order. */
  lemma AssembledRounds(s: seq<Entry>, n: int, images: int -> ImageFetch, rand: nat -> real, offset: nat)
    requires ValidDraws(rand)
    ensures Assembled(s, n, images, rand, offset).None?
            ==> exists q :: 0 <= q < |s| && images(s[q].id).ImagesFailed?
    ensures Assembled(s, n, images, rand, offset).Some? ==>
              var rounds := Assembled(s, n, images, rand, offset).value;
              var p := Selection(s, n, images).value;
              && Selected(s, n, images, p)
              && |rounds| == |p| <= Max0(n)
              && forall k :: 0 <= k < |rounds| ==> ShowsBackdropOf(rounds[k], s[p[k]], images(s[p[k]].id))
  {
    PlacedStart(s, n, images);
    RunSelects(s, n, images, 0, {}, []);
    RunFailsOnImages(s, n, images, 0, {}, []);
    var sel := Selection(s, n, images);
    if sel.Some? {
      assert Assembled(s, n, images, rand, offset) == Some(Rounds(s, sel.value, images, rand, offset));
      RoundsShowBackdrops(s, sel.value, images, rand, offset);
    }
  }

  /** The movies behind a successful walk: one per round, taken from the
      shuffled list, with pairwise distinct ids, each round showing its movie's
      title and one of its backdrops. */
  lemma AssembledMovies(s: seq<Entry>, n: int, images: int -> ImageFetch, rand: nat -> real, offset: nat)
    returns (movies: seq<Entry>)
    requires ValidDraws(rand) && Assembled(s, n, images, rand, offset).Some?
    ensures var rounds := Assembled(s, n, images, rand, offset).value;
            && |movies| == |rounds| <= Max0(n)
            && (forall k :: 0 <= k < |movies| ==>
                  movies[k] in s && ShowsBackdropOf(rounds[k], movies[k], images(movies[k].id)))
            && (forall k, l :: 0 <= k < l < |movies| ==> movies[k].id != movies[l].id)
  {
    AssembledRounds(s, n, images, rand, offset);
    var p := Selection(s, n, images).value;
    movies := seq(|p|, k requires 0 <= k < |p| => s[p[k]]);
    forall k, l | 0 <= k < l < |movies|
      ensures movies[k].id != movies[l].id
    {
      assert s[p[k]].id != s[p[l]].id;
    }
  }

  /** The state of the assembly loop before visiting position `i`: the walk
      from there yields the whole selection, `picks` are the positions placed
      so far, `indices` their ids, and `gameArray` their rounds. */
  ghost predicate Walking(s: seq<Entry>, n: int, images: int -> ImageFetch, rand: nat -> real, offset: nat,
                          i: nat, indices: set<int>, picks: seq<nat>, gameArray: seq<Round>)
    requires ValidDraws(rand)
  {
    && i <= |s|
    && (forall k :: 0 <= k < |picks| ==> picks[k] < |s| && HasBackdrop(images(s[picks[k]].id)))
    && Run(s, n, images, i, indices, picks) == Selection(s, n, images)
    && gameArray == Rounds(s, picks, images, rand, offset)
    && |gameArray| == |indices| == |picks| <= Max0(n)
  }

  lemma WalkStart(s: seq<Entry>, n: int, images: int -> ImageFetch, rand: nat -> real, offset: nat)
    requires ValidDraws(rand)
    ensures Walking(s, n, images, rand, offset, 0, {}, [], [])
  {
  }

  /** Placing a new candidate with a backdrop. */
  lemma WalkPlace(s: seq<Entry>, n: int, images: int -> ImageFetch, rand: nat -> real, offset: nat,
                  i: nat, indices: set<int>, picks: seq<nat>, gameArray: seq<Round>,
                  backdrops: seq<Backdrop>, round: Round)
    requires ValidDraws(rand) && Walking(s, n, images, rand, offset, i, indices, picks, gameArray)
    requires i < |s| && |indices| < n && s[i].id !in indices
    requires images(s[i].id) == Images(backdrops) && |backdrops| > 0
    requires round == Round(s[i].title, ImageBase + backdrops[RandIndex(rand(offset + |gameArray|), |backdrops|)].filePath)
    ensures Walking(s, n, images, rand, offset, i + 1, indices + {s[i].id}, picks + [i], gameArray + [round])
  {
    assert Run(s, n, images, i + 1, indices + {s[i].id}, picks + [i]) == Selection(s, n, images) by {
      RunNext(s, n, images, i, indices, picks);
      assert NextIds(s, images, i, indices) == indices + {s[i].id};
      assert NextPicks(s, images, i, indices, picks) == picks + [i];
    }
    assert gameArray + [round] == Rounds(s, picks + [i], images, rand, offset) by {
      RoundsAppend(s, picks, i, images, rand, offset, backdrops, gameArray, round);
    }
    assert forall k :: 0 <= k < |picks| + 1 ==>
             (picks + [i])[k] < |s| && HasBackdrop(images(s[(picks + [i])[k]].id)) by {
      var picks' := picks + [i];
      assert forall k :: 0 <= k < |picks| ==> picks'[k] == picks[k];
    }
  }

  /** Passing over a candidate whose id is already placed or that has no
      backdrop. */
  lemma WalkSkip(s: seq<Entry>, n: int, images: int -> ImageFetch, rand: nat -> real, offset: nat,
                 i: nat, indices: set<int>, picks: seq<nat>, gameArray: seq<Round>)
    requires ValidDraws(rand) && Walking(s, n, images, rand, offset, i, indices, picks, gameArray)
    requires i < |s| && |indices| < n
    requires s[i].id in indices || (images(s[i].id).Images? && |images(s[i].id).backdrops| == 0)
    ensures Walking(s, n, images, rand, offset, i + 1, indices, picks, gameArray)
  {
    RunNext(s, n, images, i, indices, picks);
    assert NextIds(s, images, i, indices) == indices;
    assert NextPicks(s, images, i, indices, picks) == picks;
  }

  /** A failing metadata request for a new candidate fails the whole walk. */
  lemma WalkFail(s: seq<Entry>, n: int, images: int -> ImageFetch, rand: nat -> real, offset: nat,
                 i: nat, indices: set<int>, picks: seq<nat>, gameArray: seq<Round>)
    requires ValidDraws(rand) && Walking(s, n, images, rand, offset, i, indices, picks, gameArray)
    requires i < |s| && |indices| < n && s[i].id !in indices && images(s[i].id).ImagesFailed?
    ensures Assembled(s, n, images, rand, offset).None?
  {
    RunFail(s, n, images, i, indices, picks);
    AssembledFromSelection(s, n, images, rand, offset);
  }

  /** When the loop condition fails, the rounds built are the result. */
  lemma WalkDone(s: seq<Entry>, n: int, images: int -> ImageFetch, rand: nat -> real, offset: nat,
                 i: nat, indices: set<int>, picks: seq<nat>, gameArray: seq<Round>)
    requires ValidDraws(rand) && Walking(s, n, images, rand, offset, i, indices, picks, gameArray)
    requires !(i < |s| && |indices| < n)
    ensures Assembled(s, n, images, rand, offset) == Some(gameArray)
  {
    assert Run(s, n, images, i, indices, picks) == Some(picks);
    AssembledFromSelection(s, n, images, rand, offset);
  }

  /** The assembly `while` loop over the shuffled list. */
  method AssembleRounds(s: seq<Entry>, n: int, images: int -> ImageFetch, rand: nat -> real, offset: nat)
    returns (r: Option<seq<Round>>)
    requires ValidDraws(rand)
    ensures r == Assembled(s, n, images, rand, offset)
  {
    var gameArray: seq<Round> := [];
    var indices: set<int> := {};
    ghost var picks: seq<nat> := [];
    var i: nat := 0;
    WalkStart(s, n, images, rand, offset);
    while i < |s| && |indices| < n
      invariant Walking(s, n, images, rand, offset, i, indices, picks, gameArray)
      decreases |s| - i
    {
      var movieId := s[i].id;
      var movieTitle := s[i].title;
      if movieId !in indices {
        match images(movieId)
        case ImagesFailed =>
          WalkFail(s, n, images, rand, offset, i, indices, picks, gameArray);
          return None;
        case Images(backdrops) =>
          if |backdrops| > 0 {
            var randBackdropIndex := RandIndex(rand(offset + |gameArray|), |backdrops|);
            var round := Round(movieTitle, ImageBase + backdrops[randBackdropIndex].filePath);
            WalkPlace(s, n, images, rand, offset, i, indices, picks, gameArray, backdrops, round);
            gameArray := gameArray + [round];
            indices := indices + {movieId};
            picks := picks + [i];
          } else {
            WalkSkip(s, n, images, rand, offset, i, indices, picks, gameArray);
          }
      } else {
        WalkSkip(s, n, images, rand, offset, i, indices, picks, gameArray);
      }
      i := i + 1;
    }
    WalkDone(s, n, images, rand, offset, i, indices, picks, gameArray);
    r := Some(gameArray);
  }
}
