/**
 * `getRandomMovieFramePath`: the bounded-retry single-frame resolver.  Up to
 * ten times it draws a uniformly random movie of the language's list (with
 * replacement) and asks for its image metadata; the first movie with a
 * backdrop yields `{ title, path }` with a random backdrop, and otherwise
 * the result is empty (`{}`).  A thrown error, including the one raised by
 * reading a movie out of an empty list, also yields the empty result.
 */
module FrameResolver {
  import opened FrameTypes

  /** `maxAttempts`. */
  const MaxAttempts: nat := 10

  /** The movie drawn at attempt `a`: every earlier attempt consumed exactly one
      draw, so attempt `a` uses draw number `a`. */
  function Candidate(list: seq<Entry>, rand: nat -> real, a: nat): (e: Entry)
    requires ValidDraws(rand) && |list| > 0
    ensures e in list
  {
    list[RandIndex(rand(a), |list|)]
  }

  /** Attempt `a` finds a movie with at least one backdrop. */
  ghost predicate Hit(list: seq<Entry>, images: int -> ImageFetch, rand: nat -> real, a: nat)
    requires ValidDraws(rand)
  {
    |list| > 0 && HasBackdrop(images(Candidate(list, rand, a).id))
  }

  /** Attempt `a` draws a movie whose metadata lists no backdrop. */
  ghost predicate Miss(list: seq<Entry>, images: int -> ImageFetch, rand: nat -> real, a: nat)
    requires ValidDraws(rand)
  {
    |list| > 0 && images(Candidate(list, rand, a).id).Images? && !HasBackdrop(images(Candidate(list, rand, a).id))
  }

  /** The remaining attempts from `attempt` on. */
  function PickFrom(list: seq<Entry>, images: int -> ImageFetch, rand: nat -> real, attempt: nat): Option<Round>
    requires ValidDraws(rand)
    decreases MaxAttempts - attempt
  {
    if attempt >= MaxAttempts || |list| == 0 then None
    else
      var movie := Candidate(list, rand, attempt);
      match images(movie.id)
      case ImagesFailed => None
      case Images(backdrops) =>
        if |backdrops| > 0 then Some(RoundFor(movie, images(movie.id), rand(attempt + 1)))
        else PickFrom(list, images, rand, attempt + 1)
  }

  /** The single-frame result for the language list `list`. */
  function PickFrame(list: seq<Entry>, images: int -> ImageFetch, rand: nat -> real): Option<Round>
    requires ValidDraws(rand)
  {
    PickFrom(list, images, rand, 0)
  }

  /** Every attempt from `lo` up to (not including) `hi` was a miss. */
  ghost predicate MissesBetween(list: seq<Entry>, images: int -> ImageFetch, rand: nat -> real, lo: nat, hi: nat)
    requires ValidDraws(rand)
  {
    forall b :: lo <= b < hi ==> Miss(list, images, rand, b)
  }

  /** Attempt `a` is the first hit of the attempts from `lo` on. */
  ghost predicate FirstHitAt(list: seq<Entry>, images: int -> ImageFetch, rand: nat -> real, lo: nat, a: nat)
    requires ValidDraws(rand)
  {
    lo <= a < MaxAttempts && Hit(list, images, rand, a) && MissesBetween(list, images, rand, lo, a)
  }

  lemma MissesBetweenStep(list: seq<Entry>, images: int -> ImageFetch, rand: nat -> real, lo: nat, hi: nat)
    requires ValidDraws(rand) && lo < hi
    ensures MissesBetween(list, images, rand, lo, hi)
            <==> Miss(list, images, rand, lo) && MissesBetween(list, images, rand, lo + 1, hi)
  {
  }

  /** After a miss, the first hit from `lo` is the first hit from `lo + 1`. */
  lemma FirstHitAfterMiss(list: seq<Entry>, images: int -> ImageFetch, rand: nat -> real, lo: nat, a: nat)
    requires ValidDraws(rand) && Miss(list, images, rand, lo)
    ensures FirstHitAt(list, images, rand, lo, a) <==> FirstHitAt(list, images, rand, lo + 1, a)
  {
    if lo < a < MaxAttempts {
      MissesBetweenStep(list, images, rand, lo, a);
    }
  }

  /** The remaining attempts succeed exactly when one of them, before the
      ceiling, hits a movie with a backdrop after only misses. */
  lemma {:induction false} PickFromSucceeds(list: seq<Entry>, images: int -> ImageFetch, rand: nat -> real, attempt: nat)
    requires ValidDraws(rand)
    ensures PickFrom(list, images, rand, attempt).Some?
            <==> exists a: nat :: FirstHitAt(list, images, rand, attempt, a)
    decreases MaxAttempts - attempt
  {
    if attempt < MaxAttempts && |list| > 0 {
      PickFromSucceeds(list, images, rand, attempt + 1);
      if Miss(list, images, rand, attempt) {
        assert PickFrom(list, images, rand, attempt) == PickFrom(list, images, rand, attempt + 1);
        if exists a: nat :: FirstHitAt(list, images, rand, attempt, a) {
          var a: nat :| FirstHitAt(list, images, rand, attempt, a);
          FirstHitAfterMiss(list, images, rand, attempt, a);
        }
        var next := attempt + 1;
        if exists a: nat :: FirstHitAt(list, images, rand, next, a) {
          var a: nat :| FirstHitAt(list, images, rand, next, a);
          FirstHitAfterMiss(list, images, rand, attempt, a);
        }
      } else if Hit(list, images, rand, attempt) {
        assert FirstHitAt(list, images, rand, attempt, attempt);
      } else {
        assert PickFrom(list, images, rand, attempt).None?;
      }
    }
  }

  /** A frame from the remaining attempts is the one the first hit yields: that
      movie's title and the backdrop chosen by the draw after it. */
  lemma {:induction false} PickFromFrame(list: seq<Entry>, images: int -> ImageFetch, rand: nat -> real, attempt: nat, a: nat)
    requires ValidDraws(rand) && FirstHitAt(list, images, rand, attempt, a)
    ensures PickFrom(list, images, rand, attempt)
            == Some(RoundFor(Candidate(list, rand, a), images(Candidate(list, rand, a).id), rand(a + 1)))
    decreases a - attempt
  {
    if attempt < a {
      MissesBetweenStep(list, images, rand, attempt, a);
      FirstHitAfterMiss(list, images, rand, attempt, a);
      PickFromFrame(list, images, rand, attempt + 1, a);
    }
  }

  /** What a caller of the single-frame resolver can rely on: a frame exists
      only if one of the first ten draws hit a movie with a backdrop, every
      earlier draw having missed; it carries that movie's title and one of its
      backdrops.  An empty list, ten misses, or a failed metadata request before
      the first hit give the empty result. */
  lemma PickFrameFacts(list: seq<Entry>, images: int -> ImageFetch, rand: nat -> real)
    requires ValidDraws(rand)
    ensures |list| == 0 ==> PickFrame(list, images, rand).None?
    ensures MissesBetween(list, images, rand, 0, MaxAttempts) ==> PickFrame(list, images, rand).None?
    ensures PickFrame(list, images, rand).Some? ==>
              exists a: nat :: FirstHitAt(list, images, rand, 0, a)
                && ShowsBackdropOf(PickFrame(list, images, rand).value,
                                   Candidate(list, rand, a), images(Candidate(list, rand, a).id))
  {
    PickFromSucceeds(list, images, rand, 0);
    if PickFrame(list, images, rand).Some? {
      var a: nat :| FirstHitAt(list, images, rand, 0, a);
      PickFromFrame(list, images, rand, 0, a);
      assert !Miss(list, images, rand, a);
    }
  }
}
