/**
 * Values shared by every part of the guess-the-frame server: catalog entries,
 * the outcomes of the two catalog calls (a discover page and a movie's image
 * metadata), the rounds handed to players, and the random draws that stand in
 * for `Math.random`.
 */
module FrameTypes {

  datatype Option<+T> = None | Some(value: T)

  /** One movie of a discover page: its catalog id and its title. */
  datatype Entry = Entry(id: int, title: string)

  /** One backdrop image of a movie, by the relative path the catalog reports. */
  datatype Backdrop = Backdrop(filePath: string)

  /** What one discover-page request yields: its results, or a thrown error. */
  datatype PageFetch = Loaded(results: seq<Entry>) | FetchFailed

  /** What one image-metadata request yields: its backdrops (a missing list is an
      empty one), or a thrown error. */
  datatype ImageFetch = Images(backdrops: seq<Backdrop>) | ImagesFailed

  /** A game round as sent to the client: `{ title, path }`. */
  datatype Round = Round(title: string, path: string)

  /** The catalog's static asset base that every backdrop path is appended to. */
  const ImageBase: string := "https://image.tmdb.org/t/p/original"

  /** A stream of `Math.random()` results: the k-th call returns `rand(k)`. */
  ghost predicate ValidDraws(rand: nat -> real)
  {
    forall k: nat :: 0.0 <= rand(k) < 1.0
  }

  lemma ScaledDrawBelow(r: real, m: real)
    requires 0.0 <= r < 1.0 && m > 0.0
    ensures 0.0 <= r * m < m
  {
    assert (1.0 - r) * m > 0.0;
  }

  /** `Math.floor(r * n)`: the index a draw `r` selects among `n` items. */
  function RandIndex(r: real, n: int): (j: int)
    requires 0.0 <= r < 1.0 && n > 0
    ensures 0 <= j < n
  {
    var m := n as real;
    ScaledDrawBelow(r, m);
    var x := r * m;
    assert x.Floor as real <= x;
    assert x.Floor as real < m;
    x.Floor
  }

  /** True when the image metadata names at least one backdrop. */
  predicate HasBackdrop(f: ImageFetch)
  {
    f.Images? && |f.backdrops| > 0
  }

  /** `rd` is a round for `e`: its title, and one of the backdrops `f` lists,
      prefixed with the asset base. */
  ghost predicate ShowsBackdropOf(rd: Round, e: Entry, f: ImageFetch)
  {
    && rd.title == e.title
    && f.Images?
    && exists k :: 0 <= k < |f.backdrops| && rd.path == ImageBase + f.backdrops[k].filePath
  }

  /** The round for an entry whose metadata has a backdrop: the backdrop chosen
      by draw `r`, prefixed with the asset base. */
  function RoundFor(e: Entry, f: ImageFetch, r: real): (rd: Round)
    requires HasBackdrop(f) && 0.0 <= r < 1.0
    ensures ShowsBackdropOf(rd, e, f)
  {
    var k := RandIndex(r, |f.backdrops|);
    Round(e.title, ImageBase + f.backdrops[k].filePath)
  }
}
