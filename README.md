# Guess the Frame: a verified model of round assembly and answer checking

The guess-the-frame server hands players movie stills ("frames") and asks them
to name the movie. This project models the logic behind that game in Dafny:

- **`shuffleArray`**: the in-place Fisher-Yates shuffle.
- **`getYearDifference`**: whole calendar years between two dates.
- **Page planning** for the multi-frame request.
- **The round assembler** of `/anyNumberOfMovieFrame`: fetch the planned discover pages (all or nothing), flatten them, shuffle them, then walk the shuffled list with a set of placed movie ids.
- **`updateMovieIDList`**: refresh one of the two movie lists page by page.
- **`getRandomMovieFramePath`**: the single-frame resolver, which retries at most ten times.
- **`checkUserAnswer`**: how the language model's reply is read.

The external calls become parameters of the model:

- **Discover page requests** become `fetch: int -> PageFetch`. Each page either loads its results or fails.
- **Image metadata requests** become `images: int -> ImageFetch`. A request either returns the backdrops or fails.
- **The language model's reply** becomes a `Reply`.
- **`Math.random`** becomes a stream `rand: nat -> real`. Every draw lies in `[0, 1)`, and the k-th call to `Math.random` returns `rand(k)`. An index is `floor(r * n)` computed in exact arithmetic; the source multiplies in IEEE doubles, whose rounding can, on rare draws, give an index one higher than the exact product. No property depends on this, because the draws are arbitrary.

Draws are numbered the way the source consumes them:

- The shuffle of `n` entries uses draws `0 .. n - 2`.
- The k-th round placed by the assembler then uses draw `max(n - 1, 0) + k`.
- In the single-frame resolver, every failed attempt consumes one draw. So attempt `a` reads draw `a` for its movie and draw `a + 1` for the backdrop.

Modules follow the program's structure:

| module | file | what it holds |
|---|---|---|
| `FrameTypes` | frame_types.dfy | entries, fetch outcomes, rounds, the draw stream |
| `Shuffle` | shuffle.dfy | `shuffleArray` on an `array`, and its reference function |
| `Calendar` | calendar.dfy | `getYearDifference` on (year, month, day) triples |
| `PagePlan` | page_plan.dfy | the `requests` loop |
| `Assembly` | assembly.dfy | the page merge and the assembly `while` loop |
| `MultiFrame` | multi_frame.dfy | the `/anyNumberOfMovieFrame` handler end to end: 400, 500, or the rounds |
| `Catalog` | catalog.dfy | the `MovieLists` class (the two module-level lists), the refresh, the single-frame method |
| `FrameResolver` | frame_resolver.dfy | the reference function for the retry loop |
| `Verdict` | verdict.dfy | `trim`, `toLowerCase` and the verdict |

Each imperative part of the source is a Dafny method with loops:

- the shuffle;
- the page planner;
- the assembly loop;
- the refresh, which updates a field of `MovieLists`;
- the retry loop.

Each such method is proved equal to a functional reference definition. The lemmas state what the source promises about that definition.

Where the code and the design description disagree, the model follows the code:

- **Page total unavailable in the handler.** When `getTotalPage` fails with -1 inside the multi-frame handler, assembly does not abort. The `min` makes the planning loop empty, so only pages 1 and 2 are fetched.
- **Refresh is not atomic.** The list is cleared before the loop. A request that throws in the middle ends the refresh, and the pages appended so far stay. The model treats a failed page like an empty one: both end the refresh with the earlier pages kept.
- **No duplicate removal in the refresh.** The refreshed list is the plain concatenation of the kept pages.
- **Image failure in the assembly loop.** A failed image request there aborts the whole request with 500, and the rounds built so far are discarded.
- **Image failure in the resolver.** A failed image request in the single-frame resolver ends all remaining attempts with the empty result.
- **Empty list in the resolver.** An empty list in the resolver throws: the source reads a movie out of the empty list. That error is caught, so the result is also empty.
- **Language choice.** Any language other than "en" selects the Hindi list.

## Model

| member | source | states |
|---|---|---|
| FrameTypes.RandIndex | guessTheFrameAPI.js:101-101 | `Math.floor(Math.random() * n)` is a valid index: `0 <= j < n` for every draw in `[0, 1)` |
| FrameTypes.RoundFor | guessTheFrameAPI.js:224-228 | the round built for a movie carries its title, and its path is the asset base followed by one of the movie's listed backdrops |
| Shuffle.StepIndex | guessTheFrameAPI.js:143-143 | the step for index `i` swaps with some `j <= i` |
| Shuffle.Shuffled | guessTheFrameAPI.js:141-147 | the reference shuffle: the steps for `i` from the last index down to 1, each swapping `i` with `StepIndex` (its partner is `ShuffledIsPermutation`) |
| Shuffle.ShuffleArray | guessTheFrameAPI.js:141-147 | the array after the loop is the reference shuffle of its old contents, and the same multiset of elements |
| Shuffle.ShuffledIsPermutation | guessTheFrameAPI.js:141-147 | the shuffle keeps the length and the multiset of elements |
| Shuffle.ShuffledFromKeepsSettled | guessTheFrameAPI.js:142-145 | positions above the current index, already settled, are never touched again |
| Shuffle.LastPositionFromFirstDraw | guessTheFrameAPI.js:142-145 | the last position ends with the element at `floor(r0 * n)`, where `r0` is the first draw |
| Calendar.YearDifference | guessTheFrameAPI.js:149-163 | `getYearDifference`: the year difference, minus one when the end's (month, day) precedes the start's; its result lies between `yd - 1` and `yd` |
| Calendar.YearDifferenceIsWholeYears | guessTheFrameAPI.js:149-163 | the gap `d` counts whole years: the start's `d`-th anniversary is on or before the end, and the `(d+1)`-th is after it |
| Calendar.WholeYearsUnique | guessTheFrameAPI.js:149-163 | no other number of years has that property |
| Calendar.YearDifferenceCorrection | guessTheFrameAPI.js:153-162 | the gap is `yd - 1` or `yd`, where `yd` is the year difference; it is `yd - 1` exactly when the end's (month, day) comes before the start's; identical dates give 0 |
| Calendar.YearDifferenceMonotone | guessTheFrameAPI.js:149-163 | a later end date never gives a smaller gap |
| Calendar.MonthOriginIrrelevant | guessTheFrameAPI.js:154-154 | numbering months from 0, as `getMonth()` does, or from 1 gives the same gap |
| Calendar.DefaultRangeExamples | guessTheFrameAPI.js:169-170 | from the default start of 2000-01-01, the end 2010-01-15 is 10 whole years later, and the default end 2024-12-31 is 24 |
| PagePlan.PlannedPages | guessTheFrameAPI.js:184-198 | the reference plan: pages `1 .. max(min(yearGap, totalPage), 2)` in order, of length `PageCount` |
| PagePlan.PlanPages | guessTheFrameAPI.js:184-198 | the requests are pages 1 and 2 first, then exactly `3 .. min(yearGap, totalPage)`, strictly increasing, matching the reference plan |
| PagePlan.PageCountMonotone | guessTheFrameAPI.js:195-198 | for a fixed page total, a wider gap never plans fewer pages |
| PagePlan.SeedPagesOnly | guessTheFrameAPI.js:22-31 | with the -1 page total, or a gap or total of at most 2, the plan is exactly `[1, 2]` |
| PagePlan.PlanMonotoneInEndDate | guessTheFrameAPI.js:189-198 | a later end date never plans fewer pages |
| Assembly.Merge | guessTheFrameAPI.js:202-205 | the reference fetch: the pages' results concatenated in request order, or `None` when any page request fails (its partner is `MergeFacts`) |
| Assembly.MergeFacts | guessTheFrameAPI.js:202-205 | the merge fails exactly when some page request fails; otherwise its members are exactly the members of the fetched pages |
| Assembly.Run | guessTheFrameAPI.js:211-234 | the reference walk from position `i`: stop at the end of the list or once `noOfFrame` ids are placed; skip a placed id; fail on a failed image request; place a new id with a backdrop; skip one without (its partners are `RunSelects` and `RunFailsOnImages`) |
| Assembly.Selection | guessTheFrameAPI.js:211-234 | the walk from the start with no ids placed: the positions turned into rounds |
| Assembly.Assembled | guessTheFrameAPI.js:211-234 | the rounds of the selection, the `k`-th taking its backdrop from draw `offset + k`, or `None` when the walk fails (its partners are `AssembledRounds` and `AssembledMovies`) |
| Assembly.RunFailsOnImages | guessTheFrameAPI.js:218-222 | the walk fails only when some candidate's image request failed |
| Assembly.PlacedFinal | guessTheFrameAPI.js:212-212 | a state in which the loop condition is false is a finished selection |
| Assembly.RunSelects | guessTheFrameAPI.js:211-234 | from a consistent loop state, a walk that does not fail ends in a selection where: each pick has a backdrop; ids are pairwise distinct; picks are in shuffled order; there are at most `max(noOfFrame, 0)` picks; each pick is the first occurrence of its id; and a short result means every usable candidate was placed |
| Assembly.AssembledRounds | guessTheFrameAPI.js:211-234 | the assembler fails only on a failed image request; otherwise it returns one round per selected candidate, with that candidate's title and one of its backdrops |
| Assembly.AssembledMovies | guessTheFrameAPI.js:211-231 | a successful assembly comes from at most `max(noOfFrame, 0)` entries of the shuffled list, with pairwise distinct ids, each shown by its own round |
| Assembly.AssembleRounds | guessTheFrameAPI.js:211-234 | the `while` loop computes the reference assembly. It keeps, as an invariant, that `gameArray.length == indices.size == #picks <= max(noOfFrame, 0)` and that `i` stays within the shuffled list |
| MultiFrame.AnyNumberOfMovieFrame | guessTheFrameAPI.js:166-240 | the handler returns the reference reply: 400, 500, or the assembled rounds |
| MultiFrame.FramesResponse | guessTheFrameAPI.js:166-240 | the reference reply: 400 when `noOfFrame` is not a number or `lang` is missing, 500 when the page fetch or the walk fails, otherwise the assembled rounds of the shuffled merged pages |
| MultiFrame.BadRequestExactly | guessTheFrameAPI.js:173-175 | 400 is returned exactly when `noOfFrame` is not a number or `lang` is missing |
| MultiFrame.ServerErrorCause | guessTheFrameAPI.js:200-240 | 500 implies that a planned page request failed, or that the image request of a fetched movie failed |
| MultiFrame.PageFailureIsServerError | guessTheFrameAPI.js:200-240 | a well-formed request one of whose planned page requests fails gets 500 |
| MultiFrame.FramesFromDistinctMovies | guessTheFrameAPI.js:205-235 | a successful reply has at most `max(noOfFrame, 0)` rounds, built from fetched movies with distinct ids, each showing one of its movie's backdrops |
| Catalog.LastKeptPageFacts | guessTheFrameAPI.js:47-55 | the refresh keeps a run of loaded, non-empty pages; the run ends at the page total or just before a page that stopped it |
| Catalog.PagesUpToMembership | guessTheFrameAPI.js:57-69 | an entry is in the list of pages `1..k` exactly when one of those pages holds it |
| Catalog.Refreshed | guessTheFrameAPI.js:41-71 | the reference refresh: the pages from 1 up to the last one kept, concatenated in order (its partner is `RefreshedFacts`) |
| Catalog.RefreshedFacts | guessTheFrameAPI.js:41-71 | the refreshed list is the in-order concatenation of pages `1..k`; each of those pages loaded with movies; `k` is the page total unless page `k + 1` was empty or failed |
| Catalog.MovieLists.constructor | guessTheFrameAPI.js:295-295 | the lists start as given |
| Catalog.MovieLists.UpdateMovieIdList | guessTheFrameAPI.js:33-76 | with the -1 page total, the list is unchanged; otherwise the language's list becomes the refreshed list. The other language's list is untouched |
| Catalog.MovieLists.RandomMovieFramePath | guessTheFrameAPI.js:91-122 | the attempt loop computes the reference resolver on the language's list |
| FrameResolver.Candidate | guessTheFrameAPI.js:101-103 | the movie an attempt draws is a member of the list |
| FrameResolver.PickFrom | guessTheFrameAPI.js:100-120 | the reference resolver from attempt `a`: no frame at the ceiling or for an empty list, none on a failed image request, the drawn movie's round when it has a backdrop, the next attempt otherwise (its partners are `PickFromSucceeds` and `PickFromFrame`) |
| FrameResolver.PickFromSucceeds | guessTheFrameAPI.js:100-115 | the remaining attempts give a frame exactly when one attempt before the tenth has a backdrop and every earlier one missed |
| FrameResolver.PickFromFrame | guessTheFrameAPI.js:100-114 | that frame is the first hit's: its title, and the backdrop chosen by the next draw |
| FrameResolver.PickFrameFacts | guessTheFrameAPI.js:93-120 | an empty list, or ten misses, give the empty result; a frame implies a first hit within ten attempts, and the frame shows that movie's title and one of its backdrops |
| Verdict.TrimStart | guessTheFrameAPI.js:264-264 | strips a prefix of trimmable characters and keeps a non-trimmable first character |
| Verdict.TrimEnd | guessTheFrameAPI.js:264-264 | strips a suffix of trimmable characters and keeps a non-trimmable last character |
| Verdict.Trim | guessTheFrameAPI.js:264-264 | `trim()`: the result is no longer than the reply and starts and ends with kept characters (its partners are `TrimIsSlice` and `TrimPadded`) |
| Verdict.ToLower | guessTheFrameAPI.js:264-264 | lower-cases each character in place and keeps the length |
| Verdict.CheckUserAnswer | guessTheFrameAPI.js:264-270 | the verdict: true only for a reply whose trimmed text has three characters; it is the reply trimmed, lower-cased and compared with "yes", and false for a failed call (its partner is `VerdictIsYes`) |
| Verdict.TrimIsSlice | guessTheFrameAPI.js:264-264 | the trimmed reply is a slice of the reply: only trimmable characters lie outside it, and its own ends are kept characters |
| Verdict.TrimPadded | guessTheFrameAPI.js:264-264 | trimming a core padded with white space gives back the core |
| Verdict.VerdictIsYes | guessTheFrameAPI.js:264-270 | a failed call gives false; otherwise the verdict is true exactly when the trimmed reply is "yes" in some letter case |
| Verdict.LowerIsYes | guessTheFrameAPI.js:264-265 | lower-casing gives "yes" exactly for "yes" in some letter case |
| Verdict.PaddedYesAccepted | guessTheFrameAPI.js:264-265 | "Yes" in any case, surrounded by white space, is a correct answer |
| Verdict.UnpaddedReply | guessTheFrameAPI.js:264-265 | a reply without white space at its ends is correct exactly when it is "yes" in some case |
| Verdict.PaddedYesExample | guessTheFrameAPI.js:264-265 | `" Yes\n"` is accepted |
| Verdict.RejectedExamples | guessTheFrameAPI.js:264-265 | `"No"` and `"Yes."` are rejected |

## Left out

- **The Express routes, `app.listen` and response plumbing**: the `/updateMovieIDList` and `/randomMovieFrame` wrappers and `/checkAnswer` with its defaults. These are transport. Only the 400 and 500 outcomes of `/anyNumberOfMovieFrame` are modelled, in `MultiFrame.FramesReply`.
- **`axios`**: the catalog calls are oracle parameters (`fetch`, `images`). The page total that `getTotalPage` returns is a parameter, and -1 stands for its error sentinel. URLs, API keys and the query parameters, including `lang` and the dates inside URLs, are left out. The fetched data is whatever the oracles return for them.
- **`Promise.all` concurrency**: the page fetch is modelled as sequential and all-or-nothing. Which failing request rejects first is not observable here.
- **Unhandled rejection of pages 1 and 2**: their requests start before the handler awaits `getTotalPage`, and nothing handles their rejection until `Promise.all`. A page 1 or 2 request that fails during that wait is an unhandled rejection, which by default ends a Node process (version 15 and later) instead of answering 500. The model answers `ServerError` for it.
- **The Groq call and the prompt text**: only its outcome is modelled, as a reply string or a thrown error (`Reply.CallFailed`, which also covers a reply without a first choice).
- **JavaScript `Date` parsing and time zones**: `getYearDifference` receives (year, month, day) triples. The conversion of strings such as "2000-01-01" to local dates is not modelled, including a local zone west of UTC turning that date into 1999-12-31. `getCurrentDateFormatted`, a wall clock, is not modelled either.
- **`parseInt` and `isNaN`**: a `noOfFrame` that does not parse is `None`. A `NaN` page total from `getTotalPage` is not modelled: the page total is an integer.
- **`console` logging**: it has no effect on results.
- **The static movie lists**: these are data. `MovieLists` is constructed from whatever initial lists the caller gives.
- **Absent `backdrops` or `results`**: an absent `backdrops` field is the same as an empty list. In `updateMovieIDList`, a `results` field that is absent or not a list throws at its length test, and is modelled as a failed request. In the multi-frame handler such a field is not modelled: `flatMap` keeps it as a single element, and the walk throws (500) only if it reaches that element before placing `noOfFrame` rounds.
- **Image metadata as a function of the id**: `images` answers every request for the same movie id alike. A duplicate id that was not placed because it had no backdrop is requested again by the walk, and the model assumes the same answer. The first-occurrence property of `Assembly.RunSelects` rests on this.
- **Interleaving of requests**: concurrent requests that modify or read the two lists while a refresh is in progress are not modelled. Each request receives its own draw stream, starting at draw 0.
- Verdict.ToLower: models `toLowerCase` only on the ASCII letters. No other code point lower-cases to "y", "e" or "s", so the verdict is the same as with full Unicode lower-casing, but `ToLower` itself is weaker than the source on other text.
