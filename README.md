# AI video gallery: catalogue API and video card, in Dafny

This project models the two parts of the gallery that carry logic.

**The catalogue API** (`src/app/api/videos/route.ts`) keeps a JSON file of video records.
- `POST` creates a record:
  - it checks the fields: blank title, prompt or link first, then the title length, then the prompt length, then the YouTube link;
  - it reads the file;
  - it refuses a duplicate id (409), then a full catalogue (400);
  - it builds the record, with five thumbnail addresses derived from the id;
  - it prepends the record to the collection and hands the write to a FIFO write queue.
- `GET` lists records:
  - it takes `page` as 1 and `limit` as 20 when they are absent or empty, checks them, then reads the file;
  - it filters by a lower-cased substring of title or prompt;
  - it returns one page together with `total` and `totalPages`.
- The write queue is a module-level `isWriting` flag plus an array of pending writes. The head write runs. When it settles, whether it succeeded or failed, the flag is cleared, exactly the head is removed, and the next write starts.

**The video card** (`src/components/ui/video-card.tsx`) is a client component. It covers:
- the same id rule as the server;
- a four-entry list of fallback thumbnails, ending in a fixed placeholder;
- a handler that advances along that list when an image fails to load;
- the playback flags `showVideo`, `isLoading`, `error` and `player`. Clicks and the embedded player's ready, error and state-change events drive them.

Modules, one per file:

| file | module | contents |
|---|---|---|
| `wrappers.dfy` | `Wrappers` | `Option`, `Result` |
| `strings.dfy` | `Strings` | JavaScript `trim`, `includes`, `toLowerCase` |
| `youtube_url.dfy` | `YouTubeUrl` | the parsed URL value and the id rule the server and the card share |
| `video_records.dfy` | `VideoRecords` | the record; validation; the duplicate and capacity checks; the server thumbnails |
| `video_listing.dfy` | `VideoListing` | the search filter; `slice`; the page arithmetic and the lemmas about pages |
| `video_store.dfy` | `VideoStore` | class `VideoStore`: the file, `isWriting`, `writeQueue`, and the `Post` and `Get` handlers |
| `video_card.dfy` | `VideoCardState` | the fallback chain and class `VideoCard`, with one method per event |

The URL parser is foreign code, so it is a parameter: `parse: string -> Option<ParsedUrl>`, where `None` means `new URL` threw. A parsed URL is a host name, a path and the query's name/value pairs in order.

The stored file is a value of type `FileState`:
- `Absent` stands for ENOENT and reads as the empty collection;
- `Unreadable` reads as a 500;
- `Stored(videos)` holds a collection.

The creation time is a parameter.

Four details of the code that the model keeps:
- `POST` answers a successful creation with status 200;
- the server thumbnail list runs in ascending resolution (default, mq, hq, sd, maxres);
- the card's list uses another host (`i.ytimg.com`) and the order hq, mq, default;
- `GET` checks its page parameters before it reads the file.

Facts the proofs make explicit:
- **Look-alike hosts.** The host test is a substring test. A look-alike host such as `youtube.com.example.net` counts as a watch link, while `www.youtu.be` is not recognised (`HostRuleEdges`).
- **The creation race.** Only the final write is serialised, not the read-check-write sequence. Two identical requests whose reads both come before either write are both accepted with the same id (`SameIdRace`).
- **The error overlay.** Only the player view (`showVideo`) shows the card's error message. Every event keeps "an error implies the player is hidden" (`VideoCard.Valid`), so the message is never on screen.

## Model

| member | source | states |
|---|---|---|
| Strings.TrimStart | src/app/api/videos/route.ts:91 | the result is a suffix of the input; the part dropped is all JavaScript whitespace; the result does not start with whitespace |
| Strings.TrimEnd | src/app/api/videos/route.ts:91 | the result is a prefix of the input; the part dropped is all whitespace; the result does not end with whitespace |
| Strings.Trim | src/app/api/videos/route.ts:91 | `trim` is never longer than its input and neither starts nor ends with whitespace |
| Strings.TrimSpec | src/app/api/videos/route.ts:91 | `trim` yields an infix of the input with only whitespace around it, and it is empty exactly when the input is all whitespace; with `Trim`'s own ensures (no whitespace at either end) this fixes the result |
| Strings.Contains | src/app/api/videos/route.ts:116 | `includes` is true exactly when the needle occurs at some index |
| Strings.ToLower | src/app/api/videos/route.ts:175 | `toLowerCase` (ASCII letters) keeps the length |
| Strings.ToLowerSpec | src/app/api/videos/route.ts:175 | lower-casing turns each capital into its small letter, keeps every other character, and leaves no capital |
| YouTubeUrl.SearchParam | src/app/api/videos/route.ts:117 | `searchParams.get`: `null` exactly when no pair has the name; otherwise the value of the first pair with that name |
| YouTubeUrl.DropFirst | src/app/api/videos/route.ts:119 | `slice(1)`: the first character followed by the result is the input; empty stays empty |
| YouTubeUrl.GetVideoId | src/components/ui/video-card.tsx:33-48 | an id comes only from a parsed URL whose host contains "youtube.com" or equals "youtu.be"; a watch host gives the `v` parameter or nothing; the short host gives the path minus its first character, the empty string for an empty path |
| YouTubeUrl.CanonicalLinksRoundTrip | src/app/api/videos/route.ts:113-123 | the watch link (also on `m.` with other parameters first) and the short link built from an id give that id back |
| YouTubeUrl.HostRuleEdges | src/app/api/videos/route.ts:116-120 | a host that merely contains "youtube.com" is accepted; a subdomain of youtu.be, a missing `v` and an unparseable URL give no id |
| VideoRecords.StatusOf | src/app/api/videos/route.ts:126-147 | a duplicate is answered 409 and every other refusal 400 |
| VideoRecords.ThumbnailUrls | src/app/api/videos/route.ts:74-83 | exactly five addresses, address k built from the id and tier k, the tiers in the order default, mq, hq, sd, maxres |
| VideoRecords.ThumbnailUrlDeterminesId | src/app/api/videos/route.ts:74-83 | a thumbnail address depends on the id alone and determines it: equal addresses of one tier mean equal ids |
| VideoRecords.Blank | src/app/api/videos/route.ts:91 | `!x?.trim()`: the field is absent, or empty once trimmed (a definition) |
| VideoRecords.HasValidUrl | src/app/api/videos/route.ts:113-130 | the link parses and the server's id rule gives a non-empty id from it (a definition) |
| VideoRecords.ExtractVideoId | src/app/api/videos/route.ts:113-130 | the server accepts an id exactly when the shared rule gives one and it is not empty, and then returns that id |
| VideoRecords.Validate | src/app/api/videos/route.ts:91-130 | each refusal holds exactly when the earlier checks pass and its own fails, in the order blank fields (after trimming), title over 100, prompt over 1000 (both untrimmed), invalid link; success carries the non-empty id, the trimmed non-empty title and prompt, and the link as sent |
| VideoRecords.HasId | src/app/api/videos/route.ts:135 | `some(v => v.id === videoId)`: some record has the id (a definition) |
| VideoRecords.NewVideo | src/app/api/videos/route.ts:150-159 | the record keeps the draft's fields and the creation time; `thumbnailUrls` is the five-entry list of the id; `thumbnailUrl` is its entry 2, the hqdefault address |
| VideoRecords.Admit | src/app/api/videos/route.ts:135-159 | a duplicate id is refused whatever the size; a non-duplicate is refused exactly when at least 1000 records exist; otherwise the result is the new record |
| VideoRecords.AdmitKeepsInvariant | src/app/api/videos/route.ts:135-161 | prepending an admitted record to a collection with unique ids gives unique ids, at most 1000 records, and the old length plus one |
| VideoRecords.SameIdRefusedAfterCreate | src/app/api/videos/route.ts:135-140 | after a record is prepended, any later request for the same id is refused as a duplicate |
| VideoListing.ValidPagination | src/app/api/videos/route.ts:180 | the pagination check: `page` at least 1 and `limit` from 1 to 100 (a definition) |
| VideoListing.PageParam | src/app/api/videos/route.ts:176 | an absent or empty `page` is 1; an integer one is kept |
| VideoListing.LimitParam | src/app/api/videos/route.ts:177 | an absent or empty `limit` is 20; an integer one is kept |
| VideoListing.DefaultListingIsFirstTwenty | src/app/api/videos/route.ts:176-180 | with neither `page` nor `limit` the request is valid and lists the first 20 records of the filtered list |
| VideoListing.Matches | src/app/api/videos/route.ts:192-195 | the filter's test: the lower-cased title or the lower-cased prompt contains the query (a definition) |
| VideoListing.Filter | src/app/api/videos/route.ts:191-196 | keeps exactly the records whose lower-cased title or prompt contains the query, as a subsequence of the input in the original order |
| VideoListing.EmptyQueryMatches | src/app/api/videos/route.ts:191 | every record matches the empty query |
| VideoListing.FilterKeepsMultiplicity | src/app/api/videos/route.ts:192-195 | the filter keeps each matching record as many times as it occurs and drops every other |
| VideoListing.Search | src/app/api/videos/route.ts:175-196 | an absent or empty `q` returns the collection unchanged; otherwise exactly the records matching the lower-cased `q`, in order |
| VideoListing.SearchKeepsMultiplicity | src/app/api/videos/route.ts:175-196 | with `q` present, each record matching the lower-cased `q` is kept as many times as it occurs and every other is dropped |
| VideoListing.Slice | src/app/api/videos/route.ts:202 | `slice` with both bounds clamped to the length: its length and each element's position |
| VideoListing.PageStartIsProduct | src/app/api/videos/route.ts:200 | page `page` begins at `(page - 1) * limit` |
| VideoListing.PageOf | src/app/api/videos/route.ts:199-202 | at most `limit` records, taken in order from the page's start; empty when the start is past the end, otherwise `min(limit, remaining)` records |
| VideoListing.TotalPages | src/app/api/videos/route.ts:210 | `ceil(total / limit)`: the least page count that holds `total` records |
| VideoListing.PagesArePrefix | src/app/api/videos/route.ts:198-202 | pages 1 to n concatenated are the records before page n + 1 begins |
| VideoListing.PagesCoverAll | src/app/api/videos/route.ts:198-210 | pages 1 to `totalPages` concatenated reproduce the filtered list exactly |
| VideoListing.PagesAfterLastAreEmpty | src/app/api/videos/route.ts:198-210 | every page after `totalPages` is empty |
| VideoListing.CreatedVideoLeadsFirstPage | src/app/api/videos/route.ts:161 | a newly created record is the first record of page 1 of the unfiltered listing |
| VideoStore.ReadVideosFile | src/app/api/videos/route.ts:58-72 | a missing file reads as the empty collection; a stored one as itself; any other failure is passed on |
| VideoStore.VideoStore.StartsInOrderOneAtATime | src/app/api/videos/route.ts:23-39 | under the queue invariant, which every queue method keeps, the writes that have begun are a prefix of those submitted: the finished ones and at most one more |
| VideoStore.VideoStore.constructor | src/app/api/videos/route.ts:22-24 | the module starts with the flag clear and the queue empty |
| VideoStore.VideoStore.ProcessWriteQueue | src/app/api/videos/route.ts:26-29 | does nothing while a write runs or the queue is empty; otherwise the head starts |
| VideoStore.VideoStore.WriteVideosFile | src/app/api/videos/route.ts:41-56 | the write joins the tail of the queue; it starts at once when the queue was idle and waits otherwise; the file is not touched yet |
| VideoStore.VideoStore.CompleteWrite | src/app/api/videos/route.ts:30-38 | the running head settles: success replaces the file, failure leaves it; either way the flag is cleared, exactly the head is removed, the next write starts if one waits, and the catalogue invariant is kept |
| VideoStore.VideoStore.Post | src/app/api/videos/route.ts:85-170 | a validation refusal, a read failure, a duplicate or a full catalogue leaves queue and file unchanged; a success queues one write of the new record followed by the collection as read; the catalogue invariant is kept |
| VideoStore.VideoStore.Get | src/app/api/videos/route.ts:172-212 | an absent or empty `page` is 1 and `limit` 20; for those numbers, the answer is what `ListPage` gives |
| VideoStore.VideoStore.ListPage | src/app/api/videos/route.ts:180-211 | bad page parameters are refused before reading; otherwise the result is the requested page of the search result, with `total` its length and `totalPages` its page count; nothing changes |
| VideoStore.SameIdRace | src/app/api/videos/route.ts:132-162 | two identical valid requests that both read before either write lands are both accepted with the same id |
| VideoCardState.GetYoutubeThumbnail | src/components/ui/video-card.tsx:24-31 | exactly four entries: the hq, mq and default addresses of the id, then a placeholder that does not depend on the id |
| VideoCardState.PlaceholderHost | src/components/ui/video-card.tsx:29 | the placeholder literal has 'p' at index 8, the first letter of its host placehold.co (a helper for `CandidatesDistinct`) |
| VideoCardState.CandidatesDistinct | src/components/ui/video-card.tsx:24-31 | the four candidates are pairwise different |
| VideoCardState.IndexOf | src/components/ui/video-card.tsx:107 | `indexOf`: the first position holding the value, or -1 exactly when it is absent |
| VideoCardState.NextThumbnail | src/components/ui/video-card.tsx:106-110 | the step of `handleImageError`: with no candidates the address stays; otherwise the new address is always a candidate (the walk lemmas below say which) |
| VideoCardState.StepOnDistinct | src/components/ui/video-card.tsx:105-111 | on a list without repeats, an error on entry i moves to entry i + 1, and the last entry is a fixed point |
| VideoCardState.WalkOnDistinct | src/components/ui/video-card.tsx:105-111 | on a list without repeats, n errors from entry i lead to entry min(i + n, last) |
| VideoCardState.ImageErrorAdvancesOne | src/components/ui/video-card.tsx:105-111 | on the card's list, an error on candidate i < 3 moves to candidate i + 1, never an earlier or skipped one; at the placeholder it stays |
| VideoCardState.ImageErrorFromElsewhere | src/components/ui/video-card.tsx:106-110 | an address that is not a candidate moves to candidate 0; with no candidates nothing changes |
| VideoCardState.ErrorsWalkTheList | src/components/ui/video-card.tsx:105-111 | n errors from candidate i lead to candidate min(i + n, 3) |
| VideoCardState.WalkEndsAtLast | src/components/ui/video-card.tsx:105-111 | on a non-empty list without repeats, as many errors as entries lead from any address to the last entry |
| VideoCardState.FourErrorsReachPlaceholder | src/components/ui/video-card.tsx:107-110 | from any address, four or more errors end at the placeholder |
| VideoCardState.InitialThumbnail | src/components/ui/video-card.tsx:56-58 | the `thumbnailUrl` prop when it is not empty; else candidate 0 when there is an id; else the empty string |
| VideoCardState.VideoCard.Candidates | src/components/ui/video-card.tsx:106 | the card's list of candidates when it has a non-empty id, the empty list otherwise |
| VideoCardState.VideoCard.constructor | src/components/ui/video-card.tsx:50-58 | the id comes from the shared rule; the first thumbnail is the initial one; no video shown, not loading, no error, no player |
| VideoCardState.VideoCard.HandleImageError | src/components/ui/video-card.tsx:105-111 | the shown address becomes the next one along the candidate list, as `NextThumbnail` gives it |
| VideoCardState.VideoCard.HandleThumbnailClick | src/components/ui/video-card.tsx:93-103 | without an id nothing changes; otherwise the video is shown with the error cleared; it is loading exactly when no player is stored, and a stored player is asked to play |
| VideoCardState.VideoCard.OnPlayerReady | src/components/ui/video-card.tsx:70-77 | the player is stored, loading stops, and it is asked to play exactly when the video is shown |
| VideoCardState.VideoCard.OnPlayerError | src/components/ui/video-card.tsx:79-84 | the error is set, the video is hidden, and loading stops |
| VideoCardState.VideoCard.OnPlayerStateChange | src/components/ui/video-card.tsx:86-91 | paused or ended hides the video; any other state changes nothing |

## Left out

- **File and JSON I/O.** `fs.readFile`, `fs.writeFile`, `JSON.parse` and `JSON.stringify` are left out. The file is an in-memory `FileState`. A failed write is assumed to leave the file as it was.
- **Writes replace the file at once.** The model changes the file only when a write settles (`CompleteWrite`), so a read that overlaps a running write sees the collection as it was before. In the code, `fs.writeFile` with flag `'w'` first empties the file and then writes it. A read during that time can find an empty or partial file; `JSON.parse` then throws, and `GET` or `POST` answers 500. The model does not produce that 500.
- **Concurrency.** Interleaving between requests is modelled only as far as the queue's bookkeeping and the explicit two-request scenario in `SameIdRace`. Promises and their resolution order are not modelled: a queued write's outcome is given to `CompleteWrite`.
- **Request bodies.** A JSON body that does not parse, and a field that is not a string (where `trim` throws), both answer 500. The model takes the fields as optional strings.
- **URL and number parsing.** The WHATWG URL parser is the `parse` parameter. The defaults of an absent or empty `page` (1) and `limit` (20) are modelled. `parseInt` itself is left out: a given parameter is an integer, and the NaN case (and the truncation of text such as `"2abc"`) that slips past the range test is not modelled.
- **Unicode.** `toLowerCase` is modelled for ASCII letters only. Lengths count Unicode scalar values, not UTF-16 code units, so a title holding characters outside the Basic Multilingual Plane is measured differently.
- **Foreign calls and time.** The creation time `new Date().toISOString()` is a parameter. The player's `playVideo` is a foreign call; the event methods report whether they would make it (`played`).
- **UI plumbing.** Rendering, the iframe API script injection, clipboard copying and structured-data output are left out.
- **React behaviour.** Stale closures over state and re-rendering with new props are left out. Each event method sees the current state.
- **Other routes.** `src/app/api/search/route.ts`, `src/app/api/seed/route.ts` and the Prisma seed are not part of this model.
- **HTTP response bodies.** The error message texts are left out, and so are the HTTP wrappers apart from the status class. `Post` reports `Queued` where the handler answers 200 once its write succeeds.
