/** The pure part of the listing handler: the case-insensitive search filter,
    `Array.prototype.slice` and the page arithmetic. */
module VideoListing {
  import opened Wrappers
  import opened Strings
  import opened VideoRecords

  const MaxLimit := 100

  /** The pagination check of `GET`. */
  predicate ValidPagination(page: int, limit: int) {
    page >= 1 && 1 <= limit <= MaxLimit
  }

  /** The page and page size used when the parameter is absent or empty. */
  const DefaultPage := 1
  const DefaultLimit := 20

  /** `parseInt(searchParams.get('page') || '1')` for a parameter that is
      absent or empty (`None`) or holds an integer. */
  function PageParam(param: Option<int>): (page: int)
    ensures param.None? ==> page == DefaultPage
    ensures param.Some? ==> page == param.value
  {
    if param.Some? then param.value else DefaultPage
  }

  /** `parseInt(searchParams.get('limit') || '20')`, likewise. */
  function LimitParam(param: Option<int>): (limit: int)
    ensures param.None? ==> limit == DefaultLimit
    ensures param.Some? ==> limit == param.value
  {
    if param.Some? then param.value else DefaultLimit
  }

  /** A listing request without parameters is valid and gets the first 20
      records of the filtered list, as the sitemap's request does. */
  lemma DefaultListingIsFirstTwenty<T>(s: seq<T>)
    ensures ValidPagination(PageParam(None), LimitParam(None))
    ensures PageOf(s, PageParam(None), LimitParam(None)) == s[..Min(20, |s|)]
  {
    assert PageStart(1, 20) == 0;
  }

  /** A record matches a lower-cased query when its lower-cased title or
      lower-cased prompt contains it. */
  predicate Matches(v: Video, query: string) {
    Contains(ToLower(v.title), query) || Contains(ToLower(v.prompt), query)
  }

  /** `a` is `b` with some elements left out, the rest in their order. */
  ghost predicate IsSubsequence<T>(a: seq<T>, b: seq<T>)
    decreases |b|
  {
    a == [] || (b != [] && ((a[0] == b[0] && IsSubsequence(a[1..], b[1..])) || IsSubsequence(a, b[1..])))
  }

  /** `videos.filter(...)`: keeps exactly the matching records, in their
      original order (see `FilterKeepsMultiplicity` for how often). */
  function Filter(videos: seq<Video>, query: string): (r: seq<Video>)
    ensures |r| <= |videos|
    ensures forall v :: v in r <==> v in videos && Matches(v, query)
    ensures IsSubsequence(r, videos)
  {
    if videos == [] then []
    else
      var rest := Filter(videos[1..], query);
      assert videos == [videos[0]] + videos[1..];
      if Matches(videos[0], query) then
        assert ([videos[0]] + rest)[1..] == rest;
        [videos[0]] + rest
      else rest
  }

  /** The filter keeps each matching record as many times as it occurs and
      drops every other. */
  lemma {:induction false} FilterKeepsMultiplicity(videos: seq<Video>, query: string)
    ensures forall v :: multiset(Filter(videos, query))[v] == if Matches(v, query) then multiset(videos)[v] else 0
  {
    if videos != [] {
      FilterKeepsMultiplicity(videos[1..], query);
      assert videos == [videos[0]] + videos[1..];
    }
  }

  /** The empty string occurs in every string, so an empty query matches
      everything. */
  lemma EmptyQueryMatches(v: Video)
    ensures Matches(v, [])
  {
    assert OccursAt(ToLower(v.title), [], 0);
  }

  /** The search step of `GET`: the `q` parameter is lower-cased and, when
      it is present and not empty, filters the collection; otherwise the
      collection is returned whole. */
  function Search(videos: seq<Video>, q: Option<string>): (r: seq<Video>)
    ensures q.None? || q.value == [] ==> r == videos
    ensures q.Some? ==> forall v :: v in r <==> v in videos && Matches(v, ToLower(q.value))
    ensures IsSubsequence(r, videos)
  {
    if q.Some? && ToLower(q.value) != [] then Filter(videos, ToLower(q.value))
    else
      assert IsSubsequence(videos, videos) by { SubsequenceReflexive(videos); }
      assert forall v :: v in videos ==> Matches(v, []) by {
        forall v | v in videos ensures Matches(v, []) { EmptyQueryMatches(v); }
      }
      videos
  }

  /** With a query present, the search keeps each record matching the
      lower-cased query as many times as it occurs and drops every other;
      an empty query matches, and keeps, everything. */
  lemma SearchKeepsMultiplicity(videos: seq<Video>, q: string)
    ensures forall v :: multiset(Search(videos, Some(q)))[v]
              == if Matches(v, ToLower(q)) then multiset(videos)[v] else 0
  {
    if ToLower(q) != [] {
      FilterKeepsMultiplicity(videos, ToLower(q));
    } else {
      forall v ensures Matches(v, []) { EmptyQueryMatches(v); }
    }
  }

  lemma {:induction false} SubsequenceReflexive<T>(s: seq<T>)
    ensures IsSubsequence(s, s)
    decreases |s|
  {
    if s != [] { SubsequenceReflexive(s[1..]); }
  }

  function Min(a: int, b: int): int {
    if a <= b then a else b
  }

  /** `Array.prototype.slice(start, end)` for non-negative bounds: both are
      clamped to the length. */
  function Slice<T>(s: seq<T>, start: nat, end: nat): (r: seq<T>)
    requires start <= end
    ensures |r| == Min(end, |s|) - Min(start, |s|)
    ensures forall i :: 0 <= i < |r| ==> r[i] == s[start + i]
  {
    s[Min(start, |s|)..Min(end, |s|)]
  }

  /** Where page `page` begins: `(page - 1) * limit` (see
      `PageStartIsProduct`), defined by counting whole pages so that proofs
      about consecutive pages stay linear. */
  function PageStart(page: int, limit: int): nat
    requires page >= 1 && limit >= 1
    decreases page
  {
    if page == 1 then 0 else PageStart(page - 1, limit) + limit
  }

  lemma {:induction false} PageStartIsProduct(page: int, limit: int)
    requires page >= 1 && limit >= 1
    ensures PageStart(page, limit) == (page - 1) * limit
    decreases page
  {
    if page > 1 {
      PageStartIsProduct(page - 1, limit);
      assert (page - 2) * limit + limit == (page - 1) * limit;
    }
  }

  /** A later page never begins before an earlier one. */
  lemma {:induction false} PageStartGrows(p: int, q: int, limit: int)
    requires 1 <= p <= q && limit >= 1
    ensures PageStart(p, limit) <= PageStart(q, limit)
    decreases q - p
  {
    if p < q {
      PageStartGrows(p, q - 1, limit);
    }
  }

  /** The records of page `page`: at most `limit` of them, taken in order
      from position `(page - 1) * limit`, and none once that position is
      past the end. */
  function PageOf<T>(s: seq<T>, page: int, limit: int): (r: seq<T>)
    requires page >= 1 && limit >= 1
    ensures |r| <= limit
    ensures PageStart(page, limit) >= |s| ==> r == []
    ensures PageStart(page, limit) < |s| ==> |r| == Min(limit, |s| - PageStart(page, limit))
    ensures forall i :: 0 <= i < |r| ==> r[i] == s[PageStart(page, limit) + i]
  {
    var start := PageStart(page, limit);
    Slice(s, start, start + limit)
  }

  /** `Math.ceil(total / limit)`: the least number of pages of `limit`
      records that hold `total` records. */
  function TotalPages(total: nat, limit: int): (n: nat)
    requires limit >= 1
    ensures total <= n * limit
    ensures n == 0 || (n - 1) * limit < total
  {
    (total + limit - 1) / limit
  }

  /** Pages `1..n` one after another. */
  function Pages<T>(s: seq<T>, limit: int, n: nat): seq<T>
    requires limit >= 1
  {
    if n == 0 then [] else Pages(s, limit, n - 1) + PageOf(s, n, limit)
  }

  lemma SlicesJoin<T>(s: seq<T>, lo: nat, hi: nat)
    requires lo <= hi <= |s|
    ensures s[..lo] + s[lo..hi] == s[..hi]
  {
  }

  /** The first `n` pages are the records before page `n + 1` begins. */
  lemma {:induction false} PagesArePrefix<T>(s: seq<T>, limit: int, n: nat)
    requires limit >= 1
    ensures Pages(s, limit, n) == s[..Min(PageStart(n + 1, limit), |s|)]
  {
    if n > 0 {
      PagesArePrefix(s, limit, n - 1);
      var start := PageStart(n, limit);
      assert PageStart(n + 1, limit) == start + limit;
      var lo, hi := Min(start, |s|), Min(start + limit, |s|);
      assert lo <= hi;
      calc {
        Pages(s, limit, n);
        Pages(s, limit, n - 1) + PageOf(s, n, limit);
        s[..lo] + Slice(s, start, start + limit);
        s[..lo] + s[lo..hi];
        { SlicesJoin(s, lo, hi); }
        s[..hi];
      }
    }
  }

  /** Pages `1..totalPages` together reproduce the whole filtered list, each
      record once and in order. */
  lemma PagesCoverAll<T>(s: seq<T>, limit: int)
    requires limit >= 1
    ensures Pages(s, limit, TotalPages(|s|, limit)) == s
  {
    var n := TotalPages(|s|, limit);
    PagesArePrefix(s, limit, n);
    PageStartIsProduct(n + 1, limit);
  }

  /** Every page after the last one is empty. */
  lemma PagesAfterLastAreEmpty<T>(s: seq<T>, page: int, limit: int)
    requires limit >= 1 && page > TotalPages(|s|, limit)
    ensures PageOf(s, page, limit) == []
  {
    var n := TotalPages(|s|, limit);
    PageStartGrows(n + 1, page, limit);
    PageStartIsProduct(n + 1, limit);
  }

  /** The record a successful creation prepends comes first on page 1 of the
      unfiltered listing, whatever the page size. */
  lemma CreatedVideoLeadsFirstPage(videos: seq<Video>, d: Draft, createdAt: string, limit: int)
    requires Admit(videos, d, createdAt).Success?
    requires 1 <= limit
    ensures PageOf(Search([Admit(videos, d, createdAt).value] + videos, None), 1, limit)[0]
              == NewVideo(d, createdAt)
  {
  }
}
