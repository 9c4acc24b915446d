/** The client-side state of one video card: the thumbnail fallback chain and
    the playback flags driven by clicks and by the embedded player's events. */
module VideoCardState {
  import opened Wrappers
  import opened YouTubeUrl

  /** The first part of every client thumbnail address. */
  const CandidateBase := "https://i.ytimg.com/vi/"

  /** The image shown once every real thumbnail has failed. */
  const PlaceholderUrl := "https://placehold.co/640x360/eee/999?text=Video+Unavailable"

  /** The three tiers the card tries, from 480x360 down to 120x90. */
  const CandidateTiers := ["hqdefault", "mqdefault", "default"]

  function CandidateUrl(id: string, tier: string): string {
    CandidateBase + id + "/" + tier + ".jpg"
  }

  /** `getYoutubeThumbnail`: the three tiers for the id, then the fixed
      placeholder, which does not depend on the id. */
  function GetYoutubeThumbnail(id: string): (r: seq<string>)
    ensures |r| == 4
    ensures forall k :: 0 <= k < 3 ==> r[k] == CandidateUrl(id, CandidateTiers[k])
    ensures r[3] == PlaceholderUrl
  {
    [CandidateUrl(id, "hqdefault"), CandidateUrl(id, "mqdefault"), CandidateUrl(id, "default"), PlaceholderUrl]
  }

  /** A helper for `CandidatesDistinct`: the placeholder literal has 'p' at
      index 8, the first letter of its host. */
  lemma PlaceholderHost()
    ensures PlaceholderUrl[8] == 'p'
  {
    assert PlaceholderUrl == "https://placehold.co/640x360/eee/999?text=Video+" + "Unavailable";
  }

  /** The four candidates are pairwise different, so each is found at its
      own position. */
  lemma CandidatesDistinct(id: string)
    ensures forall i, j :: 0 <= i < j < 4 ==> GetYoutubeThumbnail(id)[i] != GetYoutubeThumbnail(id)[j]
  {
    var c := GetYoutubeThumbnail(id);
    var n := |CandidateBase| + |id| + 1;
    assert c[0][n] == 'h' && c[1][n] == 'm';
    assert |c[0]| == |c[1]| == |c[2]| + 2;
    PlaceholderHost();
    forall k | 0 <= k < 3 ensures c[k] != c[3] {
      assert c[k][8] == 'i';
    }
  }

  /** `Array.prototype.indexOf`: the first position holding `x`, or -1. */
  function IndexOf(s: seq<string>, x: string): (i: int)
    ensures -1 <= i < |s|
    ensures i >= 0 ==> s[i] == x && x !in s[..i]
    ensures i == -1 <==> x !in s
  {
    if s == [] then -1
    else if s[0] == x then 0
    else
      var j := IndexOf(s[1..], x);
      assert s[1..][..j + 1] == s[..j + 2][1..] by {
        if j >= 0 {
          assert s[1..][..j] == s[1..j + 1];
        }
      }
      if j == -1 then -1 else
        assert s[..j + 1] == [s[0]] + s[1..][..j];
        j + 1
  }

  /** The step `handleImageError` takes: to the candidate after the current
      one (the first candidate when the current address is not a candidate),
      and nowhere once the last candidate has been reached. */
  function NextThumbnail(candidates: seq<string>, current: string): (r: string)
    ensures candidates == [] ==> r == current
    ensures candidates != [] ==> r in candidates
  {
    var next := IndexOf(candidates, current) + 1;
    if next < |candidates| then candidates[next] else current
  }

  /** No address appears twice. */
  ghost predicate Distinct(c: seq<string>) {
    forall i, j :: 0 <= i < j < |c| ==> c[i] != c[j]
  }

  /** On a list without repeats, an error on entry `i` moves to entry
      `i + 1`, and the last entry is a fixed point. */
  lemma StepOnDistinct(c: seq<string>, i: nat)
    requires Distinct(c) && i < |c|
    ensures NextThumbnail(c, c[i]) == c[if i + 1 < |c| then i + 1 else i]
  {
    assert IndexOf(c, c[i]) == i;
  }

  /** On a list without repeats, `n` errors from entry `i` lead to entry
      `min(i + n, |c| - 1)`. */
  lemma {:induction false} WalkOnDistinct(c: seq<string>, i: nat, n: nat)
    requires Distinct(c) && i < |c|
    ensures AfterErrors(c, c[i], n) == c[if i + n < |c| then i + n else |c| - 1]
    decreases n
  {
    if n > 0 {
      var j := if i + 1 < |c| then i + 1 else i;
      StepOnDistinct(c, i);
      assert AfterErrors(c, c[i], n) == AfterErrors(c, c[j], n - 1);
      WalkOnDistinct(c, j, n - 1);
    }
  }

  /** One image error on candidate `i` of an id's list moves to candidate
      `i + 1`, never an earlier or skipped one; at the placeholder it stays. */
  lemma ImageErrorAdvancesOne(id: string, i: nat)
    requires i < 4
    ensures NextThumbnail(GetYoutubeThumbnail(id), GetYoutubeThumbnail(id)[i])
              == GetYoutubeThumbnail(id)[if i < 3 then i + 1 else 3]
  {
    CandidatesDistinct(id);
    StepOnDistinct(GetYoutubeThumbnail(id), i);
  }

  /** An address that is not a candidate (one supplied by the server, say)
      gives way to the first candidate; with no candidates nothing moves. */
  lemma ImageErrorFromElsewhere(candidates: seq<string>, current: string)
    requires current !in candidates
    ensures candidates != [] ==> NextThumbnail(candidates, current) == candidates[0]
    ensures candidates == [] ==> NextThumbnail(candidates, current) == current
  {
  }

  /** The address shown after `n` image errors in a row. */
  function AfterErrors(candidates: seq<string>, current: string, n: nat): string
    decreases n
  {
    if n == 0 then current else AfterErrors(candidates, NextThumbnail(candidates, current), n - 1)
  }

  /** From candidate `i`, `n` errors lead to candidate `min(i + n, 3)`: the
      index only grows, so no failed candidate is asked for again. */
  lemma ErrorsWalkTheList(id: string, i: nat, n: nat)
    requires i < 4
    ensures AfterErrors(GetYoutubeThumbnail(id), GetYoutubeThumbnail(id)[i], n)
              == GetYoutubeThumbnail(id)[if i + n < 3 then i + n else 3]
  {
    CandidatesDistinct(id);
    WalkOnDistinct(GetYoutubeThumbnail(id), i, n);
  }

  /** On a non-empty list without repeats, `|c|` errors from any address
      end at the last entry. */
  lemma WalkEndsAtLast(c: seq<string>, current: string, n: nat)
    requires Distinct(c) && c != [] && n >= |c|
    ensures AfterErrors(c, current, n) == c[|c| - 1]
  {
    if current in c {
      var i :| 0 <= i < |c| && c[i] == current;
      WalkOnDistinct(c, i, n);
    } else {
      assert AfterErrors(c, current, n) == AfterErrors(c, c[0], n - 1);
      WalkOnDistinct(c, 0, n - 1);
    }
  }

  /** Whatever address the card shows, four errors reach the placeholder and
      any further error leaves it there. */
  lemma FourErrorsReachPlaceholder(id: string, current: string, n: nat)
    requires n >= 4
    ensures AfterErrors(GetYoutubeThumbnail(id), current, n) == PlaceholderUrl
  {
    CandidatesDistinct(id);
    WalkEndsAtLast(GetYoutubeThumbnail(id), current, n);
  }

  /** The initial `currentThumbnailUrl`: the server's thumbnail when it is
      not empty, else the first candidate when there is an id, else "". */
  function InitialThumbnail(thumbnailUrl: string, videoId: Option<string>): (r: string)
    ensures thumbnailUrl != [] ==> r == thumbnailUrl
    ensures thumbnailUrl == [] && videoId.Some? && videoId.value != [] ==>
              r == GetYoutubeThumbnail(videoId.value)[0]
    ensures thumbnailUrl == [] && (videoId.None? || videoId.value == []) ==> r == []
  {
    if thumbnailUrl != [] then thumbnailUrl
    else if videoId.Some? && videoId.value != [] then GetYoutubeThumbnail(videoId.value)[0]
    else []
  }

  /** The embedded player object the card keeps once it is ready. */
  datatype Player = Player(handle: nat)

  /** `YT.PlayerState.ENDED` and `YT.PlayerState.PAUSED`. */
  const Ended := 0
  const Paused := 2

  const PlayerErrorMessage := "Failed to load video"

  class VideoCard {
    /** `getVideoId(youtubeUrl)` for this card's props. */
    const videoId: Option<string>
    /** The `thumbnailUrl` prop. */
    const thumbnailUrl: string
    var currentThumbnailUrl: string
    var showVideo: bool
    var isLoading: bool
    var error: Option<string>
    var player: Option<Player>

    /** The card has an id to play (`null` and "" both count as none). */
    predicate HasVideoId() {
      videoId.Some? && videoId.value != []
    }

    /** The fallback list `handleImageError` walks. */
    function Candidates(): (r: seq<string>)
      ensures HasVideoId() ==> r == GetYoutubeThumbnail(videoId.value)
      ensures !HasVideoId() ==> r == []
    {
      if HasVideoId() then GetYoutubeThumbnail(videoId.value) else []
    }

    /** The shown address is the server's or one of the candidates, and an
        error message never stands beside a visible player. */
    ghost predicate Valid()
      reads this
    {
      && (currentThumbnailUrl == thumbnailUrl || currentThumbnailUrl in Candidates())
      && (error.Some? ==> !showVideo)
    }

    /** The first render: thumbnail shown, nothing loading, no error, no player. */
    constructor (thumbnailUrl: string, youtubeUrl: Option<ParsedUrl>)
      ensures Valid()
      ensures this.thumbnailUrl == thumbnailUrl && videoId == GetVideoId(youtubeUrl)
      ensures currentThumbnailUrl == InitialThumbnail(thumbnailUrl, videoId)
      ensures !showVideo && !isLoading && error.None? && player.None?
    {
      this.thumbnailUrl := thumbnailUrl;
      videoId := GetVideoId(youtubeUrl);
      currentThumbnailUrl := InitialThumbnail(thumbnailUrl, GetVideoId(youtubeUrl));
      showVideo := false;
      isLoading := false;
      error := None;
      player := None;
    }

    /** `handleImageError`: one step along the fallback list. */
    method HandleImageError()
      requires Valid()
      modifies this`currentThumbnailUrl
      ensures Valid()
      ensures currentThumbnailUrl == NextThumbnail(Candidates(), old(currentThumbnailUrl))
    {
      var thumbnails := Candidates();
      var nextIndex := IndexOf(thumbnails, currentThumbnailUrl) + 1;
      if nextIndex < |thumbnails| {
        currentThumbnailUrl := thumbnails[nextIndex];
      }
    }

    /** `handleThumbnailClick`: without an id nothing happens; otherwise the
        player is shown with the error cleared, and it is still loading
        unless a player is already stored, which is then asked to play. */
    method HandleThumbnailClick() returns (played: bool)
      requires Valid()
      modifies this`isLoading, this`showVideo, this`error
      ensures Valid()
      ensures !HasVideoId() ==> !played && unchanged(this)
      ensures HasVideoId() ==>
                && showVideo && error.None?
                && isLoading == player.None?
                && played == player.Some?
    {
      played := false;
      if !HasVideoId() {
        return;
      }
      isLoading := true;
      showVideo := true;
      error := None;
      if player.Some? {
        played := true;
        isLoading := false;
      }
    }

    /** `onPlayerReady`: keeps the player, stops loading, and asks it to play
        when the player is being shown. */
    method OnPlayerReady(p: Player) returns (played: bool)
      requires Valid()
      modifies this`player, this`isLoading
      ensures Valid()
      ensures player == Some(p) && !isLoading
      ensures played == showVideo
    {
      player := Some(p);
      isLoading := false;
      played := showVideo;
    }

    /** `onPlayerError`: back to the thumbnail, not loading, with a message. */
    method OnPlayerError()
      requires Valid()
      modifies this`error, this`showVideo, this`isLoading
      ensures Valid()
      ensures error == Some(PlayerErrorMessage) && !showVideo && !isLoading
    {
      error := Some(PlayerErrorMessage);
      showVideo := false;
      isLoading := false;
    }

    /** `onPlayerStateChange`: pausing or ending hides the player; any other
        state changes nothing. */
    method OnPlayerStateChange(state: int)
      requires Valid()
      modifies this`showVideo
      ensures Valid()
      ensures state == Paused || state == Ended ==> !showVideo
      ensures state != Paused && state != Ended ==> showVideo == old(showVideo)
    {
      if state == Paused || state == Ended {
        showVideo := false;
      }
    }
  }
}
