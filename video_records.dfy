/** The video record of the catalogue API and the pure part of its creation
    handler: field validation, id extraction, the duplicate and capacity
    checks and the construction of the new record. */
module VideoRecords {
  import opened Wrappers
  import opened Strings
  import opened YouTubeUrl

  /** One catalogue entry as it is stored and returned. */
  datatype Video = Video(
    id: string,
    title: string,
    prompt: string,
    youtubeUrl: string,
    thumbnailUrl: string,
    thumbnailUrls: seq<string>,
    createdAt: string)

  const MaxVideos := 1000
  const MaxTitleLength := 100
  const MaxPromptLength := 1000

  /** The JSON body of a creation request; an absent or `null` field is `None`. */
  datatype CreateRequest = CreateRequest(title: Option<string>, prompt: Option<string>, youtubeUrl: Option<string>)

  /** The reasons a creation request is turned down before anything is written. */
  datatype CreateError =
    | MissingField
    | TitleTooLong
    | PromptTooLong
    | InvalidYouTubeUrl
    | AlreadyExists
    | LimitReached

  /** The HTTP status each refusal is answered with. */
  function StatusOf(e: CreateError): (code: int)
    ensures code == 409 <==> e == AlreadyExists
    ensures code != 409 ==> code == 400
  {
    if e == AlreadyExists then 409 else 400
  }

  /** The first part of every server thumbnail address. */
  const ThumbnailBase := "https://img.youtube.com/vi/"

  /** The five resolution tiers, from 120x90 up to 1920x1080. */
  const ThumbnailTiers := ["default", "mqdefault", "hqdefault", "sddefault", "maxresdefault"]

  function ThumbnailUrl(id: string, tier: string): string {
    ThumbnailBase + id + "/" + tier + ".jpg"
  }

  /** `getYouTubeThumbnailUrl`: one address per tier, in ascending
      resolution, each depending on the id alone. */
  function ThumbnailUrls(id: string): (r: seq<string>)
    ensures |r| == |ThumbnailTiers| == 5
    ensures forall k :: 0 <= k < 5 ==> r[k] == ThumbnailUrl(id, ThumbnailTiers[k])
  {
    seq(5, k requires 0 <= k < 5 => ThumbnailUrl(id, ThumbnailTiers[k]))
  }

  /** The id can be read back from any thumbnail address, so two different
      ids never share an address of the same tier. */
  lemma ThumbnailUrlDeterminesId(a: string, b: string, tier: string)
    requires ThumbnailUrl(a, tier) == ThumbnailUrl(b, tier)
    ensures a == b
  {
    var n := |ThumbnailBase|;
    var ua, ub := ThumbnailUrl(a, tier), ThumbnailUrl(b, tier);
    assert |a| == |b|;
    assert ua[n..n + |a|] == a;
    assert ub[n..n + |b|] == b;
  }

  /** A field the handler treats as missing: absent, or blank once trimmed. */
  predicate Blank(field: Option<string>) {
    field.None? || Trim(field.value) == []
  }

  /** The server's id rule: `getVideoId`'s rule, with an empty id refused
      like a missing one. */
  function ExtractVideoId(url: Option<ParsedUrl>): (r: Option<string>)
    ensures r.Some? <==> GetVideoId(url).Some? && GetVideoId(url).value != []
    ensures r.Some? ==> r == GetVideoId(url)
  {
    match GetVideoId(url)
    case Some(id) => if id == [] then None else Some(id)
    case None => None
  }

  /** A request that passed validation: the extracted id, the trimmed title
      and prompt, and the link exactly as it was sent. */
  datatype Draft = Draft(id: string, title: string, prompt: string, youtubeUrl: string)

  /** The URL check of the handler, given the foreign URL parser. */
  predicate HasValidUrl(req: CreateRequest, parse: string -> Option<ParsedUrl>)
    requires req.youtubeUrl.Some?
  {
    ExtractVideoId(parse(req.youtubeUrl.value)).Some?
  }

  /** The validation steps of `POST`, in the handler's order: blank fields,
      then the title's length, then the prompt's length (both measured
      before trimming), then the link. Each refusal holds exactly when the
      earlier checks passed and its own check fails. */
  function Validate(req: CreateRequest, parse: string -> Option<ParsedUrl>): (r: Result<Draft, CreateError>)
    ensures r == Failure(MissingField) <==> Blank(req.title) || Blank(req.prompt) || Blank(req.youtubeUrl)
    ensures r == Failure(TitleTooLong) <==>
              !Blank(req.title) && !Blank(req.prompt) && !Blank(req.youtubeUrl)
              && |req.title.value| > MaxTitleLength
    ensures r == Failure(PromptTooLong) <==>
              !Blank(req.title) && !Blank(req.prompt) && !Blank(req.youtubeUrl)
              && |req.title.value| <= MaxTitleLength && |req.prompt.value| > MaxPromptLength
    ensures r == Failure(InvalidYouTubeUrl) <==>
              !Blank(req.title) && !Blank(req.prompt) && !Blank(req.youtubeUrl)
              && |req.title.value| <= MaxTitleLength && |req.prompt.value| <= MaxPromptLength
              && !HasValidUrl(req, parse)
    ensures r.Failure? ==> r.error in {MissingField, TitleTooLong, PromptTooLong, InvalidYouTubeUrl}
    ensures r.Success? ==>
              && r.value.id == ExtractVideoId(parse(req.youtubeUrl.value)).value
              && r.value.id != []
              && r.value.title == Trim(req.title.value) && r.value.title != []
              && r.value.prompt == Trim(req.prompt.value) && r.value.prompt != []
              && r.value.youtubeUrl == req.youtubeUrl.value
  {
    if Blank(req.title) || Blank(req.prompt) || Blank(req.youtubeUrl) then Failure(MissingField)
    else if |req.title.value| > MaxTitleLength then Failure(TitleTooLong)
    else if |req.prompt.value| > MaxPromptLength then Failure(PromptTooLong)
    else
      match ExtractVideoId(parse(req.youtubeUrl.value))
      case None => Failure(InvalidYouTubeUrl)
      case Some(id) => Success(Draft(id, Trim(req.title.value), Trim(req.prompt.value), req.youtubeUrl.value))
  }

  /** `data.videos.some(v => v.id === videoId)`. */
  predicate HasId(videos: seq<Video>, id: string) {
    exists i :: 0 <= i < |videos| && videos[i].id == id
  }

  /** No two records share an id. */
  ghost predicate UniqueIds(videos: seq<Video>) {
    forall i, j :: 0 <= i < j < |videos| ==> videos[i].id != videos[j].id
  }

  /** What the creation checks keep true of the stored collection. */
  ghost predicate CatalogueInvariant(videos: seq<Video>) {
    UniqueIds(videos) && |videos| <= MaxVideos
  }

  /** The record built for a validated request: its thumbnails come from the
      id alone and the canonical one is the hqdefault tier. */
  function NewVideo(d: Draft, createdAt: string): (v: Video)
    ensures v.id == d.id && v.title == d.title && v.prompt == d.prompt
    ensures v.youtubeUrl == d.youtubeUrl && v.createdAt == createdAt
    ensures v.thumbnailUrls == ThumbnailUrls(d.id)
    ensures v.thumbnailUrl == v.thumbnailUrls[2] == ThumbnailUrl(d.id, "hqdefault")
  {
    var urls := ThumbnailUrls(d.id);
    Video(d.id, d.title, d.prompt, d.youtubeUrl, urls[2], urls, createdAt)
  }

  /** The business checks of `POST` against the collection just read: a
      duplicate id is refused (409) before the size bound is looked at, a
      full collection is refused (400), and otherwise the new record is the
      one built from the draft. */
  function Admit(videos: seq<Video>, d: Draft, createdAt: string): (r: Result<Video, CreateError>)
    ensures r == Failure(AlreadyExists) <==> HasId(videos, d.id)
    ensures r == Failure(LimitReached) <==> !HasId(videos, d.id) && |videos| >= MaxVideos
    ensures r.Success? <==> !HasId(videos, d.id) && |videos| < MaxVideos
    ensures r.Success? ==> r.value == NewVideo(d, createdAt)
  {
    if HasId(videos, d.id) then Failure(AlreadyExists)
    else if |videos| >= MaxVideos then Failure(LimitReached)
    else Success(NewVideo(d, createdAt))
  }

  /** A successful creation prepends a record whose id is new and stays
      within the bound, so prepending it keeps the catalogue invariant; the
      bound holds afterwards even if it did not before. */
  lemma AdmitKeepsInvariant(videos: seq<Video>, d: Draft, createdAt: string)
    requires UniqueIds(videos)
    requires Admit(videos, d, createdAt).Success?
    ensures CatalogueInvariant([Admit(videos, d, createdAt).value] + videos)
    ensures |[Admit(videos, d, createdAt).value] + videos| == |videos| + 1
  {
    var v := Admit(videos, d, createdAt).value;
    var s := [v] + videos;
    forall i, j | 0 <= i < j < |s| ensures s[i].id != s[j].id {
      if i == 0 {
        assert s[j] == videos[j - 1];
      } else {
        assert s[i] == videos[i - 1] && s[j] == videos[j - 1];
      }
    }
  }

  /** Once a record is in, any later request for the same id is refused as
      a duplicate, whatever its other fields say. */
  lemma SameIdRefusedAfterCreate(videos: seq<Video>, d: Draft, e: Draft, t1: string, t2: string)
    requires Admit(videos, d, t1).Success?
    requires e.id == d.id
    ensures Admit([Admit(videos, d, t1).value] + videos, e, t2) == Failure(AlreadyExists)
  {
    var s := [Admit(videos, d, t1).value] + videos;
    assert s[0].id == e.id;
  }
}
