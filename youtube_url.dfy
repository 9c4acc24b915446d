/** The rule that turns a YouTube link into a video id. The server's creation
    handler and the client's video card apply the same rule to a URL that the
    WHATWG `URL` parser has already taken apart. */
module YouTubeUrl {
  import opened Wrappers
  import opened Strings

  /** The parts of a parsed URL the rule reads: the host name, the path and
      the query's name/value pairs in the order they appear. */
  datatype ParsedUrl = ParsedUrl(hostname: string, pathname: string, searchParams: seq<(string, string)>)

  /** Hosts whose name merely has to contain this text are watch links. */
  const WatchHost := "youtube.com"
  /** The one host that is a short link. */
  const ShortHost := "youtu.be"

  /** Index `i` holds the first pair named `name`. */
  ghost predicate FirstNamed(params: seq<(string, string)>, name: string, i: int) {
    0 <= i < |params| && params[i].0 == name
    && forall j :: 0 <= j < i ==> params[j].0 != name
  }

  /** `URLSearchParams.get`: the value of the first pair named `name`, or
      `null` when there is none. */
  function SearchParam(params: seq<(string, string)>, name: string): (r: Option<string>)
    ensures r.None? <==> forall i :: 0 <= i < |params| ==> params[i].0 != name
    ensures r.Some? ==> exists i :: FirstNamed(params, name, i) && params[i].1 == r.value
  {
    if params == [] then None
    else if params[0].0 == name then
      assert FirstNamed(params, name, 0);
      Some(params[0].1)
    else
      var r := SearchParam(params[1..], name);
      assert forall i :: FirstNamed(params[1..], name, i) ==> FirstNamed(params, name, i + 1);
      r
  }

  /** `String.prototype.slice(1)`: everything after the first character. */
  function DropFirst(s: string): (r: string)
    ensures s != [] ==> [s[0]] + r == s
    ensures s == [] ==> r == []
  {
    if s == [] then [] else s[1..]
  }

  /** `getVideoId`: a host containing "youtube.com" gives the `v` parameter
      (or nothing); the host "youtu.be" gives the path without its first
      character; any other host, and a URL that did not parse, give
      nothing. The id may be empty; callers treat "" like `null`. */
  function GetVideoId(url: Option<ParsedUrl>): (r: Option<string>)
    ensures r.Some? ==> url.Some? && (Contains(url.value.hostname, WatchHost) || url.value.hostname == ShortHost)
    ensures url.Some? && Contains(url.value.hostname, WatchHost) ==>
              r == SearchParam(url.value.searchParams, "v")
    ensures url.Some? && url.value.hostname == ShortHost ==> r == Some(DropFirst(url.value.pathname))
  {
    match url
    case None => None
    case Some(u) =>
      if Contains(u.hostname, WatchHost) then SearchParam(u.searchParams, "v")
      else if u.hostname == ShortHost then Some(DropFirst(u.pathname))
      else None
  }

  /** The canonical links built from an id give that id back:
      `https://www.youtube.com/watch?v=<id>` and `https://youtu.be/<id>`. */
  lemma {:induction false} CanonicalLinksRoundTrip(id: string)
    ensures GetVideoId(Some(ParsedUrl("www.youtube.com", "/watch", [("v", id)]))) == Some(id)
    ensures GetVideoId(Some(ParsedUrl("m.youtube.com", "/watch", [("feature", "share"), ("v", id)]))) == Some(id)
    ensures GetVideoId(Some(ParsedUrl(ShortHost, "/" + id, []))) == Some(id)
  {
    assert OccursAt("www.youtube.com", WatchHost, 4);
    assert OccursAt("m.youtube.com", WatchHost, 2);
    assert !Contains(ShortHost, WatchHost);
    assert ("/" + id)[1..] == id;
  }

  /** The host test is a substring test, so a look-alike host that merely
      contains "youtube.com" is treated as a watch link, while a subdomain of
      the short host is not recognised at all. */
  lemma HostRuleEdges(id: string)
    ensures GetVideoId(Some(ParsedUrl("youtube.com.example.net", "/watch", [("v", id)]))) == Some(id)
    ensures GetVideoId(Some(ParsedUrl("www.youtu.be", "/" + id, []))) == None
    ensures GetVideoId(Some(ParsedUrl("www.youtube.com", "/watch", []))) == None
    ensures GetVideoId(None) == None
  {
    assert OccursAt("youtube.com.example.net", WatchHost, 0);
    assert !OccursAt("www.youtu.be", WatchHost, 0) by {
      assert "www.youtu.be"[0..|WatchHost|][0] != WatchHost[0];
    }
    assert !OccursAt("www.youtu.be", WatchHost, 1) by {
      assert "www.youtu.be"[1..1 + |WatchHost|][0] != WatchHost[0];
    }
  }
}
