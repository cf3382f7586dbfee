/**
  The reference resolver: deciding whether an action reference
  `owner/repo[/path]@ref` should be bumped to a newer major tag.

  The HTTP round trip to the upstream "latest release" endpoint and the
  semantic-version parser are foreign to the tool, so they enter as oracles:
  `fetch` maps a URL to the reply (or to a failed request), and `parseMajor`
  maps a tag to its major version number (or to a parse failure).
*/
module Resolver {
  import opened Wrappers
  import opened Errors
  import Text
  import Decimal

  /** The outcome of a GET with redirects disabled: no reply at all, or a status and a Location header ("" when absent). */
  datatype Response = NoResponse | Reply(status: int, location: string)

  /** http.StatusFound */
  const StatusFound: int := 302

  /** A release redirect URL splits on '/' into at least this many parts. */
  const MinLocationParts: nat := 7

  /** The upstream endpoint that redirects to the latest release of owner/repo. */
  function ReleaseUrl(owner: string, repo: string): (url: string)
    ensures Text.HasPrefix(url, "https://github.com/") && Text.HasSuffix(url, "/releases/latest")
    ensures |url| == |"https://github.com/"| + |owner| + 1 + |repo| + |"/releases/latest"|
    ensures url[|"https://github.com/"|..|url| - |"/releases/latest"|] == owner + "/" + repo
  {
    "https://github.com/" + owner + "/" + repo + "/releases/latest"
  }

  /**
    The tail of getLatestVersion: from the reply's status and Location header
    to the latest tag. It succeeds exactly for a 302 whose Location has at
    least six '/', and the tag is then the text after the last '/'.
  */
  function LatestFromRedirect(status: int, location: string): (r: Result<string, Error>)
    ensures status != StatusFound ==> r == Err(UnexpectedStatus(status))
    ensures status == StatusFound && location == "" ==> r == Err(NoLocation)
    ensures status == StatusFound && location != "" && Text.CountChar(location, '/') < MinLocationParts - 1
      ==> r == Err(InvalidLocation(location))
    ensures r.Ok? <==> status == StatusFound && location != "" && Text.CountChar(location, '/') >= MinLocationParts - 1
    ensures r.Ok? ==> '/' !in r.value && Text.HasSuffix(location, "/" + r.value)
  {
    if status != StatusFound then Err(UnexpectedStatus(status))
    else if location == "" then Err(NoLocation)
    else
      var parts := Text.Split(location, "/");
      SplitLocation(location);
      if |parts| < MinLocationParts then Err(InvalidLocation(location))
      else
        var tag := parts[|parts| - 1];
        assert '/' !in tag && Text.HasSuffix(location, "/" + tag);
        Ok(tag)
  }

  /** What splitting a Location header at '/' yields: one part per '/' plus one, the last one free of '/'. */
  lemma SplitLocation(location: string)
    ensures var parts := Text.Split(location, "/");
      && |parts| == Text.CountChar(location, '/') + 1
      && (|parts| >= 2 ==> '/' !in parts[|parts| - 1] && Text.HasSuffix(location, "/" + parts[|parts| - 1]))
  {
    Text.SplitCharCount(location, '/');
    if |Text.Split(location, "/")| >= 2 {
      Text.LastPiece(location, '/');
    }
  }

  /** getLatestVersion for a request to `url`: a failed request is an error, a reply is read as above. */
  function LatestAt(fetch: string -> Response, url: string): (r: Result<string, Error>)
    ensures fetch(url).NoResponse? ==> r == Err(RequestFailed(url))
    ensures r.Ok? ==> fetch(url).Reply? && '/' !in r.value && Text.HasSuffix(fetch(url).location, "/" + r.value)
  {
    match fetch(url)
    case NoResponse => Err(RequestFailed(url))
    case Reply(status, location) => LatestFromRedirect(status, location)
  }

  /** The tag `fmt.Sprintf("v%d", n)` writes: 'v' and the decimal digits of `n`, never empty. */
  function MajorTag(n: nat): (tag: string)
    ensures |tag| >= 2 && tag[0] == 'v'
    ensures Decimal.AllDigits(tag[1..]) && Decimal.Value(tag[1..]) == n
  {
    Decimal.ValueOfFormat(n);
    var tag := "v" + Decimal.Format(n);
    assert tag[1..] == Decimal.Format(n);
    tag
  }

  /**
    The comparison at the end of suggestMajorUpgrade. A lookup error wins,
    then a parse error on the current tag, then one on the latest tag. With
    both majors known, the answer is the latest major's tag when it is
    strictly greater, and "" (no suggestion) otherwise.
  */
  function CompareWithLatest(latest: Result<string, Error>, current: string, parseMajor: string -> Option<nat>): (r: Result<string, Error>)
    ensures latest.Err? ==> r == Err(latest.error)
    ensures latest.Ok? && parseMajor(current).None? ==> r == Err(InvalidVersion(current))
    ensures latest.Ok? && parseMajor(current).Some? && parseMajor(latest.value).None?
      ==> r == Err(InvalidVersion(latest.value))
    ensures r.Ok? <==> latest.Ok? && parseMajor(current).Some? && parseMajor(latest.value).Some?
    ensures r.Ok? ==> (r.value != "" <==> parseMajor(latest.value).value > parseMajor(current).value)
    ensures r.Ok? && r.value != "" ==> r.value == MajorTag(parseMajor(latest.value).value)
  {
    if latest.Err? then Err(latest.error)
    else
      match parseMajor(current)
      case None => Err(InvalidVersion(current))
      case Some(oldMajor) =>
        match parseMajor(latest.value)
        case None => Err(InvalidVersion(latest.value))
        case Some(newMajor) =>
          if newMajor > oldMajor then Ok(MajorTag(newMajor)) else Ok("")
  }

  /**
    suggestMajorUpgrade: "" when the reference is not a candidate or is up to
    date, otherwise the new major tag. Any suggestion is a well-formed major tag.
  */
  function SuggestMajorUpgrade(uses: string, fetch: string -> Response, parseMajor: string -> Option<nat>): (r: Result<string, Error>)
    ensures r.Ok? && r.value != "" ==>
      |r.value| >= 2 && r.value[0] == 'v' && Decimal.AllDigits(r.value[1..])
      && r.value == MajorTag(Decimal.Value(r.value[1..]))
  {
    var atRef := Text.Cut(uses, "@");
    if !atRef.found || atRef.after == "master" then Ok("")
    else
      var ownerRepo := Text.Cut(atRef.before, "/");
      if !ownerRepo.found then Ok("")
      else if !Text.HasPrefix(atRef.after, "v") then Ok("")
      else CompareWithLatest(LatestAt(fetch, ReleaseUrl(ownerRepo.before, ownerRepo.after)), atRef.after, parseMajor)
  }

  /** A reference without '@' is never looked up and never bumped. */
  lemma SkipsWithoutAt(uses: string, fetch: string -> Response, parseMajor: string -> Option<nat>)
    requires '@' !in uses
    ensures SuggestMajorUpgrade(uses, fetch, parseMajor) == Ok("")
  {
    Text.CutMissing(uses, '@');
  }

  /**
    A reference whose ref (after the first '@') is "master" or does not
    start with 'v', or whose path (before it) has no '/', is never looked up
    and never bumped, whatever the oracles answer.
  */
  lemma SkipsIneligible(path: string, ref: string, fetch: string -> Response, parseMajor: string -> Option<nat>)
    requires '@' !in path
    requires ref == "master" || '/' !in path || !Text.HasPrefix(ref, "v")
    ensures SuggestMajorUpgrade(path + "@" + ref, fetch, parseMajor) == Ok("")
  {
    Text.CutAtFirst(path, '@', ref);
    if '/' !in path {
      Text.CutMissing(path, '/');
    }
  }

  /**
    For a candidate reference, the lookup goes to the release endpoint of the
    whole path before the first '@' (owner, then everything after the first
    '/'), and the answer is the comparison of that release with the ref.
  */
  lemma LooksUpReferencePath(path: string, ref: string, fetch: string -> Response, parseMajor: string -> Option<nat>)
    requires '@' !in path && '/' in path
    requires Text.HasPrefix(ref, "v")
    ensures SuggestMajorUpgrade(path + "@" + ref, fetch, parseMajor)
      == CompareWithLatest(LatestAt(fetch, "https://github.com/" + path + "/releases/latest"), ref, parseMajor)
  {
    Text.CutAtFirst(path, '@', ref);
    assert ref[0] == 'v';
    Text.IndexCharNone(path, '/');
    var ownerRepo := Text.Cut(path, "/");
    assert ownerRepo.found;
    UrlOfPath(path, ownerRepo.before, ownerRepo.after);
  }

  lemma UrlOfPath(path: string, owner: string, repo: string)
    requires path == owner + "/" + repo
    ensures ReleaseUrl(owner, repo) == "https://github.com/" + path + "/releases/latest"
  {
  }

  /**
    Bumping settles: when a reference gets a suggestion, the same path pinned
    to the suggested tag gets none (as long as upstream is unchanged and the
    version parser reads a bare major tag as that major).
  */
  lemma BumpedReferenceSettles(path: string, ref: string, fetch: string -> Response, parseMajor: string -> Option<nat>)
    requires '@' !in path
    requires forall n: nat :: parseMajor(MajorTag(n)) == Some(n)
    requires SuggestMajorUpgrade(path + "@" + ref, fetch, parseMajor).Ok?
    requires SuggestMajorUpgrade(path + "@" + ref, fetch, parseMajor).value != ""
    ensures SuggestMajorUpgrade(path + "@" + SuggestMajorUpgrade(path + "@" + ref, fetch, parseMajor).value, fetch, parseMajor)
      == Ok("")
  {
    var tag := SuggestMajorUpgrade(path + "@" + ref, fetch, parseMajor).value;
    if ref == "master" || '/' !in path || !Text.HasPrefix(ref, "v") {
      SkipsIneligible(path, ref, fetch, parseMajor);
      assert false;
    }
    var url := "https://github.com/" + path + "/releases/latest";
    LooksUpReferencePath(path, ref, fetch, parseMajor);
    LooksUpReferencePath(path, tag, fetch, parseMajor);
    var latest := LatestAt(fetch, url);
    assert tag == MajorTag(parseMajor(latest.value).value);
    assert parseMajor(tag) == parseMajor(latest.value);
  }
}
