/** `AtSignProcessor._guess_icon_and_label` and the pure part of its network
    fallback: guessing an icon and a label for a bare URL. */
module Resolver {
  import opened Wrappers
  import opened PyStr

  /** The network behind the fallback path. `favicon(url)` is
      `favicon.get(url)[0].url` and `page(url)` the body of `requests.get(url)`;
      each is `None` when the call raises. */
  datatype Web = Web(favicon: string -> Option<string>, page: string -> Option<string>)

  /** The icon and label used when the fallback raises. */
  const LINK_GLYPH := "\U{1F517}"
  const LINK_LABEL := "Link"

  /** `_get_page_title` after the request: the slice
      `al[al.find("<title>") + 7 : al.find("</title>")]`. With both tags present and the
      closing one after the opening one, it is exactly the text between the first
      `<title>` and the first `</title>`. */
  function PageTitle(al: string): (r: string)
    ensures var t, c := Find(al, "<title>"), Find(al, "</title>");
      0 <= t < c ==> t + 7 <= c && r == al[t + 7..c]
  {
    TagsApart(al);
    Slice(al, Find(al, "<title>") + 7, Find(al, "</title>"))
  }

  /** `r` is a contiguous part of `s`. */
  ghost predicate IsSubstring(r: string, s: string) {
    exists lo, hi :: 0 <= lo <= hi <= |s| && s[lo..hi] == r
  }

  /** A first `</title>` after the first `<title>` starts only where `<title>` has
      ended: no `<` lies inside `<title>` after its first character. */
  lemma TagsApart(al: string)
    ensures var t, c := Find(al, "<title>"), Find(al, "</title>");
      0 <= t < c ==> t + 7 <= c
  {
    var t, c := Find(al, "<title>"), Find(al, "</title>");
    if 0 <= t < c {
      assert al[t..t + 7] == "<title>";
      assert al[c..c + 8] == "</title>";
      assert al[c] == al[c..c + 8][0];
      forall j | t < j < t + 7 ensures al[j] != '<' {
        assert al[j] == al[t..t + 7][j - t];
      }
    }
  }

  /** Whatever the page holds, the title is some contiguous (possibly empty) part of it. */
  lemma TitleIsSubstring(al: string)
    ensures IsSubstring(PageTitle(al), al)
  {
    var lo, hi := ClampIndex(Find(al, "<title>") + 7, |al|), ClampIndex(Find(al, "</title>"), |al|);
    if lo < hi {
      assert al[lo..hi] == PageTitle(al);
    } else {
      assert al[0..0] == PageTitle(al);
    }
  }

  /** A sub-string that starts with a character absent from `s` does not occur in it. */
  lemma FindAbsent(s: string, sub: string)
    requires sub != [] && sub[0] !in s
    ensures Find(s, sub) == -1
  {
    forall k ensures !OccursAt(s, sub, k) {
      if 0 <= k && k + |sub| <= |s| {
        assert s[k..k + |sub|][0] == s[k];
      }
    }
  }

  /** A page with no tag at all is not a failure: the slice starts at index 6 and
      stops one character before the end. */
  lemma TitleWithoutTags(al: string)
    requires '<' !in al && |al| >= 7
    ensures PageTitle(al) == al[6..|al| - 1]
  {
    FindAbsent(al, "<title>");
    FindAbsent(al, "</title>");
  }

  /** The URL names one of the platforms with a dedicated parser. */
  predicate IsTwitter(url: string) { Contains(url, "twitter.com") }
  predicate IsStreamlit(url: string) {
    Contains(url, "streamlitapp.com") || Contains(url, "streamlit.io") || Contains(url, "streamlit.app")
  }
  predicate IsGitHub(url: string) { Contains(url, "github.com") }
  predicate IsNotion(url: string) { Contains(url, "notion.so") }

  predicate HasPlatformMarker(url: string) {
    IsTwitter(url) || IsStreamlit(url) || IsGitHub(url) || IsNotion(url)
  }

  /** The `else` branch: favicon and page title, or the generic link when either call raises. */
  function Fallback(url: string, web: Web): (r: (string, string))
    ensures web.favicon(url).None? || web.page(url).None? ==> r == (LINK_GLYPH, LINK_LABEL)
    ensures web.favicon(url).Some? && web.page(url).Some? ==>
      r == (web.favicon(url).value, PageTitle(web.page(url).value))
  {
    match web.favicon(url)
    case None => (LINK_GLYPH, LINK_LABEL)
    case Some(icon) =>
      match web.page(url)
      case None => (LINK_GLYPH, LINK_LABEL)
      case Some(al) => (icon, PageTitle(al))
  }

  /** `url.split(marker)[1].split("/")[0]`; `None` for the `IndexError`. */
  function SegmentAfter(url: string, marker: string): Option<string>
    requires marker != ""
  {
    match Index(Split(url, marker), 1)
    case None => None
    case Some(rest) => Some(Split(rest, "/")[0])
  }

  /** `url.split("twitter.com/")[1].split("/")[0]`, which exists exactly when
      `twitter.com/` occurs. */
  function TweetHandle(url: string): (r: Option<string>)
    ensures r.Some? <==> Contains(url, "twitter.com/")
  {
    SegmentAfterDefined(url, "twitter.com/");
    SegmentAfter(url, "twitter.com/")
  }

  /** `url.split("/")[-1]`. */
  function ProfileName(url: string): string {
    Index(Split(url, "/"), -1).value
  }

  /** `"/".join(url.split("/")[-2:])`. */
  function RepoLabel(url: string): string {
    Join("/", SliceFrom(Split(url, "/"), -2))
  }

  /** `_guess_icon_and_label`: the platform tests in source order, first match wins.
      The one uncaught failure is the `IndexError` of `url.split("twitter.com/")[1]`. */
  function GuessIconAndLabel(url: string, web: Web): (r: Result<(string, string)>)
    ensures r.Err? <==> IsTwitter(url) && Contains(url, "status") && TweetHandle(url).None?
  {
    if IsTwitter(url) then
      if Contains(url, "status") then
        match TweetHandle(url)
        case None => Err(IndexError)
        case Some(handle) => Ok(("twitter", handle))
      else
        Ok(("twitter", ProfileName(url)))
    else if IsStreamlit(url) then
      Ok(("streamlit", "Streamlit App"))
    else if IsGitHub(url) then
      Ok(("github", RepoLabel(url)))
    else if IsNotion(url) then
      Ok(("notion", "Notion page"))
    else
      Ok(Fallback(url, web))
  }

  /** Only a URL with no platform marker reaches the network: for the others the
      result does not depend on the web at all. */
  lemma WebOnlyWithoutMarker(url: string, w1: Web, w2: Web)
    requires HasPlatformMarker(url)
    ensures GuessIconAndLabel(url, w1) == GuessIconAndLabel(url, w2)
  {
  }

  /** A URL with no marker takes the favicon and the page title; any failure of
      either call degrades to the generic link. */
  lemma FallbackOutcome(url: string, web: Web)
    requires !HasPlatformMarker(url)
    ensures web.favicon(url).None? || web.page(url).None? ==>
      GuessIconAndLabel(url, web) == Ok((LINK_GLYPH, LINK_LABEL))
    ensures web.favicon(url).Some? && web.page(url).Some? ==>
      GuessIconAndLabel(url, web) == Ok((web.favicon(url).value, PageTitle(web.page(url).value)))
  {
  }

  /** `url.split(marker)[1]` exists exactly when the marker occurs, and is the text
      from the end of its first occurrence to the next occurrence or the end. */
  lemma SecondPiece(url: string, marker: string)
    requires marker != ""
    ensures Index(Split(url, marker), 1).Some? <==> Contains(url, marker)
    ensures Contains(url, marker) ==>
      Index(Split(url, marker), 1) == Some(SplitFrom(url, marker, Find(url, marker) + |marker|)[0])
  {
  }

  /** The segment after a marker exists exactly when the marker occurs. */
  lemma SegmentAfterDefined(url: string, marker: string)
    requires marker != ""
    ensures SegmentAfter(url, marker).Some? <==> Contains(url, marker)
  {
    SecondPiece(url, marker);
  }

  /** The segment after a marker: a `/`-free run starting right after the first
      occurrence of the marker, ending at the end of the URL, at a `/`, or where the
      marker occurs again. */
  lemma SegmentAfterSpec(url: string, marker: string)
    requires marker != "" && Contains(url, marker)
    ensures SegmentAfter(url, marker).Some?
    ensures var b, h := Find(url, marker) + |marker|, SegmentAfter(url, marker).value;
      var e := b + |h|;
      && e <= |url| && url[b..e] == h
      && '/' !in h
      && (e == |url| || url[e] == '/' || OccursAt(url, marker, e))
      && (forall j :: b <= j < e ==> !OccursAt(url, marker, j))
  {
    SegmentAfterIs(url, marker);
    SegmentOfPiece(url, marker, Find(url, marker) + |marker|, SegmentAfter(url, marker).value);
  }

  lemma SegmentAfterIs(url: string, marker: string)
    requires marker != "" && Contains(url, marker)
    ensures var b := Find(url, marker) + |marker|;
      && b <= |url| && SegmentAfter(url, marker).Some?
      && SegmentAfter(url, marker).value == Split(SplitFrom(url, marker, b)[0], "/")[0]
  {
    SecondPiece(url, marker);
  }

  /** The facts about the first `/`-segment of the piece of `url` that starts at `b`. */
  lemma SegmentOfPiece(url: string, marker: string, b: nat, h: string)
    requires marker != "" && b <= |url|
    requires h == Split(SplitFrom(url, marker, b)[0], "/")[0]
    ensures var e := b + |h|;
      && e <= |url| && url[b..e] == h
      && '/' !in h
      && (e == |url| || url[e] == '/' || OccursAt(url, marker, e))
      && (forall j :: b <= j < e ==> !OccursAt(url, marker, j))
  {
    var piece := SplitFrom(url, marker, b)[0];
    FirstPieceFrom(url, marker, b);
    FirstPiece(piece, "/");
    SegmentWithin(url, marker, b, piece, h);
  }

  /** A prefix `h` of the piece `url[b..b + |piece|]` with no `/`, cut at a `/` or at
      the end of the piece, ends at the end of `url`, at a `/`, or where the marker
      occurs. */
  lemma SegmentWithin(url: string, marker: string, b: nat, piece: string, h: string)
    requires b + |piece| <= |url| && url[b..b + |piece|] == piece
    requires b + |piece| == |url| || OccursAt(url, marker, b + |piece|)
    requires forall j :: b <= j < b + |piece| ==> !OccursAt(url, marker, j)
    requires StartsWith(piece, h) && !Contains(h, "/")
    requires |h| == |piece| || OccursAt(piece, "/", |h|)
    ensures var e := b + |h|;
      && e <= |url| && url[b..e] == h
      && '/' !in h
      && (e == |url| || url[e] == '/' || OccursAt(url, marker, e))
      && (forall j :: b <= j < e ==> !OccursAt(url, marker, j))
  {
    ContainsChar(h, '/');
    var e := b + |h|;
    assert url[b..e] == piece[..|h|];
    if |h| < |piece| {
      assert piece[|h|..|h| + 1] == "/";
      assert url[e] == piece[|h|];
    }
  }

  /** A tweet URL is labelled with the handle right after the first `twitter.com/`:
      the longest run there with no `/`, unless a further `twitter.com/` cuts it. */
  lemma TweetHandleSpec(url: string)
    requires Contains(url, "twitter.com/")
    ensures TweetHandle(url).Some?
    ensures var b, h := Find(url, "twitter.com/") + 12, TweetHandle(url).value;
      var e := b + |h|;
      && e <= |url| && url[b..e] == h
      && '/' !in h
      && (e == |url| || url[e] == '/' || OccursAt(url, "twitter.com/", e))
      && (forall j :: b <= j < e ==> !OccursAt(url, "twitter.com/", j))
  {
    SegmentAfterSpec(url, "twitter.com/");
  }

  /** A profile URL is labelled with the text after its last `/`. */
  lemma ProfileNameSpec(url: string)
    ensures var h := ProfileName(url);
      && |h| <= |url| && url[|url| - |h|..] == h
      && '/' !in h
      && (|h| == |url| || url[|url| - |h| - 1] == '/')
  {
    var parts := Split(url, "/");
    var n := |parts|;
    var h := parts[n - 1];
    JoinSplit(url, "/");
    SplitPiecesFree(url, "/");
    ContainsChar(h, '/');
    if n > 1 {
      JoinAt("/", parts, n - 1);
      assert parts[n - 1..] == [h];
      assert url == Join("/", parts[..n - 1]) + "/" + h;
    }
  }

  /** A GitHub URL is labelled with its last two `/`-segments joined by `/`
      (`owner/repo`): a suffix of the URL starting after a `/`, holding exactly one
      `/` when the URL has one, and the whole URL when it has none. */
  lemma RepoLabelSpec(url: string)
    ensures var r := RepoLabel(url);
      && |r| <= |url| && url[|url| - |r|..] == r
      && (|r| == |url| || url[|url| - |r| - 1] == '/')
      && ('/' !in url ==> r == url)
      && ('/' in url ==> exists k :: 0 <= k < |r| && r[k] == '/' && '/' !in r[..k] && '/' !in r[k + 1..])
  {
    var parts := Split(url, "/");
    var n := |parts|;
    var r := RepoLabel(url);
    JoinSplit(url, "/");
    SplitPiecesFree(url, "/");
    if n == 1 {
      assert r == url;
      assert !Contains(url, "/");
      ContainsChar(url, '/');
    } else {
      var p, q := parts[n - 2], parts[n - 1];
      assert SliceFrom(parts, -2) == [p, q];
      assert [p, q][1..] == [q];
      assert Join("/", [p, q]) == p + "/" + q;
      assert r == Join("/", [p, q]);
      ContainsChar(p, '/');
      ContainsChar(q, '/');
      assert r[|p|] == '/' && r[..|p|] == p && r[|p| + 1..] == q;
      if n > 2 {
        JoinAt("/", parts, n - 2);
        assert parts[n - 2..] == [p, q];
        assert url == Join("/", parts[..n - 2]) + "/" + r;
      }
      assert url[|url| - |r|..] == r;
      assert '/' in url by { assert url[|url| - |r| + |p|] == '/'; }
    }
  }

  /** The twitter marker wins over every other marker, labelling a tweet with its
      handle and a profile with its last segment; streamlit over GitHub and
      Notion; GitHub over Notion. */
  lemma ClassificationOrder(url: string, web: Web)
    ensures IsTwitter(url) && GuessIconAndLabel(url, web).Ok? ==> GuessIconAndLabel(url, web).value.0 == "twitter"
    ensures IsTwitter(url) && Contains(url, "status") && Contains(url, "twitter.com/") ==>
      TweetHandle(url).Some? && GuessIconAndLabel(url, web) == Ok(("twitter", TweetHandle(url).value))
    ensures IsTwitter(url) && !Contains(url, "status") ==> GuessIconAndLabel(url, web) == Ok(("twitter", ProfileName(url)))
    ensures !IsTwitter(url) && IsStreamlit(url) ==> GuessIconAndLabel(url, web) == Ok(("streamlit", "Streamlit App"))
    ensures !IsTwitter(url) && !IsStreamlit(url) && IsGitHub(url) ==> GuessIconAndLabel(url, web) == Ok(("github", RepoLabel(url)))
    ensures !IsTwitter(url) && !IsStreamlit(url) && !IsGitHub(url) && IsNotion(url) ==>
      GuessIconAndLabel(url, web) == Ok(("notion", "Notion page"))
  {
  }
}
