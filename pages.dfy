/** The page list of a chapter and the slug that the details, chapter-list and
    page-list requests take from a stored url. */
module Pages {
  import opened Text
  import opened Endpoints

  /** One page of a chapter: its position and its image url. */
  datatype Page = Page(index: nat, imageUrl: string)

  /** `filter { it.isNotBlank() }`. */
  function NonBlank(images: seq<string>): (r: seq<string>)
    ensures forall i :: 0 <= i < |r| ==> !IsBlank(r[i])
  {
    if images == [] then []
    else (if IsBlank(images[0]) then [] else [images[0]]) + NonBlank(images[1..])
  }

  /** `mapIndexed { i, img -> Page(i, imageUrl = img) }`, numbering from `start`. */
  function Numbered(urls: seq<string>, start: nat): (r: seq<Page>)
    ensures |r| == |urls|
    ensures forall i :: 0 <= i < |r| ==> r[i] == Page(start + i, urls[i])
  {
    if urls == [] then [] else [Page(start, urls[0])] + Numbered(urls[1..], start + 1)
  }

  /** `pageListParse`: the non-blank image urls, numbered 0, 1, 2, ... in their order. */
  function PageListParse(images: seq<string>): (r: seq<Page>)
    ensures forall i :: 0 <= i < |r| ==> r[i].index == i && !IsBlank(r[i].imageUrl)
  {
    Numbered(NonBlank(images), 0)
  }

  /** The image urls of a page list, in order. */
  function ImageUrls(pages: seq<Page>): (r: seq<string>)
    ensures |r| == |pages| && forall i :: 0 <= i < |pages| ==> r[i] == pages[i].imageUrl
  {
    if pages == [] then [] else [pages[0].imageUrl] + ImageUrls(pages[1..])
  }

  /** `a` is `b` with some elements left out, the rest kept in order. */
  ghost predicate IsSubsequence<T>(a: seq<T>, b: seq<T>)
  {
    if a == [] then true
    else if b == [] then false
    else (a[0] == b[0] && IsSubsequence(a[1..], b[1..])) || IsSubsequence(a, b[1..])
  }

  function BlankCount(images: seq<string>): nat
  {
    if images == [] then 0 else (if IsBlank(images[0]) then 1 else 0) + BlankCount(images[1..])
  }

  lemma {:induction false} NonBlankFacts(images: seq<string>)
    ensures IsSubsequence(NonBlank(images), images)
    ensures |NonBlank(images)| == |images| - BlankCount(images)
    ensures forall x :: x in images && !IsBlank(x) ==> x in NonBlank(images)
  {
    if images != [] {
      NonBlankFacts(images[1..]);
      assert images == [images[0]] + images[1..];
      if !IsBlank(images[0]) {
        assert NonBlank(images) == [images[0]] + NonBlank(images[1..]);
        assert NonBlank(images)[1..] == NonBlank(images[1..]);
        assert NonBlank(images)[0] == images[0];
      } else {
        assert NonBlank(images) == NonBlank(images[1..]);
      }
    }
  }

  /** The page list holds exactly the non-blank images: each of them, in the order of
      the payload, and one page fewer than images for every blank one. */
  lemma PageListKeepsNonBlank(images: seq<string>)
    ensures IsSubsequence(ImageUrls(PageListParse(images)), images)
    ensures |PageListParse(images)| == |images| - BlankCount(images)
    ensures forall x :: x in images && !IsBlank(x) ==>
      exists i :: 0 <= i < |PageListParse(images)| && PageListParse(images)[i].imageUrl == x
  {
    NonBlankFacts(images);
    var pages := PageListParse(images);
    assert ImageUrls(pages) == NonBlank(images);
    forall x | x in images && !IsBlank(x)
      ensures exists i :: 0 <= i < |pages| && pages[i].imageUrl == x
    {
      var i :| 0 <= i < |NonBlank(images)| && NonBlank(images)[i] == x;
      assert pages[i].imageUrl == x;
    }
  }

  /** Blank entries are dropped before numbering, so the indices stay contiguous. */
  lemma PageListExample()
    ensures PageListParse(["", "http://a", "", "http://b"]) == [Page(0, "http://a"), Page(1, "http://b")]
  {
    var images := ["", "http://a", "", "http://b"];
    assert !IsBlank("http://a") by { assert !IsWhitespace("http://a"[0]); }
    assert !IsBlank("http://b") by { assert !IsWhitespace("http://b"[0]); }
    assert images[1..] == ["http://a", "", "http://b"];
    assert images[1..][1..] == ["", "http://b"];
    assert images[1..][1..][1..] == ["http://b"];
    assert ["http://b"][1..] == [];
    assert NonBlank(images) == ["http://a", "http://b"];
  }

  /** `removeSuffix("/").substringAfterLast("/")`: the last path segment of a url. */
  function Slug(url: string): (slug: string)
    ensures '/' !in slug
    ensures var path := RemoveSuffix(url, "/");
      || ('/' !in path && slug == path)
      || (|slug| < |path| && path == path[..|path| - |slug| - 1] + "/" + slug)
  {
    var path := RemoveSuffix(url, "/");
    var slug := SubstringAfterLast(path, '/');
    assert '/' in path ==> path == path[..|path| - |slug| - 1] + [path[|path| - |slug| - 1]] + path[|path| - |slug|..];
    slug
  }

  /** The slug is recovered from a url built as a prefix, a `/` and a non-empty
      segment, with or without one trailing `/`. */
  lemma SlugOfPath(prefix: string, segment: string)
    requires segment != [] && '/' !in segment
    ensures Slug(prefix + "/" + segment) == segment
    ensures Slug(prefix + "/" + segment + "/") == segment
  {
    var url := prefix + "/" + segment;
    assert url[|url| - 1] == segment[|segment| - 1];
    assert RemoveSuffix(url, "/") == url;
    assert RemoveSuffix(url + "/", "/") == url;
    SubstringAfterLastOf(prefix, segment);
  }

  lemma SubstringAfterLastOf(prefix: string, segment: string)
    requires '/' !in segment
    ensures SubstringAfterLast(prefix + "/" + segment, '/') == segment
  {
    var s := prefix + "/" + segment;
    var r := SubstringAfterLast(s, '/');
    assert '/' in s by { assert s[|prefix|] == '/'; }
    assert s[|s| - |segment| - 1] == '/';
    assert s[|s| - |segment|..] == segment;
  }

  /** `mangaDetailsRequest` (and `chapterListRequest`, which reuses it): a url on the
      backend host whose last segment is the stored url's slug. */
  function MangaDetailsUrl(mangaUrl: string): (r: string)
    ensures |API_URL| < |r| && r[..|API_URL|] == API_URL
    ensures SubstringAfterLast(r, '/') == Slug(mangaUrl)
  {
    var slug := Slug(mangaUrl);
    UrlOnHost(API_URL, "/manhwa/see/", slug);
    API_URL + "/manhwa/see/" + slug
  }

  /** `pageListRequest`: a url on the backend host whose last segment is the stored
      url's slug. */
  function PageListUrl(chapterUrl: string): (r: string)
    ensures |API_URL| < |r| && r[..|API_URL|] == API_URL
    ensures SubstringAfterLast(r, '/') == Slug(chapterUrl)
  {
    var slug := Slug(chapterUrl);
    UrlOnHost(API_URL, "/chapters/see/", slug);
    API_URL + "/chapters/see/" + slug
  }

  /** A url made of a host, a path ending in `/` and a `/`-free segment starts with the
      host and ends with the segment. */
  lemma UrlOnHost(host: string, path: string, segment: string)
    requires host != [] && path != [] && path[|path| - 1] == '/' && '/' !in segment
    ensures var u := host + path + segment;
      && |host| < |u| && u[..|host|] == host
      && SubstringAfterLast(u, '/') == segment
  {
    var u := host + path + segment;
    assert u[..|host|] == host;
    var dir := host + path[..|path| - 1];
    assert u == dir + "/" + segment;
    SubstringAfterLastOf(dir, segment);
  }

  /** The details request for a manga stored as `<prefix>/<slug>`, with or without a
      trailing `/`, asks for that slug. */
  lemma MangaDetailsUrlOfPath(prefix: string, slug: string)
    requires slug != [] && '/' !in slug
    ensures MangaDetailsUrl(prefix + "/" + slug) == API_URL + "/manhwa/see/" + slug
    ensures MangaDetailsUrl(prefix + "/" + slug + "/") == API_URL + "/manhwa/see/" + slug
  {
    SlugOfPath(prefix, slug);
  }

  /** The page-list request for a chapter stored as `<prefix>/<slug>`, with or without a
      trailing `/`, asks for that slug. */
  lemma PageListUrlOfPath(prefix: string, slug: string)
    requires slug != [] && '/' !in slug
    ensures PageListUrl(prefix + "/" + slug) == API_URL + "/chapters/see/" + slug
    ensures PageListUrl(prefix + "/" + slug + "/") == API_URL + "/chapters/see/" + slug
  {
    SlugOfPath(prefix, slug);
  }
}
