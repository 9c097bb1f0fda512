/**
 * The search step (`searchAudiobooks`): the search URL built from the
 * query, and the listings kept from the posts of the result page, in page
 * order, each with a fully qualified URL and its four labelled fields.
 */
module Search {
  import opened Common
  import opened JsStrings
  import opened UriComponent
  import opened LabelField
  import opened Filtering

  const BaseUrl: string := "https://audiobookbay.lu"
  const SearchPath: string := "/?s="
  const CategorySuffix: string := "&cat=undefined%2Cundefined"

  /**
   * The address of the result page: the lower-cased query, escaped, between
   * the fixed prefix and suffix; the escaped query takes at least one
   * character of the URL per character of the query.
   */
  function SearchUrl(query: string): (url: string)
    ensures StartsWith(url, BaseUrl + SearchPath)
    ensures |url| >= |BaseUrl + SearchPath| + |query| + |CategorySuffix|
    ensures url[|url| - |CategorySuffix|..] == CategorySuffix
  {
    var e := Encode(ToLowerCase(query));
    assert (BaseUrl + SearchPath + e + CategorySuffix)[..|BaseUrl + SearchPath|] == BaseUrl + SearchPath;
    BaseUrl + SearchPath + e + CategorySuffix
  }

  /**
   * The search URL carries the lower-cased query as the single `s` value:
   * between the fixed prefix and the fixed category suffix sits an escaped
   * value (unreserved characters and `%XX` escapes only, so no `&`) that
   * decodes back to the lower-cased query.
   */
  lemma SearchUrlCarriesQuery(query: string)
    ensures var url := SearchUrl(query);
      && |BaseUrl + SearchPath| + |CategorySuffix| <= |url|
      && url[..|BaseUrl + SearchPath|] == BaseUrl + SearchPath
      && url[|url| - |CategorySuffix|..] == CategorySuffix
      && IsEncodedForm(url[|BaseUrl + SearchPath|..|url| - |CategorySuffix|])
      && '&' !in url[|BaseUrl + SearchPath|..|url| - |CategorySuffix|]
      && Decode(url[|BaseUrl + SearchPath|..|url| - |CategorySuffix|]) == Some(ToLowerCase(query))
  {
    var prefix := BaseUrl + SearchPath;
    var e := Encode(ToLowerCase(query));
    var url := SearchUrl(query);
    assert url == prefix + e + CategorySuffix;
    assert url[|prefix|..|url| - |CategorySuffix|] == e;
    EncodeIsEncodedForm(ToLowerCase(query));
    EncodeHasNoDelimiters(ToLowerCase(query));
    DecodeEncode(ToLowerCase(query));
  }

  /** Queries that differ only in ASCII case search the same page. */
  lemma SearchUrlIgnoresCase(query: string)
    ensures SearchUrl(ToLowerCase(query)) == SearchUrl(query)
  {
    ToLowerCaseIdempotent(query);
  }

  // ---------------------------------------------------------------- listings

  /**
   * One post of the result page as the selectors see it: the text of its
   * title link (not yet trimmed), the link's `href` attribute (absent or not) and
   * the text of its content block.
   */
  datatype Post = Post(titleText: string, href: Option<string>, contentText: string)

  datatype SearchResult = SearchResult(
    title: string,
    url: string,
    language: string,
    category: string,
    format: string,
    size: string)

  /** `if (title && url)`: a non-empty trimmed title and a non-empty `href`. */
  predicate Accepted(p: Post) {
    Trim(p.titleText) != [] && p.href.Some? && p.href.value != []
  }

  /**
   * The full URL of a listing: an `href` starting with `http` is kept; any
   * other is appended to the base URL, with a `/` in between only when the
   * `href` does not already start with one (so `//cdn/x` keeps both of its
   * slashes).
   */
  function Qualify(href: string): (url: string)
    ensures StartsWith(url, "http")
    ensures StartsWith(href, "http") ==> url == href
    ensures !StartsWith(href, "http") ==>
      url == BaseUrl + "/" + (if StartsWith(href, "/") then href[1..] else href)
  {
    if StartsWith(href, "http") then href
    else
      assert StartsWith(BaseUrl, "http");
      if StartsWith(href, "/") then
        assert BaseUrl + href == BaseUrl + "/" + href[1..] by {
          assert href == "/" + href[1..];
        }
        BaseUrl + href
      else BaseUrl + "/" + href
  }

  /** Qualifying a qualified URL changes nothing. */
  lemma QualifyIdempotent(href: string)
    ensures Qualify(Qualify(href)) == Qualify(href)
  {
  }

  /** A listing as the program stores it. */
  predicate IsListing(r: SearchResult) {
    && r.title != [] && !IsJsWhitespace(r.title[0]) && !IsJsWhitespace(r.title[|r.title| - 1])
    && StartsWith(r.url, "http")
    && IsFieldValue(r.language) && IsFieldValue(r.category)
    && IsFieldValue(r.format) && IsFieldValue(r.size)
  }

  /** The `href` of a post, `""` when it has none. */
  function Href(p: Post): string {
    match p.href
    case None => ""
    case Some(h) => h
  }

  /**
   * The listing pushed for a post: its title trimmed, its URL qualified, and
   * each of its four fields `'Unknown'` or a trimmed single line.
   */
  function ToResult(p: Post): (r: SearchResult)
    ensures r.title == [] || (!IsJsWhitespace(r.title[0]) && !IsJsWhitespace(r.title[|r.title| - 1]))
    ensures StartsWith(r.url, "http")
    ensures IsFieldValue(r.language) && IsFieldValue(r.category)
    ensures IsFieldValue(r.format) && IsFieldValue(r.size)
  {
    SearchResult(
      Trim(p.titleText),
      Qualify(Href(p)),
      LabelValue(LanguageLabel, p.contentText),
      LabelValue(CategoryLabel, p.contentText),
      LabelValue(FormatLabel, p.contentText),
      LabelValue(SizeLabel, p.contentText))
  }

  /**
   * The listings of a page: one per accepted post, in page order; never
   * more than the posts, and each one well formed.
   */
  function Listings(posts: seq<Post>): (rs: seq<SearchResult>)
    ensures |rs| <= |posts|
    ensures forall r :: r in rs ==> IsListing(r)
  {
    AcceptedAreListings(posts);
    FilterMap(posts, Accepted, ToResult)
  }

  /** Every listing produced from accepted posts is well formed. */
  lemma AcceptedAreListings(posts: seq<Post>)
    ensures forall r :: r in FilterMap(posts, Accepted, ToResult) ==> IsListing(r)
  {
    forall r | r in FilterMap(posts, Accepted, ToResult) ensures IsListing(r) {
      FilterMapMembership(posts, Accepted, ToResult, r);
      var i :| 0 <= i < |posts| && Accepted(posts[i]) && ToResult(posts[i]) == r;
      ToResultIsListing(posts[i]);
    }
  }

  /**
   * The listings `searchAudiobooks(query)` returns when `fetch` stands for
   * the HTTP GET: those of the page fetched from the search URL, or none
   * when the fetch failed.
   */
  function SearchResults(query: string, fetch: string -> Fetch<seq<Post>>): seq<SearchResult> {
    match fetch(SearchUrl(query))
    case Failed => []
    case Page(posts) => Listings(posts)
  }

  /**
   * `searchAudiobooks(query)`: fetches the search URL, walks the posts of
   * the page in order and pushes a listing for each accepted one.
   */
  method SearchAudiobooks(query: string, fetch: string -> Fetch<seq<Post>>)
    returns (results: seq<SearchResult>)
    ensures results == SearchResults(query, fetch)
  {
    var searchUrl := SearchUrl(query);
    var response := fetch(searchUrl);
    results := [];
    if response.Failed? {
      return;
    }
    var posts := response.doc;
    var i := 0;
    while i < |posts|
      invariant 0 <= i <= |posts|
      invariant results == Listings(posts[..i])
    {
      var post := posts[i];
      assert posts[..i + 1][..i] == posts[..i];
      if Accepted(post) {
        results := results + [ToResult(post)];
      }
      i := i + 1;
    }
    assert posts[..|posts|] == posts;
  }

  // ------------------------------------------------------------- properties

  /** Every listing of an accepted post is well formed. */
  lemma ToResultIsListing(p: Post)
    requires Accepted(p)
    ensures IsListing(ToResult(p))
  {
  }

  /**
   * The listings are exactly the converted accepted posts, each well formed,
   * and never more than the posts of the page.
   */
  lemma ListingsMembership(posts: seq<Post>, r: SearchResult)
    ensures |Listings(posts)| <= |posts|
    ensures r in Listings(posts) <==>
      exists i :: 0 <= i < |posts| && Accepted(posts[i]) && ToResult(posts[i]) == r
    ensures r in Listings(posts) ==> IsListing(r)
  {
    FilterMapMembership(posts, Accepted, ToResult, r);
  }

  /** When every post is accepted, nothing is dropped, merged or reordered. */
  lemma ListingsAllAccepted(posts: seq<Post>)
    requires forall i :: 0 <= i < |posts| ==> Accepted(posts[i])
    ensures |Listings(posts)| == |posts|
    ensures forall i :: 0 <= i < |posts| ==> Listings(posts)[i] == ToResult(posts[i])
  {
    FilterMapAllKept(posts, Accepted, ToResult);
  }

  /**
   * The listings keep page order on any page: those of two stretches of
   * posts are the listings of the first followed by those of the second,
   * and a single post gives its listing exactly when it is accepted.
   */
  lemma ListingsInPageOrder(before: seq<Post>, p: Post, after: seq<Post>)
    ensures Listings(before + [p] + after) ==
      Listings(before) + (if Accepted(p) then [ToResult(p)] else []) + Listings(after)
  {
    FilterMapAppend(before + [p], after, Accepted, ToResult);
    FilterMapAppend(before, [p], Accepted, ToResult);
    assert [p][..0] == [];
  }

  /** A page with no accepted post gives no listing. */
  lemma ListingsNoneAccepted(posts: seq<Post>)
    requires forall i :: 0 <= i < |posts| ==> !Accepted(posts[i])
    ensures Listings(posts) == []
  {
    FilterMapNoneKept(posts, Accepted, ToResult);
  }
}
