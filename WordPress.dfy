/** The WordPress REST client: request URLs, status handling, the query
    strings of the four fetch operations, first-or-null selection and the two
    projection helpers over an article. */
module WordPress {
  import opened Wrappers
  import Text
  import Decimal
  import Percent
  import SP = SearchParams

  // ---------------------------------------------------------------------
  // Records the REST API returns. Every field the API may leave out is an
  // Option; numbers are integers.

  datatype User = User(id: int, name: string, slug: string)

  datatype Category = Category(id: int, name: string, slug: string)

  /** One named size of an image. */
  datatype SizeVariant = SizeVariant(sourceUrl: string, width: int, height: int)

  datatype MediaDetails = MediaDetails(sizes: Option<map<string, SizeVariant>>)

  datatype Media = Media(sourceUrl: Option<string>, altText: Option<string>, mediaDetails: Option<MediaDetails>)

  datatype Rendered = Rendered(rendered: string)

  datatype Content = Content(rendered: string, protected: bool)

  /** The `_embedded` bundle: author and featured-media lists, and one list of
      terms per taxonomy. */
  datatype Embedded = Embedded(
    author: Option<seq<User>>,
    featuredMedia: Option<seq<Media>>,
    terms: Option<seq<seq<Category>>>)

  datatype Article = Article(
    id: int,
    slug: string,
    date: string,
    title: Rendered,
    content: Content,
    excerpt: Option<Rendered>,
    author: int,
    categories: Option<seq<int>>,
    embedded: Option<Embedded>)

  // ---------------------------------------------------------------------
  // The request primitive.

  datatype NextOptions = NextOptions(revalidate: Option<int>)

  /** The caller's options: a cache mode and framework revalidation hints. */
  datatype FetchOptions = FetchOptions(cache: Option<string>, next: Option<NextOptions>)

  const NoOptions := FetchOptions(None, None)

  /** What is handed to the transport. */
  datatype Request = Request(url: string, cache: string, next: Option<NextOptions>, accept: string)

  /** What the transport gives back: the status, the body as text (None when
      reading it fails) and the body decoded as JSON (None when it is not
      JSON). */
  datatype Response<T> = Response(status: int, text: Option<string>, json: Option<T>)

  /** The errors a fetch throws: a non-ok status, or a body that is not JSON. */
  datatype FetchError = RequestFailed(message: string) | DecodeFailed

  /** The REST namespace every path starts with. */
  const Base := "/wp-json/wp/v2"

  /** `WP_URL.replace(/\/$/, "") + path`: one trailing slash of the base, if
      any, is dropped before the path is appended. */
  function RequestUrl(base: string, path: string): (url: string)
    ensures |url| >= |path| && url[|url| - |path|..] == path
    ensures base == url[..|url| - |path|] || base == url[..|url| - |path|] + "/"
    ensures |base| > 0 && base[|base| - 1] == '/' ==> |url| + 1 == |base| + |path|
  {
    var stem := if |base| > 0 && base[|base| - 1] == '/' then base[..|base| - 1] else base;
    assert (stem + path)[..|stem|] == stem;
    stem + path
  }

  /** The base URL configured with a trailing slash and a path starting with
      a slash meet in exactly one slash. */
  lemma NoDoubleSlashAtJoin(base: string, path: string)
    requires |base| > 0 && base[|base| - 1] == '/'
    requires |base| < 2 || base[|base| - 2] != '/'
    requires |path| > 0 && path[0] == '/'
    ensures var url := RequestUrl(base, path);
      var k := |base| - 1;
      url[..k] == base[..k] && url[k] == '/' && (k == 0 || url[k - 1] != '/')
  {
    var url := RequestUrl(base, path);
    var k := |base| - 1;
    assert url == base[..k] + path;
  }

  /** The Fetch Standard's "ok status". */
  predicate IsOk(status: int) { 200 <= status <= 299 }

  const MessagePrefix := "WP fetch failed "

  /** The message of the error thrown for a non-ok status. */
  function ErrorMessage(status: int, url: string, text: string): string
  {
    MessagePrefix + Decimal.IntToString(status) + ": " + url + "\n" + text
  }

  /** What follows the fixed prefix of an error message. */
  function MessageBody(msg: string): Option<string>
  {
    if |msg| < |MessagePrefix| || msg[..|MessagePrefix|] != MessagePrefix then None
    else Some(msg[|MessagePrefix|..])
  }

  /** The status a reader finds in an error message: the integer between the
      prefix and the first colon. */
  function StatusOfMessage(msg: string): Option<int>
  {
    match MessageBody(msg)
    case None => None
    case Some(body) => Decimal.ParseInt(body[..Text.IndexOf(body, ':')])
  }

  /** The URL a reader finds in an error message: from after the colon and
      space to the end of the first line. */
  function UrlOfMessage(msg: string): Option<string>
  {
    match MessageBody(msg)
    case None => None
    case Some(body) =>
      var i := Text.IndexOf(body, ':');
      if |body| < i + 2 then None
      else
        var after := body[i + 2..];
        Some(after[..Text.IndexOf(after, '\n')])
  }

  lemma MessageBodyOf(status: int, url: string, text: string)
    ensures MessageBody(ErrorMessage(status, url, text))
         == Some(Decimal.IntToString(status) + [':'] + (" " + url + "\n" + text))
  {
    var body := Decimal.IntToString(status) + [':'] + (" " + url + "\n" + text);
    var msg := ErrorMessage(status, url, text);
    assert msg == MessagePrefix + body;
    assert msg[..|MessagePrefix|] == MessagePrefix;
    assert msg[|MessagePrefix|..] == body;
  }

  /** The error message carries the exact status and, for a URL on one line,
      the exact URL. */
  lemma ErrorMessageCarries(status: int, url: string, text: string)
    ensures StatusOfMessage(ErrorMessage(status, url, text)) == Some(status)
    ensures '\n' !in url ==> UrlOfMessage(ErrorMessage(status, url, text)) == Some(url)
  {
    var digits := Decimal.IntToString(status);
    var tail := " " + url + "\n" + text;
    MessageBodyOf(status, url, text);
    Text.IndexOfAfter(digits, ':', tail);
    Decimal.ParseIntToString(status);
    assert (digits + [':'] + tail)[|digits| + 2..] == url + ['\n'] + text;
    if '\n' !in url {
      Text.IndexOfAfter(url, '\n', text);
    }
  }

  /** `wpFetch(path, opts)`: one GET of the joined URL asking for JSON; an ok
      status yields the decoded body, any other status an error naming the
      status, the URL and the body text ("" when it cannot be read). */
  function WpFetch<T>(base: string, path: string, opts: FetchOptions, transport: Request -> Response<T>): (r: Result<T, FetchError>)
    ensures var url := RequestUrl(base, path);
      var res := transport(Request(url, opts.cache.GetOr("no-store"), opts.next, "application/json"));
      && (r.Success? <==> IsOk(res.status) && res.json.Some?)
      && (r.Success? ==> r.value == res.json.value)
      && (!IsOk(res.status) ==> r == Failure(RequestFailed(ErrorMessage(res.status, url, res.text.GetOr("")))))
      && (IsOk(res.status) && res.json.None? ==> r == Failure(DecodeFailed))
  {
    var url := RequestUrl(base, path);
    var res := transport(Request(url, opts.cache.GetOr("no-store"), opts.next, "application/json"));
    if !IsOk(res.status) then
      Failure(RequestFailed(ErrorMessage(res.status, url, res.text.GetOr(""))))
    else if res.json.None? then
      Failure(DecodeFailed)
    else
      Success(res.json.value)
  }

  /** A non-ok response always fails, and the message names its status and
      the URL that was requested. */
  lemma WpFetchNotOk<T>(base: string, path: string, opts: FetchOptions, transport: Request -> Response<T>)
    requires !IsOk(transport(Request(RequestUrl(base, path), opts.cache.GetOr("no-store"), opts.next, "application/json")).status)
    ensures var r := WpFetch(base, path, opts, transport);
      var status := transport(Request(RequestUrl(base, path), opts.cache.GetOr("no-store"), opts.next, "application/json")).status;
      && r.Failure? && r.error.RequestFailed?
      && StatusOfMessage(r.error.message) == Some(status)
      && ('\n' !in RequestUrl(base, path) ==> UrlOfMessage(r.error.message) == Some(RequestUrl(base, path)))
  {
    var url := RequestUrl(base, path);
    var res := transport(Request(url, opts.cache.GetOr("no-store"), opts.next, "application/json"));
    ErrorMessageCarries(res.status, url, res.text.GetOr(""));
  }

  // ---------------------------------------------------------------------
  // First-or-null selection.

  /** `items[0] ?? null`. */
  function FirstOrNull<T>(items: seq<T>): (r: Option<T>)
    ensures r.None? <==> items == []
    ensures r.Some? ==> r.value == items[0]
  {
    if items == [] then None else Some(items[0])
  }

  // ---------------------------------------------------------------------
  // fetchArticles.

  /** The optional parameters of `fetchArticles`. */
  datatype ArticleParams = ArticleParams(perPage: Option<int>, page: Option<int>, category: Option<int>, search: Option<string>)

  /** `params?.per_page ?? 10` */
  function PerPage(params: Option<ArticleParams>): int
  {
    if params.Some? then params.value.perPage.GetOr(10) else 10
  }

  /** `params?.page ?? 1` */
  function Page(params: Option<ArticleParams>): int
  {
    if params.Some? then params.value.page.GetOr(1) else 1
  }

  /** `params?.category` is truthy: present and not 0. */
  predicate HasCategory(params: Option<ArticleParams>)
  {
    params.Some? && params.value.category.Some? && params.value.category.value != 0
  }

  /** `params?.search` is truthy: present and not empty. */
  predicate HasSearch(params: Option<ArticleParams>)
  {
    params.Some? && params.value.search.Some? && params.value.search.value != ""
  }

  /** The query `fetchArticles` sends, as a list of pairs. */
  function ArticlePairs(params: Option<ArticleParams>): seq<SP.Pair>
  {
    [SP.Pair("_embed", "1"), SP.Pair("per_page", Decimal.IntToString(PerPage(params))), SP.Pair("page", Decimal.IntToString(Page(params)))]
    + (if HasCategory(params) then [SP.Pair("categories", Decimal.IntToString(params.value.category.value))] else [])
    + (if HasSearch(params) then [SP.Pair("search", params.value.search.value)] else [])
  }

  /** The fixed part of the `fetchArticles` query: `_embed=1`, `per_page` and
      `page` come first and in that order, defaulting to 10 and 1 only when
      the parameter is absent (an explicit 0 is kept). */
  lemma ArticlePairsFixed(params: Option<ArticleParams>)
    ensures var r := ArticlePairs(params);
      && |r| >= 3
      && r[0] == SP.Pair("_embed", "1")
      && r[1].name == "per_page" && r[2].name == "page"
      && (params.None? || params.value.perPage.None? ==> r[1].value == "10")
      && (params.Some? && params.value.perPage.Some? ==> r[1].value == Decimal.IntToString(params.value.perPage.value))
      && (params.None? || params.value.page.None? ==> r[2].value == "1")
      && (params.Some? && params.value.page.Some? ==> r[2].value == Decimal.IntToString(params.value.page.value))
  {
    assert Decimal.IntToString(10) == "10" && Decimal.IntToString(1) == "1";
  }

  /** The optional part of the `fetchArticles` query: `categories` is present
      exactly when the category is non-zero and `search` exactly when the term
      is non-empty; each appears once, after the fixed parameters, and
      `categories` comes before `search`. */
  lemma ArticlePairsOptional(params: Option<ArticleParams>)
    ensures var r := ArticlePairs(params);
      && ("categories" in SP.Names(r) <==> HasCategory(params))
      && ("search" in SP.Names(r) <==> HasSearch(params))
      && (HasCategory(params) ==> SP.Values(r, "categories") == [Decimal.IntToString(params.value.category.value)])
      && (HasSearch(params) ==> SP.Values(r, "search") == [params.value.search.value])
      && (HasCategory(params) ==> SP.FirstIndex(r, "categories") == 3)
      && (HasSearch(params) ==> SP.FirstIndex(r, "search") == |r| - 1)
      && (HasCategory(params) && HasSearch(params) ==> SP.FirstIndex(r, "categories") < SP.FirstIndex(r, "search"))
  {
    var r := ArticlePairs(params);
    SP.NamesAt(r);
    if HasCategory(params) {
      SP.UniqueName(r, "categories", 3);
    } else {
      SP.AbsentName(r, "categories");
    }
    if HasSearch(params) {
      SP.UniqueName(r, "search", |r| - 1);
    } else {
      SP.AbsentName(r, "search");
    }
  }

  /** The query string of `fetchArticles`, built as the source builds it: a
      `URLSearchParams` made from the fixed entries, then `set` for the
      optional ones. A server parsing it reads back exactly `ArticlePairs`. */
  method ArticleQuery(params: Option<ArticleParams>) returns (q: string)
    ensures q == SP.Serialize(ArticlePairs(params))
    ensures SP.ParseQuery(q) == Some(ArticlePairs(params))
  {
    var fixed := [SP.Pair("_embed", "1"), SP.Pair("per_page", Decimal.IntToString(PerPage(params))), SP.Pair("page", Decimal.IntToString(Page(params)))];
    var query := new SP.SearchParams(fixed);
    SP.NamesAt(fixed);
    ghost var withCategory := fixed;
    if HasCategory(params) {
      var c := SP.Pair("categories", Decimal.IntToString(params.value.category.value));
      SP.SetPairSpec(query.list, c.name, c.value);
      query.Set(c.name, c.value);
      withCategory := fixed + [c];
    }
    assert query.list == withCategory;
    SP.NamesAt(withCategory);
    assert "search" !in SP.Names(withCategory);
    if HasSearch(params) {
      var p := SP.Pair("search", params.value.search.value);
      SP.SetPairSpec(query.list, p.name, p.value);
      query.Set(p.name, p.value);
    }
    assert query.list == ArticlePairs(params);
    q := query.ToString();
  }

  function ArticlesPath(params: Option<ArticleParams>): string
  {
    Base + "/article?" + SP.Serialize(ArticlePairs(params))
  }

  /** `fetchArticles(params)`: the list of articles, in the server's order. */
  method FetchArticles(base: string, params: Option<ArticleParams>, transport: Request -> Response<seq<Article>>)
    returns (r: Result<seq<Article>, FetchError>)
    ensures r == WpFetch(base, ArticlesPath(params), NoOptions, transport)
  {
    var q := ArticleQuery(params);
    r := WpFetch(base, Base + "/article?" + q, NoOptions, transport);
  }

  /** Decimal numbers are plain text for the form serializer. */
  lemma IntIsFormPlain(n: int)
    ensures Percent.IsFormPlain(Decimal.IntToString(n))
  {
  }

  /** `fetchArticles()` asks for page 1 of 10 embedded articles, and
      `fetchArticles({category: 5, search: "x"})` adds the filter and then the
      search term. */
  lemma ArticleQueryExamples()
    ensures ArticlePairs(None) == [SP.Pair("_embed", "1"), SP.Pair("per_page", "10"), SP.Pair("page", "1")]
    ensures ArticlePairs(Some(ArticleParams(None, None, Some(5), Some("x"))))
         == [SP.Pair("_embed", "1"), SP.Pair("per_page", "10"), SP.Pair("page", "1"),
             SP.Pair("categories", "5"), SP.Pair("search", "x")]
  {
    assert Decimal.IntToString(10) == "10" && Decimal.IntToString(1) == "1" && Decimal.IntToString(5) == "5";
  }

  // ---------------------------------------------------------------------
  // Lookups by slug and the category list.

  function ArticleBySlugPairs(slug: string): seq<SP.Pair>
  {
    [SP.Pair("_embed", "1"), SP.Pair("slug", slug)]
  }

  function ArticleBySlugPath(slug: string): string
  {
    Base + "/article?" + SP.Serialize(ArticleBySlugPairs(slug))
  }

  /** The server reads back `_embed=1` and exactly the slug that was asked for. */
  lemma ArticleBySlugQuery(slug: string)
    ensures SP.ParseQuery(SP.Serialize(ArticleBySlugPairs(slug))) == Some([SP.Pair("_embed", "1"), SP.Pair("slug", slug)])
  {
    SP.ParseSerialize(ArticleBySlugPairs(slug));
  }

  /** `fetchArticleBySlug(slug)`: the first matching article, or null when
      there is none; request errors propagate unchanged. */
  function FetchArticleBySlug(base: string, slug: string, transport: Request -> Response<seq<Article>>): (r: Result<Option<Article>, FetchError>)
    ensures var f := WpFetch(base, ArticleBySlugPath(slug), NoOptions, transport);
      && (r.Success? <==> f.Success?)
      && (f.Success? && f.value == [] ==> r.value.None?)
      && (f.Success? && f.value != [] ==> r.value == Some(f.value[0]))
      && (f.Failure? ==> r.error == f.error)
  {
    match WpFetch(base, ArticleBySlugPath(slug), NoOptions, transport)
    case Success(items) => Success(FirstOrNull(items))
    case Failure(e) => Failure(e)
  }

  /** The query of the category list. */
  const CategoriesQuery := "per_page=100"

  /** The category list query is the `per_page` parameter with the number
      100, so `PerPageQueryParsed(100)` says what a server reads from it. */
  lemma CategoriesQueryIsPerPage()
    ensures CategoriesQuery == "per_page=" + Decimal.IntToString(100)
  {
    assert Decimal.IntToString(100) == "100";
  }

  /** Plain text, such as a parameter name or a number, decodes to itself. */
  lemma DecodePlain(s: string)
    requires Percent.IsFormPlain(s)
    ensures Percent.FormDecode(s) == Some(s)
  {
    Percent.FormSerializePlain(s);
    Percent.FormDecodeSerialize(s);
  }

  /** A query `n=v` with a plain name and no `&` in the value parses to the
      name and the decoded value. */
  lemma PlainNameParsed(n: string, v: string)
    requires Percent.IsFormPlain(n) && '&' !in v && Percent.FormDecode(v).Some?
    ensures SP.ParseQuery(n + "=" + v) == Some([SP.Pair(n, Percent.FormDecode(v).value)])
  {
    DecodePlain(n);
    SP.ParseOnePair(n, v);
  }

  /** A query `n=v` of plain name and value parses to the pair itself. */
  lemma PlainPairParsed(n: string, v: string)
    requires Percent.IsFormPlain(n) && Percent.IsFormPlain(v)
    ensures SP.ParseQuery(n + "=" + v) == Some([SP.Pair(n, v)])
  {
    DecodePlain(v);
    PlainNameParsed(n, v);
  }

  /** A server reads `per_page=<k>` as the one parameter `per_page`,
      holding `k`; the category list asks this way for 100 categories. */
  lemma PerPageQueryParsed(k: int)
    ensures SP.ParseQuery("per_page=" + Decimal.IntToString(k)) == Some([SP.Pair("per_page", Decimal.IntToString(k))])
  {
    var v := Decimal.IntToString(k);
    PlainPairParsed("per_page", v);
    assert "per_page" + "=" + v == "per_page=" + v;
  }

  /** `fetchCategories()`. */
  function FetchCategories(base: string, transport: Request -> Response<seq<Category>>): Result<seq<Category>, FetchError>
  {
    WpFetch(base, Base + "/categories?" + CategoriesQuery, NoOptions, transport)
  }

  function CategoryBySlugPath(slug: string): string
  {
    Base + "/categories?slug=" + Percent.EncodeURIComponent(slug)
  }

  /** The slug is percent-encoded, so a server parsing the query sees one
      parameter, `slug`, holding exactly the original slug, whatever
      reserved characters or spaces it contains. */
  lemma CategoryBySlugQuery(slug: string)
    ensures SP.ParseQuery("slug=" + Percent.EncodeURIComponent(slug)) == Some([SP.Pair("slug", slug)])
  {
    Percent.FormDecodeEncodeURIComponent(slug);
    PlainNameParsed("slug", Percent.EncodeURIComponent(slug));
    assert "slug" + "=" == "slug=";
  }

  /** `fetchCategoryBySlug(slug)`: the first matching category, or null when
      there is none; request errors propagate unchanged. */
  function FetchCategoryBySlug(base: string, slug: string, transport: Request -> Response<seq<Category>>): (r: Result<Option<Category>, FetchError>)
    ensures var f := WpFetch(base, CategoryBySlugPath(slug), NoOptions, transport);
      && (r.Success? <==> f.Success?)
      && (f.Success? && f.value == [] ==> r.value.None?)
      && (f.Success? && f.value != [] ==> r.value == Some(f.value[0]))
      && (f.Failure? ==> r.error == f.error)
  {
    match WpFetch(base, CategoryBySlugPath(slug), NoOptions, transport)
    case Success(cats) => Success(FirstOrNull(cats))
    case Failure(e) => Failure(e)
  }

  /** An ok response with an empty list is "not found", never an error, for
      both lookups. */
  lemma SlugLookupNotFound(base: string, slug: string, text: Option<string>, status: int)
    requires IsOk(status)
    ensures FetchArticleBySlug(base, slug, _ => Response(status, text, Some([]))) == Success(None)
    ensures FetchCategoryBySlug(base, slug, _ => Response(status, text, Some([]))) == Success(None)
  {
  }

  // ---------------------------------------------------------------------
  // Projection helpers.

  /** `article._embedded?.["wp:featuredmedia"]?.[0]` */
  function FirstMedia(article: Article): (r: Option<Media>)
    ensures r.Some? <==> article.embedded.Some? && article.embedded.value.featuredMedia.Some?
                         && |article.embedded.value.featuredMedia.value| > 0
    ensures r.Some? ==> r.value == article.embedded.value.featuredMedia.value[0]
  {
    match article.embedded
    case None => None
    case Some(e) =>
      match e.featuredMedia
      case None => None
      case Some(media) => FirstOrNull(media)
  }

  /** `media.media_details?.sizes?.medium?.source_url` */
  function MediumUrl(media: Media): (r: Option<string>)
    ensures r.Some? <==> media.mediaDetails.Some? && media.mediaDetails.value.sizes.Some?
                         && "medium" in media.mediaDetails.value.sizes.value
    ensures r.Some? ==> r.value == media.mediaDetails.value.sizes.value["medium"].sourceUrl
  {
    match media.mediaDetails
    case None => None
    case Some(details) =>
      match details.sizes
      case None => None
      case Some(sizes) => if "medium" in sizes then Some(sizes["medium"].sourceUrl) else None
  }

  datatype FeaturedImage = FeaturedImage(url: Option<string>, alt: string)

  /** `getFeaturedImage(article)`: the URL is the first featured media's medium
      size, else that media's own URL, else absent; the alt text is the
      media's, when it has one (even empty), else the article's title. */
  function GetFeaturedImage(article: Article): (r: FeaturedImage)
    ensures FirstMedia(article).None? ==> r.url.None?
    ensures FirstMedia(article).Some? && MediumUrl(FirstMedia(article).value).Some? ==>
              r.url == MediumUrl(FirstMedia(article).value)
    ensures FirstMedia(article).Some? && MediumUrl(FirstMedia(article).value).None? ==>
              r.url == FirstMedia(article).value.sourceUrl
    ensures FirstMedia(article).Some? && FirstMedia(article).value.altText.Some? ==>
              r.alt == FirstMedia(article).value.altText.value
    ensures FirstMedia(article).None? || FirstMedia(article).value.altText.None? ==>
              r.alt == article.title.rendered
  {
    var media := FirstMedia(article);
    var url := if media.None? then None
               else if MediumUrl(media.value).Some? then MediumUrl(media.value)
               else media.value.sourceUrl;
    var alt := if media.Some? && media.value.altText.Some? then media.value.altText.value else article.title.rendered;
    FeaturedImage(url, alt)
  }

  /** Where a featured-image URL can come from: only the first featured
      media, through its medium size or its own URL. */
  lemma FeaturedImageUrlSource(article: Article)
    requires GetFeaturedImage(article).url.Some?
    ensures var m := article.embedded.value.featuredMedia.value[0];
      || (m.mediaDetails.Some? && m.mediaDetails.value.sizes.Some? && "medium" in m.mediaDetails.value.sizes.value
          && GetFeaturedImage(article).url.value == m.mediaDetails.value.sizes.value["medium"].sourceUrl)
      || GetFeaturedImage(article).url == m.sourceUrl
  {
  }

  /** An article without `_embedded` gets no URL and its title as alt text. */
  lemma FeaturedImageWithoutEmbedded(article: Article)
    requires article.embedded.None?
    ensures GetFeaturedImage(article) == FeaturedImage(None, article.title.rendered)
  {
  }

  /** `getAuthor(article)`: the first embedded author, or absent. */
  function GetAuthor(article: Article): (r: Option<User>)
    ensures r.Some? <==> article.embedded.Some? && article.embedded.value.author.Some?
                         && |article.embedded.value.author.value| > 0
    ensures r.Some? ==> r.value == article.embedded.value.author.value[0]
  {
    match article.embedded
    case None => None
    case Some(e) =>
      match e.author
      case None => None
      case Some(authors) => FirstOrNull(authors)
  }
}
