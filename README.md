# WordPress REST client — Dafny model

This project models `src/lib/wp.ts`, the small client a Next.js site uses to
read articles, categories and media from a WordPress REST API
(`/wp-json/wp/v2`). It covers:

- **`wpFetch`.** The base URL is joined to the path after dropping one
  trailing slash. The GET request asks for JSON, with `no-store` as the
  default cache mode. A 2xx status yields the decoded body. Any other status
  throws an error that reads `WP fetch failed <status>: <url>` followed by
  a newline and the body text, which is empty when the body cannot be read.
- **`fetchArticles`.** It builds a `URLSearchParams` object from `_embed`,
  `per_page` and `page`, then calls `set` for `categories` and for `search`
  when they are truthy. The object is serialized as
  `application/x-www-form-urlencoded`, following section 5.2 of the WHATWG
  URL Standard. The model keeps this shape: class `SearchParams.SearchParams`
  holds the ordered list of name/value pairs, its method `Set` updates that
  list in place, and `WordPress.ArticleQuery` is the method that builds the
  query step by step.
- **`fetchArticleBySlug` and `fetchCategoryBySlug`.** The first puts the
  slug in a `URLSearchParams` object. The second encodes it with
  `encodeURIComponent`, as section 19.2.6.5 of ECMA-262 defines it: UTF-8
  octets, with everything outside `A-Z a-z 0-9 - _ . ! ~ * ' ( )` written
  as `%XX`. Both return the first element of the decoded list, or null when
  the list is empty.
- **`getFeaturedImage` and `getAuthor`.** They walk the optional
  `_embedded` record.

The module structure:

- `Wrappers` has `Option` and `Result`.
- `Utf8` encodes characters to octets and decodes them strictly.
- `Text` and `Decimal` hold string search and `String(n)` for integers.
- `Percent` holds `encodeURIComponent`, the form-urlencoded byte serializer
  and the form decoder a server applies.
- `SearchParams` holds the `URLSearchParams` list, its `set`, its
  serializer and the WHATWG query parser.
- `WordPress` holds the client itself.

The client's query-building promises are stated in terms of what a server
reads back from the query. For example, `ParseQuery(query) ==
Some(pairs)`, and the server recovers the slug from the encoded slug.

The network is a parameter. `transport: Request -> Response<T>` takes the
request (URL, cache mode, `next` hints and `Accept` header) and returns a
status, the body text (absent when reading fails) and the decoded JSON
(absent when the body is not JSON).

## Model

| member | source | states |
|---|---|---|
| WordPress.RequestUrl | src/lib/wp.ts:13 | The URL ends with the path. What precedes the path is the base itself, or the base minus exactly one trailing `/`. The slash is removed precisely when the base ends in `/`. |
| WordPress.NoDoubleSlashAtJoin | src/lib/wp.ts:13 | Take a base ending in one `/` and a path starting with `/`. The URL has exactly one `/` at the join: the base's slash is dropped and the path's slash is not doubled. |
| WordPress.WpFetch | src/lib/wp.ts:12-26 | The request goes to `RequestUrl(base, path)` with cache mode `opts.cache ?? "no-store"`, `next` passed through, and `Accept: application/json`. The result is a success exactly when the status is in 200–299 and the body decodes, and the success carries the decoded body. A non-ok status fails with `ErrorMessage(status, url, text ?? "")`. |
| WordPress.ErrorMessageCarries | src/lib/wp.ts:23 | A reader of the error message recovers the exact status, whatever its sign or size. The reader also recovers the exact URL whenever the URL holds no newline. |
| WordPress.WpFetchNotOk | src/lib/wp.ts:21-24 | Any status outside 200–299 makes `wpFetch` fail with a request error. Its message carries that status and the URL that was requested. |
| WordPress.FirstOrNull | src/lib/wp.ts:85 | `items[0] ?? null`: absent exactly when the list is empty, and otherwise the first element. |
| WordPress.ArticlePairsFixed | src/lib/wp.ts:71-75 | The article query starts with `_embed=1`, then `per_page`, then `page`. These default to 10 and 1 only when the argument or the field is absent, so an explicit value, including 0, is kept. |
| WordPress.ArticlePairsOptional | src/lib/wp.ts:76-77 | `categories` is present exactly when the category is non-zero, and `search` exactly when the term is non-empty. Each holds its single value. Both come after the fixed parameters, `categories` at position 3 and before `search`, and `search` last. |
| WordPress.ArticleQuery | src/lib/wp.ts:71-78 | The query built by a `URLSearchParams` constructor followed by the conditional `set` calls is the serialization of `ArticlePairs`. A server parsing it reads back exactly those pairs, in that order. |
| WordPress.FetchArticles | src/lib/wp.ts:65-80 | `fetchArticles` is `wpFetch` of `/wp-json/wp/v2/article?` followed by the query that `ArticlePairs` describes. |
| WordPress.ArticleQueryExamples | src/lib/wp.ts:71-77 | With no parameters the query is `_embed=1, per_page=10, page=1`. With `{category: 5, search: "x"}` it also has `categories=5` and then `search=x`. |
| WordPress.ArticleBySlugQuery | src/lib/wp.ts:83 | The by-slug article query parses back to `_embed=1` and the exact slug, whatever characters it contains. |
| WordPress.FetchArticleBySlug | src/lib/wp.ts:82-86 | It succeeds exactly when the fetch does. An empty list gives null. A non-empty list gives its first article. Errors propagate unchanged. |
| WordPress.CategoriesQueryIsPerPage | src/lib/wp.ts:90 | The category list query is the `per_page` parameter with the number 100. |
| WordPress.PerPageQueryParsed | src/lib/wp.ts:90 | A server reads `per_page=<k>` as the single parameter `per_page` holding `k`. |
| WordPress.CategoryBySlugQuery | src/lib/wp.ts:94 | After `encodeURIComponent`, a server parsing `slug=<encoded>` sees one parameter, `slug`, that holds exactly the original slug. |
| WordPress.FetchCategoryBySlug | src/lib/wp.ts:93-96 | It succeeds exactly when the fetch does. An empty list gives null. A non-empty list gives its first category. Errors propagate unchanged. |
| WordPress.SlugLookupNotFound | src/lib/wp.ts:84-85 | An ok response with an empty list makes either lookup succeed with null, never fail. |
| WordPress.FirstMedia | src/lib/wp.ts:99 | `_embedded?.["wp:featuredmedia"]?.[0]` is present exactly when the embedded record, the media list and its first element all exist, and it is that first element. |
| WordPress.MediumUrl | src/lib/wp.ts:101 | `media_details?.sizes?.medium?.source_url` is present exactly when the details, the sizes map and its `medium` entry exist, and it is that entry's URL. |
| WordPress.GetFeaturedImage | src/lib/wp.ts:98-105 | The URL is the medium size's URL, else the media's own URL, else absent (also when there is no media). The alt text is the media's `alt_text` whenever that field is present, even when empty, and otherwise the article title. |
| WordPress.FeaturedImageUrlSource | src/lib/wp.ts:99-103 | Any URL returned comes from the first featured media, either from its medium size or from its own URL. |
| WordPress.FeaturedImageWithoutEmbedded | src/lib/wp.ts:99-104 | An article without `_embedded` gets no URL and its title as alt text. |
| WordPress.GetAuthor | src/lib/wp.ts:107-109 | The first embedded author when the list exists and is non-empty, and absent otherwise. |
| SearchParams.SetPairSpec | src/lib/wp.ts:76-77 | `set(name, value)` leaves exactly one `name` entry, holding `value`. The entries with other names keep their values and order. An existing `name` keeps its position. A new name goes at the end. |
| SearchParams.SearchParams.Set | src/lib/wp.ts:76-77 | `query.set` replaces the object's list with `SetPair` of the old list. |
| SearchParams.SearchParams.ToString | src/lib/wp.ts:79 | `query.toString()` is a string that a server parses back to the object's list of pairs. |
| SearchParams.ParseSerialize | src/lib/wp.ts:79 | Parsing the form-urlencoded serialization of any list of pairs gives back that list, names and values included. |
| Percent.FormDecodeSerialize | src/lib/wp.ts:79 | Decoding the form-urlencoding of any string gives the string back. |
| Percent.EncodeURIComponent | src/lib/wp.ts:94 | Every character of the output is in the unreserved set or is `%`. So `&`, `=` and `+` never appear, and the encoded slug cannot split or extend the query. |
| Percent.FormDecodeEncodeURIComponent | src/lib/wp.ts:94 | A server's form decoding of `encodeURIComponent(s)` gives `s` back, for every string. |
| Utf8.DecodeEncode | src/lib/wp.ts:94 | Strict UTF-8 decoding inverts the UTF-8 encoding that both encoders apply before percent-encoding. |
| Decimal.ParseIntToString | src/lib/wp.ts:73-76 | The decimal text that `String(n)` gives for an integer parses back to `n`. |
| Decimal.IntToStringInjective | src/lib/wp.ts:73-76 | Different integers give different parameter values. |

## Left out

- The `fetch` call, `await` and asynchrony: the transport is the function parameter `transport`, which is deterministic.
- JSON parsing and the unchecked `as T` cast: the transport returns the decoded value, or nothing when the body is not JSON. No schema is checked.
- Reading `WORDPRESS_URL` and the error thrown when it is unset: the base URL is a parameter, and no emptiness check is made on it.
- The `cache` and `next.revalidate` hints are passed into the request uninterpreted.
- The type declarations carry no behaviour: they are datatypes with `Option` fields, with `sizes` as a map keyed by size name.
- Decimal.IntToString: models `String(n)` for integers only. It leaves out the exponent form JavaScript uses at 10^21 and above, fractions, `NaN` and `Infinity`, all of which a caller could pass as a `number`.
- Percent.FormDecode: is the server-side decoding, made strict. Invalid UTF-8 yields no value instead of U+FFFD replacement characters, and a `%` not followed by two hex digits is kept literally, as WHATWG does.
- `encodeURIComponent` throws `URIError` on a lone surrogate. Dafny characters are Unicode scalar values, so that input cannot occur in the model.
- WordPress.FetchCategories has no contract of its own: it is `wpFetch` of a fixed path, and its query is described by `CategoriesQueryIsPerPage` with `PerPageQueryParsed`.
- Parsing of the full URL (scheme, host, path) is not modelled. The base is treated as opaque text in front of the path.
