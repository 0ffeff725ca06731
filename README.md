# ManhwaWeb source adapter — a Dafny model

This project models the core of the ManhwaWeb catalogue adapter (`ManhwaWeb.kt`), which turns the
backend's JSON responses into the reader application's lists and builds the backend's request urls:

- **Aggregation** (`aggregation.dfy`). Two endpoints return overlapping buckets:
  - The "popular" endpoint returns `weekly` and `total` buckets. They are concatenated and
    deduplicated by slug, keeping the first occurrence. The result is stably sorted, most views first.
  - The "latest" endpoint returns `esp`, `raw18` and `esp18` buckets. They are deduplicated by the
    text `type + slug` and sorted with the most recent chapter date first.
  - Both endpoints report that there is no next page.
  - Search results are passed through with the backend's own `hasNextPage` flag.
- **Collections** (`collections.dfy`). Kotlin's `distinctBy` (first occurrence wins) and its stable
  `sortedByDescending`. Stability is stated as "for every key, the elements with that key keep their
  relative order".
- **Chapters** (`chapters.dfy`). Both chapter tracks are tagged, "Esp" for translated and "Raw" for raw.
  - By default, a raw chapter is dropped when some translated chapter has the same number.
  - With the "show all raws" preference, nothing is dropped.
  - The result is the translated chapters followed by the kept raw chapters, stably sorted by number,
    highest first.
- **Endpoints** (`endpoints.dfy`). The backend host, shared by every request url.
- **Pages** (`pages.dfy`).
  - The page list keeps the non-blank image urls and numbers them from 0.
  - The details, chapter-list and page-list requests take the last path segment of the stored url
    (after removing one trailing `/`).
- **Search** (`search.dfy`). The library url is built step by step with a mutable url builder:
  - first `buscar` with the free text;
  - then one parameter group for each known filter, in the order of the filter list;
  - finally `page`, set to `page - 1` with 32-bit wrap-around.
  - The genre filter joins the ids of its ticked genres with the letter `a`.
  - The sort filter adds `order_dir` and then `order_item`.
  - Any other entry of the filter list adds nothing.
- **Text** (`text.dfy`). The Kotlin string functions these operations use (`isBlank`, `removeSuffix`,
  `substringAfterLast`, `joinToString`, `Int.toString`), with their inverses: splitting and decimal
  parsing.

Two behaviours of the search code are worth noting:
- The code always adds `tipo`, `demografia`, `estado` and `erotico` with the filter's current uri
  part (`ManhwaWeb.kt:83-86`). No "any" value is skipped.
- On a sort filter without a state, `filter.state!!` throws (`ManhwaWeb.kt:97`). The model returns
  `Err(NullSortState)` for this case (`Search.SearchQueryFails`).

## Model

| member | source | states |
|---|---|---|
| Collections.FlattenAppend | src/es/manhwaweb/src/eu/kanade/tachiyomi/extension/es/manhwaweb/ManhwaWeb.kt:57-70 | bucket concatenation (`weekly + total`, `esp + raw18 + esp18`) is associative: flattening two lists of buckets is flattening each and concatenating |
| Collections.DistinctFrom | src/es/manhwaweb/src/eu/kanade/tachiyomi/extension/es/manhwaweb/ManhwaWeb.kt:58 | keeps no key that was already seen and no key twice; the keys kept are exactly the input's keys minus the seen ones; the result is never longer than the input |
| Collections.DistinctFromFirstOccurrence | src/es/manhwaweb/src/eu/kanade/tachiyomi/extension/es/manhwaweb/ManhwaWeb.kt:58 | every element kept by `distinctBy` is the first element of the input with its key |
| Collections.DistinctBy | src/es/manhwaweb/src/eu/kanade/tachiyomi/extension/es/manhwaweb/ManhwaWeb.kt:58 | `distinctBy` keeps no key twice, keeps every key of the input, and never lengthens it |
| Collections.DistinctByRepeated | src/es/manhwaweb/src/eu/kanade/tachiyomi/extension/es/manhwaweb/ManhwaWeb.kt:57-58 | appending a bucket whose keys all appeared earlier leaves the deduplicated list unchanged |
| Collections.MergeRepeated | src/es/manhwaweb/src/eu/kanade/tachiyomi/extension/es/manhwaweb/ManhwaWeb.kt:57-59 | merging a second bucket whose keys all appeared in the first gives the same list, element for element and in order, as merging the first bucket alone |
| Collections.InsertDesc | src/es/manhwaweb/src/eu/kanade/tachiyomi/extension/es/manhwaweb/ManhwaWeb.kt:59 | inserting into a non-increasing list keeps it non-increasing, makes it one longer, and puts either the new element or the old head first |
| Collections.InsertDescPermutation | src/es/manhwaweb/src/eu/kanade/tachiyomi/extension/es/manhwaweb/ManhwaWeb.kt:59 | the insertion adds exactly the inserted element to the multiset of the list |
| Collections.SortedByDescending | src/es/manhwaweb/src/eu/kanade/tachiyomi/extension/es/manhwaweb/ManhwaWeb.kt:59 | the result is non-increasing by the key and is a permutation of the input |
| Collections.SortedByDescendingStable | src/es/manhwaweb/src/eu/kanade/tachiyomi/extension/es/manhwaweb/ManhwaWeb.kt:59 | the sort is stable: for each key value, the elements with that key keep their input order |
| Collections.GroupOrder | src/es/manhwaweb/src/eu/kanade/tachiyomi/extension/es/manhwaweb/ManhwaWeb.kt:156 | in a stable sort of `a + b`, an element from `a` comes before an element from `b` that has an equal key |
| Collections.Merge | src/es/manhwaweb/src/eu/kanade/tachiyomi/extension/es/manhwaweb/ManhwaWeb.kt:57-59 | concatenate, `distinctBy`, stable `sortedByDescending`: distinct keys, each element the first of its key, every key kept, non-increasing, a permutation of the deduplicated list, stable |
| Aggregation.PopularMangaParse | src/es/manhwaweb/src/eu/kanade/tachiyomi/extension/es/manhwaweb/ManhwaWeb.kt:55-63 | no next page; slugs are distinct; each entry is the first of its slug in `weekly + total`; every slug is present; views are non-increasing; the list is a permutation of the deduplicated list; equal view counts keep their order |
| Aggregation.LatestUpdatesParse | src/es/manhwaweb/src/eu/kanade/tachiyomi/extension/es/manhwaweb/ManhwaWeb.kt:67-75 | no next page; `type + slug` is distinct; each entry is the first of its key in `esp + raw18 + esp18`; every key is present; dates are non-increasing; the list is a permutation of the deduplicated list; equal dates keep their order |
| Aggregation.SearchMangaParse | src/es/manhwaweb/src/eu/kanade/tachiyomi/extension/es/manhwaweb/ManhwaWeb.kt:124-128 | the entries and the `hasNextPage` flag are exactly those of the payload |
| Aggregation.PopularFirstWins | src/es/manhwaweb/src/eu/kanade/tachiyomi/extension/es/manhwaweb/ManhwaWeb.kt:57-59 | when `weekly` and `total` hold one entry each with the same slug, the result is the `weekly` entry, whatever the view counts |
| Aggregation.PopularRepeatedBucket | src/es/manhwaweb/src/eu/kanade/tachiyomi/extension/es/manhwaweb/ManhwaWeb.kt:57-58 | a `total` bucket whose slugs all appear in `weekly` adds nothing to the popular list: the list is the same, entry for entry and in order |
| Aggregation.LatestKeyConcatenates | src/es/manhwaweb/src/eu/kanade/tachiyomi/extension/es/manhwaweb/ManhwaWeb.kt:70 | the key is the concatenated text, so type `ab` with slug `c` and type `a` with slug `bc` collapse into the first entry |
| Chapters.ToSChapter | src/es/manhwaweb/src/eu/kanade/tachiyomi/extension/es/manhwaweb/ManhwaWeb.kt:159-165 | the chapter number, url and track tag are copied; the upload date is `createdAt`, or 0 when it is missing |
| Chapters.ToSChapters | src/es/manhwaweb/src/eu/kanade/tachiyomi/extension/es/manhwaweb/ManhwaWeb.kt:146-147 | the tagged list has one chapter per payload entry, position by position |
| Chapters.FilteredRaws | src/es/manhwaweb/src/eu/kanade/tachiyomi/extension/es/manhwaweb/ManhwaWeb.kt:149-154 | with "show all raws" every raw chapter is kept; otherwise a raw chapter is kept if and only if it is a raw chapter whose number no translated chapter has |
| Chapters.Concatenated | src/es/manhwaweb/src/eu/kanade/tachiyomi/extension/es/manhwaweb/ManhwaWeb.kt:146-156 | one "Esp" chapter per translated entry, in payload order, then only "Raw" chapters; the length is at most the two tracks together, and exactly that with "show all raws" |
| Chapters.ConcatenatedTail | src/es/manhwaweb/src/eu/kanade/tachiyomi/extension/es/manhwaweb/ManhwaWeb.kt:149-156 | after the translated chapters come the kept raws: with "show all raws" exactly the raw track in payload order, otherwise no chapter more often than the raw track has it |
| Chapters.WithoutNumbers | src/es/manhwaweb/src/eu/kanade/tachiyomi/extension/es/manhwaweb/ManhwaWeb.kt:152-153 | a chapter is kept if and only if it is in the input and its number is not in the set |
| Chapters.WithoutNumbersAppend | src/es/manhwaweb/src/eu/kanade/tachiyomi/extension/es/manhwaweb/ManhwaWeb.kt:153 | `filter` keeps the input order: filtering a concatenation is concatenating the filtered parts |
| Chapters.WithoutNumbersCount | src/es/manhwaweb/src/eu/kanade/tachiyomi/extension/es/manhwaweb/ManhwaWeb.kt:153 | `filter` keeps every copy of a chapter whose number is not in the set and no copy of the others |
| Chapters.ChapterListParse | src/es/manhwaweb/src/eu/kanade/tachiyomi/extension/es/manhwaweb/ManhwaWeb.kt:144-157 | chapter numbers are non-increasing; the list is a permutation of the translated chapters followed by the kept raw chapters; chapters with equal numbers keep that order |
| Chapters.NumberSetOfTrack | src/es/manhwaweb/src/eu/kanade/tachiyomi/extension/es/manhwaweb/ManhwaWeb.kt:152 | the number set of the tagged translated chapters is the set of numbers in the translated track |
| Chapters.KeepsTranslated | src/es/manhwaweb/src/eu/kanade/tachiyomi/extension/es/manhwaweb/ManhwaWeb.kt:146-156 | every translated chapter is in the list, whatever the preference |
| Chapters.DropsShadowedRaws | src/es/manhwaweb/src/eu/kanade/tachiyomi/extension/es/manhwaweb/ManhwaWeb.kt:151-153 | by default, no raw chapter in the list has the number of a translated chapter |
| Chapters.KeepsUnshadowedRaws | src/es/manhwaweb/src/eu/kanade/tachiyomi/extension/es/manhwaweb/ManhwaWeb.kt:151-153 | by default, every raw chapter whose number no translated chapter has is in the list |
| Chapters.AllRawsKept | src/es/manhwaweb/src/eu/kanade/tachiyomi/extension/es/manhwaweb/ManhwaWeb.kt:149-156 | with "show all raws", the list is a permutation of all translated and all raw chapters, one per payload entry |
| Chapters.TracksTagged | src/es/manhwaweb/src/eu/kanade/tachiyomi/extension/es/manhwaweb/ManhwaWeb.kt:146-164 | each chapter in the list is the conversion of an entry of the track its tag names |
| Chapters.TranslatedBeforeRaw | src/es/manhwaweb/src/eu/kanade/tachiyomi/extension/es/manhwaweb/ManhwaWeb.kt:156 | among chapters with equal numbers, every translated chapter comes before every raw one |
| Pages.NonBlank | src/es/manhwaweb/src/eu/kanade/tachiyomi/extension/es/manhwaweb/ManhwaWeb.kt:174 | no url in the result is blank |
| Pages.PageListParse | src/es/manhwaweb/src/eu/kanade/tachiyomi/extension/es/manhwaweb/ManhwaWeb.kt:172-176 | page `i` has index `i`, and its image url is not blank |
| Pages.PageListKeepsNonBlank | src/es/manhwaweb/src/eu/kanade/tachiyomi/extension/es/manhwaweb/ManhwaWeb.kt:174-175 | the page urls are a subsequence of the images; there are as many pages as non-blank images; every non-blank image has a page |
| Pages.PageListExample | src/es/manhwaweb/src/eu/kanade/tachiyomi/extension/es/manhwaweb/ManhwaWeb.kt:174-175 | `["", "http://a", "", "http://b"]` gives pages 0 and 1 with the two urls |
| Pages.Slug | src/es/manhwaweb/src/eu/kanade/tachiyomi/extension/es/manhwaweb/ManhwaWeb.kt:133 | the slug contains no `/`; it is the whole path when there is no `/`, otherwise the path is the rest, a `/` and the slug |
| Pages.SlugOfPath | src/es/manhwaweb/src/eu/kanade/tachiyomi/extension/es/manhwaweb/ManhwaWeb.kt:133 | for `prefix/segment`, with or without a trailing `/`, the slug is the segment |
| Pages.MangaDetailsUrl | src/es/manhwaweb/src/eu/kanade/tachiyomi/extension/es/manhwaweb/ManhwaWeb.kt:132-142 | the details (and chapter-list) request goes to the backend host, and its last path segment reads back as the stored url's slug |
| Pages.PageListUrl | src/es/manhwaweb/src/eu/kanade/tachiyomi/extension/es/manhwaweb/ManhwaWeb.kt:167-170 | the page-list request goes to the backend host, and its last path segment reads back as the stored chapter url's slug |
| Pages.MangaDetailsUrlOfPath | src/es/manhwaweb/src/eu/kanade/tachiyomi/extension/es/manhwaweb/ManhwaWeb.kt:132-142 | the details (and chapter-list) request for `prefix/slug`, with or without a trailing `/`, is `/manhwa/see/slug` on the api host |
| Pages.PageListUrlOfPath | src/es/manhwaweb/src/eu/kanade/tachiyomi/extension/es/manhwaweb/ManhwaWeb.kt:167-170 | the page-list request for `prefix/slug`, with or without a trailing `/`, is `/chapters/see/slug` on the api host |
| Search.PreviousPage | src/es/manhwaweb/src/eu/kanade/tachiyomi/extension/es/manhwaweb/ManhwaWeb.kt:106 | two's-complement `page - 1`: the result is congruent to `page - 1` modulo 2^32; it equals `page - 1` except that the smallest 32-bit value wraps to the largest |
| Search.FiltersParamsAppend | src/es/manhwaweb/src/eu/kanade/tachiyomi/extension/es/manhwaweb/ManhwaWeb.kt:81-104 | filters contribute in list order: the parameters for `a + b` are those for `a` followed by those for `b`, and the first failure wins |
| Search.FiltersParamsOk | src/es/manhwaweb/src/eu/kanade/tachiyomi/extension/es/manhwaweb/ManhwaWeb.kt:81-104 | a filter list succeeds if and only if each of its filters does |
| Search.SearchQueryFails | src/es/manhwaweb/src/eu/kanade/tachiyomi/extension/es/manhwaweb/ManhwaWeb.kt:94-97 | the request fails if and only if some sort filter in the list has no state |
| Search.FilterParams | src/es/manhwaweb/src/eu/kanade/tachiyomi/extension/es/manhwaweb/ManhwaWeb.kt:82-103 | only a sort selector without a state fails (the `!!`); every parameter name a filter adds is one of the known names; any other filter adds nothing |
| Search.AddFilter | src/es/manhwaweb/src/eu/kanade/tachiyomi/extension/es/manhwaweb/ManhwaWeb.kt:82-103 | the builder gains exactly the parameters `FilterParams` gives, or nothing and a failure for a sort selector without a state |
| Search.SearchQuery | src/es/manhwaweb/src/eu/kanade/tachiyomi/extension/es/manhwaweb/ManhwaWeb.kt:78-106 | the request fails exactly when the filters do; otherwise it starts with `buscar` and the text and ends with `page` and `PreviousPage(page)` |
| Search.SearchQueryShape | src/es/manhwaweb/src/eu/kanade/tachiyomi/extension/es/manhwaweb/ManhwaWeb.kt:78-106 | the query is `buscar` with the text, then the filters' parameters, then `page` |
| Search.SearchQueryPage | src/es/manhwaweb/src/eu/kanade/tachiyomi/extension/es/manhwaweb/ManhwaWeb.kt:106 | the last parameter is `page`, and it parses back to `PreviousPage(page)`: the requested page minus one, wrapping at the 32-bit minimum |
| Search.SearchQueryFilterAt | src/es/manhwaweb/src/eu/kanade/tachiyomi/extension/es/manhwaweb/ManhwaWeb.kt:81-104 | a filter's parameters appear at its own position: after `buscar` and after the parameters of the filters before it |
| Search.OtherFilterIgnored | src/es/manhwaweb/src/eu/kanade/tachiyomi/extension/es/manhwaweb/ManhwaWeb.kt:102 | inserting an entry that is not a search filter anywhere in the list leaves the query unchanged |
| Search.SearchQueryNames | src/es/manhwaweb/src/eu/kanade/tachiyomi/extension/es/manhwaweb/ManhwaWeb.kt:79-106 | every parameter name is one of `buscar`, `tipo`, `demografia`, `estado`, `erotico`, `generes`, `order_dir`, `order_item`, `page` |
| Search.CheckedIds | src/es/manhwaweb/src/eu/kanade/tachiyomi/extension/es/manhwaweb/ManhwaWeb.kt:88-89 | at most one id per genre, and none exactly when no box is ticked |
| Search.GenreValue | src/es/manhwaweb/src/eu/kanade/tachiyomi/extension/es/manhwaweb/ManhwaWeb.kt:87-90 | the `generes` value is empty exactly when no box is ticked |
| Search.CheckedIdsMembers | src/es/manhwaweb/src/eu/kanade/tachiyomi/extension/es/manhwaweb/ManhwaWeb.kt:88-89 | an id is selected if and only if some ticked genre has it |
| Search.CheckedIdsAppend | src/es/manhwaweb/src/eu/kanade/tachiyomi/extension/es/manhwaweb/ManhwaWeb.kt:88-89 | the ticked ids keep the order of the genre list: the ids of a concatenation are the ids of each part, one after the other |
| Search.GenreValueRoundTrip | src/es/manhwaweb/src/eu/kanade/tachiyomi/extension/es/manhwaweb/ManhwaWeb.kt:87-91 | with no genre ticked the value is empty; otherwise splitting it at `a` and parsing the pieces gives back the ticked ids in order |
| Search.UrlBuilder.AddQueryParameter | src/es/manhwaweb/src/eu/kanade/tachiyomi/extension/es/manhwaweb/ManhwaWeb.kt:79 | appends exactly one parameter and leaves the earlier ones in place |
| Search.SearchMangaRequest | src/es/manhwaweb/src/eu/kanade/tachiyomi/extension/es/manhwaweb/ManhwaWeb.kt:77-109 | the builder loop succeeds exactly when `SearchQuery` does; the url is then the library url with that query, and otherwise the error is the missing sort state |
| Text.RemoveSuffix | src/es/manhwaweb/src/eu/kanade/tachiyomi/extension/es/manhwaweb/ManhwaWeb.kt:133 | if the suffix is present, the result followed by the suffix is the input; otherwise the input is unchanged |
| Text.SubstringAfterLast | src/es/manhwaweb/src/eu/kanade/tachiyomi/extension/es/manhwaweb/ManhwaWeb.kt:133 | the result is a suffix of the input without the character; it follows the last occurrence, or is the whole input when the character does not occur |
| Text.IsBlankAppend | src/es/manhwaweb/src/eu/kanade/tachiyomi/extension/es/manhwaweb/ManhwaWeb.kt:174 | `isBlank` holds for a concatenation exactly when it holds for both parts: one non-whitespace character anywhere makes a url non-blank |
| Text.Join | src/es/manhwaweb/src/eu/kanade/tachiyomi/extension/es/manhwaweb/ManhwaWeb.kt:90 | no pieces join to the empty string; the length is at least the first piece plus one character per further piece; on separator-free pieces the separator occurs exactly when there are two or more pieces (the exact shape is fixed by the round trip `SplitJoin`) |
| Text.IntToString | src/es/manhwaweb/src/eu/kanade/tachiyomi/extension/es/manhwaweb/ManhwaWeb.kt:106 | non-empty, digits only except a leading `-`, which is there exactly for negative values |
| Text.SplitJoin | src/es/manhwaweb/src/eu/kanade/tachiyomi/extension/es/manhwaweb/ManhwaWeb.kt:90 | joining at least one piece that does not contain the separator, then splitting, gives back the pieces |
| Text.ParseIntToString | src/es/manhwaweb/src/eu/kanade/tachiyomi/extension/es/manhwaweb/ManhwaWeb.kt:90 | the decimal rendering of an integer parses back to that integer |

## Left out

- The HTTP client, the rate limit, the `Referer` header and the GET requests (ManhwaWeb.kt:46-53, 65) are left out. Requests are modelled as the url they build.
- JSON decoding is left out. A payload is given as an already-decoded record; its decode failures and unknown extra fields are not modelled.
- The mapping of catalogue entries to the host's manga records (`toSManga`) and `mangaDetailsParse` are left out. The merged lists carry the payload records themselves.
- The filter classes, their option tables, `toUriPart()`, `selected` and `getFilterList` are left out. A filter's uri part and sort property are given as strings.
- Genre ids are modelled as integers written in decimal.
- Percent-encoding of query values by the url builder is left out. The query is modelled as a list of (name, value) pairs.
- The preference screen and the preference store are left out. The "show all raws" preference is a parameter of `ChapterListParse`.
- Chapters.ToSChapter: the chapter name (`"Capítulo "` with the number written as a float and a trailing `.0` removed, ManhwaWeb.kt:160) is not modelled, because it needs Kotlin's float-to-text conversion.
- Chapters.ToSChapter: `setUrlWithoutDomain` is not modelled. The url is copied as it is.
- Chapter numbers, view counts and dates are compared as mathematical reals. Float rounding, NaN and `-0.0` are not modelled.
- The host's chapter record is built with `apply` on a mutable object. Here it is an immutable record with the same fields.
- `imageUrlParse`, which always throws (ManhwaWeb.kt:191), is left out.
- `getMangaUrl` and `getChapterUrl` are left out; they only concatenate the site url.
- The exception thrown by `state!!` is modelled as an error result. The model does not capture that it unwinds the caller.
