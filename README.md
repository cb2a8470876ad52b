# Documentation site: search endpoint and docs sidebar

This project models the two pieces of logic at the centre of a Next.js documentation site.

- **The vector-search API route** (`POST` and `GET` on `/api/search`). `POST` does the following:
  - checks a per-client rate limit of 20 requests per 60 seconds;
  - answers 429 with a `retryAfter` hint and a `Retry-After` header when the client is over the limit;
  - parses the JSON body and validates `query`: it must be present, a non-empty string, and at most 500 UTF-16 code units long;
  - clamps `limit` to 1..20, with a default of 10;
  - picks the embedding provider from the environment, defaulting to `local`;
  - runs the search and answers 200 with the results, their count and the query;
  - turns any failure inside its `try` block into a 500 carrying the error's message.

  `GET` always answers 405.
- **The documentation sidebar**:
  - groups the articles into folders (an empty folder counts as `root`) with the `reduce` over a record of arrays;
  - lists the folders in the record's insertion order;
  - labels each folder with `formatFolderName`: `root` becomes "Documentation", any other name has its hyphen-separated words capitalised and joined by spaces;
  - marks a link active when the current path is the article's href, or lies below it.

Layout:

- `wrappers.dfy` (module `Wrappers`): an `Option` type.
- `js_runtime.dfy` (module `JsRuntime`): the JavaScript behaviour the core relies on:
  - `String.prototype.length` counts UTF-16 code units;
  - `split` and `join` on a one-character separator;
  - `Number.prototype.toString` on integers, and the decimal reading a client applies to `Retry-After`.
- `search_route.dfy` (module `SearchRoute`): the route as pure functions over an explicit request, environment and set of collaborators.
  - `checkRateLimit`, `createRateLimitHeaders` and `search` are function parameters.
  - The two `Date.now()` samples are two integer parameters, in milliseconds.
  - `getTursoClient` either succeeds or throws, given as `clientFailure`.
  - `request.json()` either yields the destructured fields or throws.
- `docs_sidebar.dfy` (module `DocsSidebar`): groups, labels and links.
  - The folder grouping is an imperative loop that updates a `map` from folder to articles plus the sequence of keys in insertion order. It comes in two versions:
    - `GroupByFolderAsWritten` is the source's `reduce` over `{}`. It throws when a folder names a property inherited from `Object.prototype` (see "## Findings").
    - `GroupByFolder` is the intended grouping. It is proved equal to the specification function `Grouped`, and the rendered sidebar uses it.
  - The engine's `toUpperCase` is a parameter `upper`. `AsciiCase` is its ASCII instance.

## Model

| member | source | states |
|---|---|---|
| JsRuntime.Utf16Length | app/api/search/route.ts:58 | `query.length` counts UTF-16 code units. It lies between the number of characters and twice that number, and equals the number of characters exactly when no character is outside the Basic Multilingual Plane. |
| JsRuntime.Join | components/DocsSidebar.tsx:25 | `join(' ')` on one-character separators. This is a definition; `JoinSplit` and `SplitJoin` prove it inverse to `Split`. |
| JsRuntime.Split | components/DocsSidebar.tsx:23 | `split('-')` yields at least one piece (the empty string yields one empty piece), and no piece contains the separator. |
| JsRuntime.JoinSplit | components/DocsSidebar.tsx:22-25 | Joining the pieces of a split with the same separator gives back the original string. |
| JsRuntime.SplitJoin | components/DocsSidebar.tsx:22-25 | Splitting the join of a non-empty list of separator-free words gives back exactly those words. |
| JsRuntime.NatToString | app/api/search/route.ts:38-40 | The decimal text of a natural number is non-empty, is all digits, and has no leading zero. |
| JsRuntime.IntToString | app/api/search/route.ts:40 | `toString()` of an integer: all digits for a non-negative integer, and a `-` followed by at least one digit for a negative one. |
| JsRuntime.IntToStringRoundTrip | app/api/search/route.ts:38-40 | Reading back the text that `toString()` prints for an integer gives the same integer. |
| SearchRoute.ResponseHeaders | app/api/search/route.ts:22-25 | The response headers are the rate limiter's headers plus `Content-Type`. Every rate-limit value is kept, and `Content-Type` is `application/json` unless the limiter set one itself (a later key of an object spread wins). |
| SearchRoute.RetryAfterSeconds | app/api/search/route.ts:32 | `Math.ceil((resetTime - now) / 1000)` is the least whole number of seconds covering the remaining milliseconds, and it is at least 1 while the window has not reset. |
| SearchRoute.SanitizeLimit | app/api/search/route.ts:69 | The limit is always in 1..20. It is 10 when absent. An in-range value is kept, a smaller one becomes 1, and a larger one becomes 20. |
| SearchRoute.SanitizeLimitIdempotent | app/api/search/route.ts:69 | Sanitising a sanitised limit changes nothing. |
| SearchRoute.SanitizeLimitExamples | app/api/search/route.ts:69 | Absent gives 10, 0 gives 1, 1000 gives 20 and 5 gives 5. |
| SearchRoute.EmbeddingProvider | app/api/search/route.ts:79-81 | The provider is never empty. It is the environment value when that is set and non-empty, and `local` otherwise. |
| SearchRoute.ErrorMessage | app/api/search/route.ts:102 | `error instanceof Error ? error.message : 'Unknown error'`. This is a definition; `FailuresBecomeServerError` states its use in the 500 body. |
| SearchRoute.TryBlock | app/api/search/route.ts:46-95 | The `try` block: parse, the two validations, client creation, then the search with the sanitised limit and provider. It ends with a returned status and body or with a thrown value. This is a definition; `RaisedExactly`, `QueryRequired`, `QueryLengthBoundary` and `SuccessShape` specify it. |
| SearchRoute.Post | app/api/search/route.ts:15-110 | The status is one of 200, 400, 429 and 500, and it is 429 exactly when the rate limiter refuses. Every response carries `Content-Type` and exactly the rate-limit header names plus `Content-Type`, plus `Retry-After` on a 429. The rate-limit header values are kept, except for `Retry-After` on a 429. |
| SearchRoute.RejectedBeforeParsing | app/api/search/route.ts:27-44 | A refused request gets a "Too many requests" response, and nothing in it depends on the body, the environment, the database client or the search. |
| SearchRoute.RetryAfterAgrees | app/api/search/route.ts:32-40 | On a 429 with the window still open and equal clock samples, `retryAfter` is at least 1 and is the ceiling of the remaining time in seconds. The `Retry-After` header is all digits (an RFC 9110 section 10.2.3 delay-seconds value) and reads back as the same number. |
| SearchRoute.QueryRequired | app/api/search/route.ts:50-55 | A missing, non-string or empty query is answered 400 "Query parameter is required". |
| SearchRoute.QueryLengthBoundary | app/api/search/route.ts:58-66 | A query of more than 500 code units is answered 400 "Query too long" with its message. A query of at most 500 passes validation and ends in 200 or 500. |
| SearchRoute.SuccessShape | app/api/search/route.ts:69-95 | A valid query with a working client and search gets 200. The body holds the search's results for the sanitised limit and the configured provider, their count and the unchanged query, and the headers are the merged rate-limit headers. |
| SearchRoute.FailuresBecomeServerError | app/api/search/route.ts:96-109 | Whatever the `try` block throws becomes 500 "Search failed". The message is the error's own for an `Error` and "Unknown error" for any other thrown value. |
| SearchRoute.RaisedExactly | app/api/search/route.ts:46-96 | The `try` block throws exactly in three cases: the body does not parse; or the query is valid and the client cannot be created; or the query is valid and the search throws. |
| SearchRoute.HelloScenario | app/api/search/route.ts:47-95 | `{"query":"hello","limit":5}`, with a search that returns three results, is answered with those results, count 3 and query "hello". |
| SearchRoute.Get | app/api/search/route.ts:112-120 | `GET` answers 405, and its only header is the JSON content type. |
| DocsSidebar.AsciiUpperCase | components/DocsSidebar.tsx:24 | `toUpperCase` on one ASCII character yields one character: the upper-case letter for a lower-case letter, the character itself otherwise. |
| DocsSidebar.Capitalize | components/DocsSidebar.tsx:24 | `word.charAt(0).toUpperCase() + word.slice(1)`. An empty word and a word whose first character is astral come back unchanged. This is a definition; `TitleCaseAt` and the label lemmas specify it. |
| DocsSidebar.FormatFolderName | components/DocsSidebar.tsx:20-26 | `formatFolderName`. This is a definition; `RootIsDocumentation` and `FormatFolderNameIsTitleCase` specify it. |
| DocsSidebar.RootIsDocumentation | components/DocsSidebar.tsx:21 | The folder `root` is labelled "Documentation". |
| DocsSidebar.CapitalizedJoinIsTitleCase | components/DocsSidebar.tsx:22-25 | Splitting on hyphens, capitalising every word and joining with spaces equals a character-by-character reading. That reading turns hyphens into spaces, upper-cases each word's first character (unless astral) and keeps every other character. |
| DocsSidebar.FormatFolderNameIsTitleCase | components/DocsSidebar.tsx:20-26 | Every folder other than `root` is labelled by that character-by-character reading. |
| DocsSidebar.TitleCaseAt | components/DocsSidebar.tsx:22-25 | When the case mapping keeps characters one code unit long, the label is as long as the folder name. At each position it holds a space for a hyphen, the upper-cased character at a word start, and the original character elsewhere. |
| DocsSidebar.AsciiLabelLength | components/DocsSidebar.tsx:20-26 | An ASCII folder name other than `root` has a label of the same length. |
| DocsSidebar.FormatTwoWords | components/DocsSidebar.tsx:22-25 | A folder named `v-w`, where neither word has a hyphen, is labelled as the capitalised `v`, a space, then the capitalised `w`. |
| DocsSidebar.GettingStartedLabel | components/DocsSidebar.tsx:20-26 | `getting-started` is labelled "Getting Started". |
| DocsSidebar.GuidesLabel | components/DocsSidebar.tsx:20-26 | `guides` is labelled "Guides". |
| DocsSidebar.FolderKey | components/DocsSidebar.tsx:34 | `article.folder \|\| 'root'` is never empty, and it is the article's folder whenever that is non-empty. |
| DocsSidebar.Grouped | components/DocsSidebar.tsx:32-51 | The intended grouping: the folder keys in first-appearance order, each with its articles in input order. This is a definition; `GroupedPartition`, `GroupedKeepsEveryArticle`, `BucketKeepsInputOrder` and `GroupsInFirstAppearanceOrder` specify it. |
| DocsSidebar.ReduceThrows | components/DocsSidebar.tsx:35-38 | Some article's folder key is a property name inherited from `Object.prototype`. |
| DocsSidebar.GroupByFolderAsWritten | components/DocsSidebar.tsx:32-42 | The `reduce` over `{}` as written. It throws (`None`) exactly when some folder key names an inherited property. Otherwise it yields `Grouped`. |
| DocsSidebar.InheritedFolderThrows | components/DocsSidebar.tsx:35-38 | One article in folder `constructor` makes the source throw, while the intended grouping is that folder holding that article. |
| DocsSidebar.GroupByFolder | components/DocsSidebar.tsx:32-42 | The `reduce` loop followed by `Object.entries`, on a record with no inherited properties. It yields exactly `Grouped`: the folder keys in insertion order, each with its bucket of articles. |
| DocsSidebar.FolderOrderKeys | components/DocsSidebar.tsx:34-37 | The record's keys are distinct, and a key is present exactly when some article has that folder. |
| DocsSidebar.BucketMembers | components/DocsSidebar.tsx:34-38 | A folder's bucket holds only input articles of that folder and every article of that folder. It is empty for a folder no article has. |
| DocsSidebar.GroupedKeepsEveryArticle | components/DocsSidebar.tsx:32-42 | The groups together hold exactly the input articles as a multiset, so no article is dropped or duplicated, and their sizes add up to the input length. |
| DocsSidebar.GroupedPartition | components/DocsSidebar.tsx:34-38 | The group keys are distinct. Each article is in the group of its folder key, and a group holds only input articles of its key. |
| DocsSidebar.BucketKeepsInputOrder | components/DocsSidebar.tsx:38 | A bucket is the input read at the strictly increasing positions of exactly the articles of that folder, so it keeps their input order. |
| DocsSidebar.GroupsInFirstAppearanceOrder | components/DocsSidebar.tsx:32-51 | Every listed folder occurs in the input, and the folders are listed in the order of their first article in the input. |
| DocsSidebar.TwoFolderScenario | components/DocsSidebar.tsx:20-51 | Folders `root`, `guides`, `guides` give two groups, `root` with the first article and `guides` with the other two in order, labelled "Documentation" and "Guides". |
| DocsSidebar.Href | components/DocsSidebar.tsx:95 | `` `/content/${article.slug}` ``. This is a definition. |
| DocsSidebar.IsActive | components/DocsSidebar.tsx:96 | `currentPath === href \|\| currentPath.startsWith(href + '/')`. This is a definition; `IsActiveAtSegmentBoundary` specifies it. |
| DocsSidebar.IsActiveAtSegmentBoundary | components/DocsSidebar.tsx:95-96 | A link is active exactly when its href is a prefix of the current path that ends at the end of the path or just before a `/`. |
| DocsSidebar.NestedPathIsActive | components/DocsSidebar.tsx:95-96 | Every path below an article's href keeps its link active. |
| DocsSidebar.SiblingPrefixNotActive | components/DocsSidebar.tsx:95-96 | `/content/foobar` does not activate the link of slug `foo`. |
| DocsSidebar.LinksHighlightCurrentPath | components/DocsSidebar.tsx:94-111 | One link per article, in order, to `/content/<slug>` with the article's title. A link is highlighted exactly when its href is a prefix of the current path ending at the end of the path or just before a `/`. |
| DocsSidebar.RenderSidebar | components/DocsSidebar.tsx:44-63 | One section per folder entry, in the order of `Grouped`. Each section is labelled by `formatFolderName` and lists its articles' links. |

## Left out

- JsRuntime.Utf16Length: strings here are sequences of Unicode scalar values, so a lone surrogate cannot be represented. Such a code unit can occur in a JSON query such as `"\ud800"` or in a folder name, and `query.length` counts it as one. Those strings lie outside the model.
- DocsSidebar.RenderSidebar: uses the intended grouping `GroupByFolder`. As written, the component throws and does not render when a folder names an inherited `Object.prototype` property (see "## Findings").

- The rate limiter's internals (its window store, counters and `remaining`) and the header names it produces are not part of this model. They are the parameters `checkRateLimit` and `createRateLimitHeaders`.
- The behaviour of `search`, and the internals of `getTursoClient`, are not part of this model. `search` is a parameter; `getTursoClient` is reduced to "returns a client or throws".
- `logger.error` is left out, because it is output only.
- The `async`/`await` control flow is left out. Each awaited call is reduced to its result or its throw.
- SearchRoute.SanitizeLimit: takes an integer or nothing. A JSON `limit` that is fractional, `NaN`, `null`, a string or any other non-integer value goes through `Math.max`/`Math.min` with JavaScript number semantics, which this model does not capture.
- Integers are unbounded. JavaScript numbers are doubles, and `toString` switches to exponent notation at 1e21 and above. Neither matters for millisecond timestamps, but neither is modelled.
- A JSON body of `null` makes the destructuring throw. It is folded into `ParseFailed` together with a body that does not parse.
- SearchRoute.EmbeddingProvider: the provider is described as a closed enumeration (`local`, `gemini`, `openai`). The code's cast does not validate it, so any non-empty environment value is passed through. The model follows the code.
- Header names are compared exactly. HTTP treats them case-insensitively, which the model does not capture.
- The two `Date.now()` calls of the 429 path are two independent parameters. The body and the header agree only when the two samples do, and `RetryAfterAgrees` assumes they do.
- `Object.entries` lists integer-like keys (such as a folder named `2024`) first, in ascending numeric order, before the other keys in insertion order. The model uses plain insertion order for every key.
- The Unicode case mapping of `toUpperCase` is a parameter. Only its ASCII instance, `AsciiCase`, is defined. Case mappings that lengthen a character (such as `ß` to `SS`) are allowed by the parameter but are not given concrete values.
- JSX, CSS classes, the collapsible `useState` toggle and `usePathname` are left out, because they are presentation and framework state. The sections are modelled as always open, and the current path is a parameter.
- The other files of the site (the page components, the Turso content queries and the build configuration) are not part of this model.

## Findings

| source | as written | input that shows it | evidently intended | confidence | as-written member | corrected member |
|---|---|---|---|---|---|---|
| components/DocsSidebar.tsx:32-42 | The accumulator `{}` inherits from `Object.prototype`. For a folder named after an inherited property (`constructor`, `toString`, `valueOf`, `hasOwnProperty`, `__proto__`, …) `!acc[folder]` is false, so no bucket is created, and `acc[folder].push(article)` throws a `TypeError`. The sidebar does not render. | one article whose `folder` is `constructor` (`InheritedFolderThrows`) | the folder is grouped like any other: `[("constructor", [article])]` | not executed | DocsSidebar.GroupByFolderAsWritten | DocsSidebar.GroupByFolder |
