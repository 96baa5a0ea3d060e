# Book-search client: search-parameter state and handlers

This project models the part of the Angular book-search client that turns user actions and address-bar parameters into committed searches.

`SearchService` holds:

- the query text, the page, the page size and the allowed page sizes;
- the stream of committed searches (`currentSearch$`);
- the loading flag (`isLoading$`).

It keeps `q`, `page` and `pageSize` in the address bar's query parameters.
`AppComponent` supplies:

- the search and paging handlers;
- the query token a lookup is issued with;
- the loading-flag transitions around one lookup;
- the first two stages of the results pipeline: the null filter and `distinctUntilChanged`.

Files:

- `wrappers.dfy` (module `Wrappers`): the `Option` type. It stands for an absent configuration entry and for NaN.
- `js_text.dfy` (module `JsText`): the JavaScript primitives the code relies on:
  - `trim` and the truthiness of the trimmed text;
  - `split`/`join` on one character;
  - `toLowerCase`;
  - unary `+` on a string;
  - `String(n)`, which is how the router writes a number into the address bar.
- `search_service.dfy` (module `Search`): the `CurrentSearch` record, the configuration fallbacks, the query-parameter readers, the merge navigation, and the class `SearchService`. The class has fields `searchText`, `pageSize`, `pageSizeOptions`, `page`, `emitted` (the values pushed onto `currentSearch$` after its initial `null`), `isLoading`, `url` (the router's query parameters) and `destroyed`.
- `app_component.dfy` (module `App`): the query token, the pipeline stages, the class `AppComponent`, and a few client methods that run the handlers on concrete inputs.

`SearchService.Valid()` is the invariant every method keeps: every committed search has non-blank text.
Each commit leaves the address bar showing that search (`Submit`). After that, a delivery of other parameters to the callback, such as an edit of the address bar, replaces the map, whether or not it leads to a commit.

`SubmittedOnto` states the effect of one `submit` on the previous stream and address bar. The handlers' contracts are written in terms of it.

Design decisions:

- The constructor delivers the query parameters current at construction to the subscription callback once. `ActivatedRoute.queryParams` replays its current value on subscribe. Every later delivery is a call of `OnQueryParams`.
- `distinctUntilChanged()` has no comparator, so it compares by reference, and identical consecutive searches are not de-duplicated. `submit` builds a new object literal on every call. The model therefore tags every commit with its own identity (`SearchObject`) and proves that no commit is dropped by the null filter or `distinctUntilChanged`. `RepeatedCommitIsNotSuppressed` contrasts this with comparison by value.
- A commit stores the untrimmed text field; `trim` only decides whether there is a commit at all (`src/app/services/search.service.ts:75`).
- The address-bar page size is not checked against the allowed sizes (`src/app/services/search.service.ts:58`); `UrlPageSizeIsNotValidated` exhibits it.
- `+params[k] || old` keeps the old value when the parameter is absent, is not a number (NaN), or reads as 0; a blank value reads as 0. A negative numeral is truthy and is taken, as in JavaScript.

## Model

| member | source | states |
|---|---|---|
| Search.ConfigFallbacks | src/app/services/search.service.ts:48-49 | With no configuration the page size is 10 and the allowed sizes are `[10]`; otherwise each `??` falls back on its own: a missing page size gives 10 and missing options give `[10]`, whatever the other entry, and a present entry is taken as it is; the factory configuration gives 10 and `[5, 10, 20, 50, 100]` |
| Search.MergeQueryParams | src/app/services/search.service.ts:77-79 | Merge navigation: the keys are the union; the new parameters override; every other existing parameter is kept |
| Search.MergeIdempotent | src/app/services/search.service.ts:77-79 | Merging the same parameters twice equals merging them once |
| Search.TextParamOr | src/app/services/search.service.ts:56 | `params['q'] \|\| old`: the result is the old text or the `q` value; an absent `q` keeps the old text; a present non-empty `q` replaces it; an empty result only arises from an empty old text |
| Search.NumberParamOr | src/app/services/search.service.ts:57-58 | `+params[k] \|\| old`: the result is the old value or a non-zero number read from the parameter; an absent, blank or non-numeric parameter keeps the old value; a parameter that reads as a non-zero number gives that number |
| Search.ReloadRestoresCommit | src/app/services/search.service.ts:56-80 | Reading back the address bar a commit wrote (merged onto any parameters) restores that commit's text, page and page size, whatever the previous state |
| Search.SearchService.constructor | src/app/services/search.service.ts:34-51 | Defaults: empty text, page 1, configured page size (else 10) and options (else `[10]`), not loading; then the callback is applied once to the current parameters, so the result is their reading and at most one commit merged onto them; the result satisfies `Valid` |
| Search.SearchService.OnQueryParams | src/app/services/search.service.ts:53-64 | After destroy: nothing changes. Otherwise: the delivered parameters become the address bar; text, page and page size are taken from them where usable, with the page size not checked against the options; then one submit, merged onto the delivered parameters, if the text is non-empty; `Valid` is kept |
| Search.SearchService.SetPageSize | src/app/services/search.service.ts:66-72 | A size not in the options changes nothing; an allowed size sets the size and page 1, then submits once; `Valid` is kept |
| Search.SearchService.Submit | src/app/services/search.service.ts:74-87 | Blank text (after `trim`): stream and address bar unchanged. Otherwise: exactly one record with the current untrimmed text, page size and page is appended, and `q`/`page`/`pageSize` are merged into the address bar, which then shows that search; `Valid` is kept |
| Search.SearchService.NgOnDestroy | src/app/services/search.service.ts:89-92 | The subscription is ended, so later callbacks have no effect |
| JsText.TrimStartSpec | src/app/services/search.service.ts:75 | The leading trim removes exactly the longest whitespace prefix |
| JsText.TrimEndSpec | src/app/services/search.service.ts:75 | The trailing trim removes exactly the longest whitespace suffix |
| JsText.BlankIffAllWhitespace | src/app/services/search.service.ts:75 | `!s.trim()` holds exactly when every character of `s` is JavaScript whitespace (both directions) |
| JsText.ToNumber | src/app/services/search.service.ts:57-58 | Unary `+` on a blank string gives 0 |
| JsText.IntToString | src/app/services/search.service.ts:78 | The rendering of a number is non-empty, starts with `-` or a digit and ends with a digit |
| JsText.NatToString | src/app/services/search.service.ts:78 | The rendering of a non-negative number is a non-empty digit string |
| JsText.DigitsValueOfNatToString | src/app/services/search.service.ts:78 | A rendered non-negative number's digits denote that number |
| JsText.ToNumberOfIntToString | src/app/services/search.service.ts:57-58 | Unary `+` applied to the rendering of any integer returns that integer |
| JsText.SmallNumerals | src/app/services/search.service.ts:57-58 | `+"2"`, `+"7"` and `+"20"` are 2, 7 and 20 |
| JsText.Split | src/app/app.component.ts:79 | `split` yields at least one part and no part contains the separator |
| JsText.SplitJoinReplaces | src/app/app.component.ts:79 | `s.split(a).join(b)` replaces every `a` by `b` and changes nothing else |
| JsText.AsciiLower | src/app/app.component.ts:79 | Lower-casing maps each upper-case ASCII letter to the matching lower-case letter and leaves every other character alone |
| JsText.AsciiLowerIdempotent | src/app/app.component.ts:79 | Lower-casing is idempotent and leaves non-letters alone |
| App.QueryTokenPointwise | src/app/app.component.ts:79 | The token has the text's length; each space became `+` and every other character is lower-cased |
| App.QueryTokenHasNoSpaces | src/app/app.component.ts:79 | The token contains no space |
| App.QueryTokenIdempotent | src/app/app.component.ts:79 | Building a token from a token returns it unchanged |
| App.QueryTokenExample | src/app/app.component.ts:79 | The token of `Dune II` is `dune+ii` |
| App.Objects | src/app/services/search.service.ts:82-86 | One object per commit, carrying that commit's values, and no two commits share an object |
| App.FilterNonNull | src/app/app.component.ts:48 | The filter's output is no longer than its input and holds only values present in it |
| App.FilterNonNullSingle | src/app/app.component.ts:48 | A `null` is dropped; a value is kept |
| App.FilterNonNullAppend | src/app/app.component.ts:48 | The filter works element by element, in order: it distributes over concatenation |
| App.FilterNonNullOfSomes | src/app/app.component.ts:48 | A stream without `null` passes the filter whole |
| App.DistinctUntilChanged | src/app/app.component.ts:49 | The output is no longer than the input, ends with the input's last value and has no two equal neighbours; a stream with no two equal neighbours passes whole |
| App.LastEmittedSnoc | src/app/app.component.ts:49 | The library's algorithm, which compares with the key of the last emitted value, emits one more value exactly when it differs from the key held after the values before it |
| App.AgreesWithRxjs | src/app/app.component.ts:49 | On every input, comparing each value with its predecessor (`DistinctUntilChanged`) gives the same output as the library's comparison with the last emitted value |
| App.EveryCommitPassesFirstStages | src/app/app.component.ts:47-49 | Starting from the subject's initial `null`, the null filter and `distinctUntilChanged` pass exactly the committed objects, in order |
| App.RepeatedCommitIsNotSuppressed | src/app/app.component.ts:47-49 | Two equal commits in a row would be one under a comparison by value, but both pass the pipeline |
| App.AppComponent.OnSearchInputChange | src/app/app.component.ts:56-58 | The typed text is stored and nothing is committed |
| App.AppComponent.OnSearch | src/app/app.component.ts:60-64 | Blank text: nothing changes. Otherwise: page 1 and exactly one commit with page 1, merged into the address bar |
| App.AppComponent.OnPageChange | src/app/app.component.ts:66-75 | Same size: page `pageIndex + 1`, size kept, one submit. A different allowed size: page 1 and the new size, with two identical commits when the text is not blank. A disallowed size: page and size kept, one submit |
| App.AppComponent.SearchBooks | src/app/app.component.ts:77-80 | The loading flag is raised; the request carries the query token, the page and the page size as limit |
| App.AppComponent.OnLookupSettled | src/app/app.component.ts:85-89 | However the lookup ends, the loading flag is lowered; the no-results notice is asked for exactly when a response reports zero books |
| App.DeepLinkCommits | src/app/services/search.service.ts:53-62 | Opening at `q=dune&page=2&pageSize=20` commits that search without user action |
| App.UrlPageSizeIsNotValidated | src/app/services/search.service.ts:58 | A page size of 7 from the address bar is taken although the allowed sizes are 5 and 10 |
| App.SearchThenNextPage | src/app/app.component.ts:66-75 | From the first page, a page change with the same size commits page 3 and keeps the size |
| App.RedeliveryRecommits | src/app/services/search.service.ts:53-87 | When the address bar a commit wrote is delivered back to the callback, the same search is committed a second time |
| App.BlankQueryCommitsNothing | src/app/app.component.ts:60-75 | A blank query commits nothing on search or on paging, while paging still moves the page |
| App.LookupTogglesLoading | src/app/app.component.ts:77-89 | The loading flag is up during a lookup and down after it; a zero-result response asks for the notice |

## Left out

- HTTP and the Open Library request URL and response (`src/app/app.component.ts:82-83`): external I/O. The lookup is the `LookupRequest` value `SearchBooks` returns, and its ending is a `LookupOutcome` given to `OnLookupSettled`.
- `debounceTime(300)`, `switchMap` cancellation and `shareReplay(1)` (`src/app/app.component.ts:50-52`): timing and asynchronous library behaviour. `Superseded` stands for a lookup cancelled by a newer one; like any other ending, it lowers the loading flag.
- `alert(...)` (`src/app/app.component.ts:88`): a UI side effect, reduced to the returned `noResultsNotice` flag.
- Angular dependency injection, decorators, template bindings and the `HTMLInputElement` access (`src/app/app.component.ts:24-43, 57`): framework glue. The input handler takes the field's value.
- `Router.navigate` URL serialisation and the router's own re-delivery of query parameters after navigation: the address bar is a map that `Submit` merges into and `OnQueryParams` replaces. A later delivery, from the router or from an edit of the address bar, is an explicit `OnQueryParams` call; `RedeliveryRecommits` shows what the router's re-delivery after a commit leads to.
- A failed lookup: `searchBooks` has no `catchError`, so an HTTP error passes through `switchMap` (`src/app/app.component.ts:51`) and ends `searchResults$`, and later commits get no lookup. The model's `Errored` outcome only lowers the loading flag; the end of the results stream is not modelled.
- Repeated query parameters delivered as arrays: each parameter is a single string.
- JsText.ToNumber: `+s` is modelled for an optional sign followed by decimal digits, with surrounding whitespace. Fractions, exponents, the `0x`, `0b` and `0o` prefixes (`+"0b11"` is 3, `+"0o7"` is 7) and `Infinity` are treated as NaN, and double-precision rounding is not modelled. For example `+"1.5"` is 1.5 in JavaScript and would be taken as the page, while the model reads it as NaN and keeps the old page.
- JsText.IntToString: `String(n)` switches to exponent form from 1e21 (`"1e+21"`), and the model always writes plain decimal digits; page numbers and sizes that large are not modelled.
- JsText.ToLowerCase: only ASCII letters are lower-cased; full Unicode case mapping is not modelled.
- The `destroy$` subject's `next`/`complete` pair is reduced to the `destroyed` flag.
