/** The page component of the book-search client: its search and paging
    handlers, the query token each lookup carries, the loading flag around a
    lookup, and the first two stages of the results pipeline. */
module App {
  import opened Wrappers
  import opened JsText
  import opened Search

  /** One book summary of a lookup response. */
  datatype Doc = Doc(title: string, authorName: seq<string>, coverEditionKey: string)

  /** A lookup response. */
  datatype SearchResult = SearchResult(numFound: int, docs: seq<Doc>)

  /** How a lookup ends: with a response, with an error, or by being dropped
      because a newer search replaced it. */
  datatype LookupOutcome = Responded(result: SearchResult) | Errored | Superseded

  /** The parameters a lookup is issued with. */
  datatype LookupRequest = LookupRequest(q: string, page: int, limit: int)

  // ---------------------------------------------------------------------
  // The query token
  // ---------------------------------------------------------------------

  /** `searchText.split(' ').join('+').toLowerCase()`. */
  function QueryToken(searchText: string): string {
    ToLowerCase(Join(Split(searchText, ' '), '+'))
  }

  /** The token has the length of the text; each space became `+` and every
      other character was lower-cased. */
  lemma QueryTokenPointwise(s: string)
    ensures |QueryToken(s)| == |s|
    ensures forall i :: 0 <= i < |s| ==>
      QueryToken(s)[i] == if s[i] == ' ' then '+' else AsciiLower(s[i])
  {
    SplitJoinReplaces(s, ' ', '+');
  }

  /** The token contains no space. */
  lemma QueryTokenHasNoSpaces(s: string)
    ensures forall i :: 0 <= i < |QueryToken(s)| ==> QueryToken(s)[i] != ' '
  {
    QueryTokenPointwise(s);
  }

  /** Building the token from a token returns it unchanged. */
  lemma QueryTokenIdempotent(s: string)
    ensures QueryToken(QueryToken(s)) == QueryToken(s)
  {
    var t := QueryToken(s);
    QueryTokenPointwise(s);
    QueryTokenPointwise(t);
    forall i | 0 <= i < |t|
      ensures QueryToken(t)[i] == t[i]
    {
      AsciiLowerIdempotent(s[i]);
    }
  }

  // ---------------------------------------------------------------------
  // The first pipeline stages over `currentSearch$`
  // ---------------------------------------------------------------------

  /** A committed search object; `identity` tells one object from another. */
  datatype SearchObject = SearchObject(identity: nat, search: CurrentSearch)

  /** The objects the commits `emitted` push: a fresh object literal each
      time, so no two commits share an object. */
  function Objects(emitted: seq<CurrentSearch>): (r: seq<SearchObject>)
    ensures |r| == |emitted|
    ensures forall i :: 0 <= i < |r| ==> r[i].search == emitted[i]
    ensures forall i, j :: 0 <= i < j < |r| ==> r[i] != r[j]
  {
    seq(|emitted|, i requires 0 <= i < |emitted| => SearchObject(i, emitted[i]))
  }

  function Somes<T>(xs: seq<T>): (r: seq<Option<T>>)
    ensures |r| == |xs|
    ensures forall i :: 0 <= i < |r| ==> r[i] == Some(xs[i])
  {
    seq(|xs|, i requires 0 <= i < |xs| => Some(xs[i]))
  }

  /** The values `currentSearch$` carries: its initial `null`, then one object per commit. */
  function SubjectValues(emitted: seq<CurrentSearch>): seq<Option<SearchObject>> {
    [None] + Somes(Objects(emitted))
  }

  /** `filter(search => search !== null)`. */
  function FilterNonNull<T>(xs: seq<Option<T>>): (r: seq<T>)
    ensures |r| <= |xs|
    ensures forall y :: y in r ==> Some(y) in xs
  {
    if xs == [] then []
    else (if xs[0].Some? then [xs[0].value] else []) + FilterNonNull(xs[1..])
  }

  /** The filter works element by element, in order: it distributes over concatenation. */
  lemma {:induction false} FilterNonNullAppend<T>(xs: seq<Option<T>>, ys: seq<Option<T>>)
    ensures FilterNonNull(xs + ys) == FilterNonNull(xs) + FilterNonNull(ys)
    decreases |xs|
  {
    if xs == [] {
      assert xs + ys == ys;
    } else {
      var head := if xs[0].Some? then [xs[0].value] else [];
      assert (xs + ys)[0] == xs[0] && (xs + ys)[1..] == xs[1..] + ys;
      FilterNonNullAppend(xs[1..], ys);
      assert FilterNonNull(xs + ys) == head + FilterNonNull(xs[1..] + ys);
      assert FilterNonNull(xs) == head + FilterNonNull(xs[1..]);
      assert head + (FilterNonNull(xs[1..]) + FilterNonNull(ys)) == (head + FilterNonNull(xs[1..])) + FilterNonNull(ys);
    }
  }

  /** A `null` is dropped and any other value is kept. */
  lemma FilterNonNullSingle<T>(x: T)
    ensures FilterNonNull<T>([None]) == [] && FilterNonNull([Some(x)]) == [x]
  {
  }

  /** A sequence with no `null` passes the filter whole. */
  lemma {:induction false} FilterNonNullOfSomes<T>(xs: seq<T>)
    ensures FilterNonNull(Somes(xs)) == xs
    decreases |xs|
  {
    if xs != [] {
      assert Somes(xs)[1..] == Somes(xs[1..]);
      FilterNonNullOfSomes(xs[1..]);
    }
  }

  /** No value in `s` is equal to the one just before it. */
  predicate NoRepeatedNeighbours<T(==)>(s: seq<T>) {
    forall i, j :: 0 <= i < |s| && j == i + 1 && j < |s| ==> s[i] != s[j]
  }

  /** `distinctUntilChanged()` with its default comparison: a value equal to
      the one just before it is dropped. */
  function DistinctUntilChanged<T(==)>(xs: seq<T>): (r: seq<T>)
    ensures |r| <= |xs|
    ensures |xs| > 0 ==> |r| > 0 && r[|r| - 1] == xs[|xs| - 1]
    ensures NoRepeatedNeighbours(r)
    ensures NoRepeatedNeighbours(xs) ==> r == xs
    decreases |xs|
  {
    if |xs| <= 1 then xs
    else DistinctUntilChanged(xs[..|xs| - 1]) + (if xs[|xs| - 1] == xs[|xs| - 2] then [] else [xs[|xs| - 1]])
  }

  /** The operator as the library runs it: keep the key of the last value
      emitted (`prev`, initially none) and emit a value only when it differs
      from that key, which then becomes the value. */
  function LastEmitted<T(==)>(xs: seq<T>, prev: Option<T>): seq<T>
    decreases |xs|
  {
    if xs == [] then []
    else if prev == Some(xs[0]) then LastEmitted(xs[1..], prev)
    else [xs[0]] + LastEmitted(xs[1..], Some(xs[0]))
  }

  /** The key the operator holds after reading `xs`, starting from `prev`. */
  function After<T>(xs: seq<T>, prev: Option<T>): Option<T> {
    if xs == [] then prev else Some(xs[|xs| - 1])
  }

  /** Feeding one more value emits it exactly when it differs from the key
      held after the values before it. */
  lemma {:induction false} LastEmittedSnoc<T>(xs: seq<T>, x: T, prev: Option<T>)
    ensures LastEmitted(xs + [x], prev)
      == LastEmitted(xs, prev) + (if After(xs, prev) == Some(x) then [] else [x])
    decreases |xs|
  {
    if xs == [] {
      assert xs + [x] == [x];
    } else {
      var rest := xs[1..];
      assert (xs + [x])[0] == xs[0] && (xs + [x])[1..] == rest + [x];
      if prev == Some(xs[0]) {
        LastEmittedSnoc(rest, x, prev);
        assert After(rest, prev) == After(xs, prev);
      } else {
        LastEmittedSnoc(rest, x, Some(xs[0]));
        assert After(rest, Some(xs[0])) == After(xs, prev);
      }
    }
  }

  /** Comparing each value with the one just before it, as `DistinctUntilChanged`
      does, is the same as comparing it with the last value emitted. */
  lemma {:induction false} AgreesWithRxjs<T>(xs: seq<T>)
    ensures DistinctUntilChanged(xs) == LastEmitted(xs, None)
    decreases |xs|
  {
    if |xs| == 1 {
      assert LastEmitted(xs, None) == [xs[0]] + LastEmitted(xs[1..], Some(xs[0]));
    } else if |xs| > 1 {
      var p := xs[..|xs| - 1];
      var x := xs[|xs| - 1];
      assert xs == p + [x];
      AgreesWithRxjs(p);
      LastEmittedSnoc(p, x, None);
    }
  }

  /** Every commit gets through the null filter and the duplicate check, in
      order: each commit is a new object, so no two neighbours are the same. */
  lemma EveryCommitPassesFirstStages(emitted: seq<CurrentSearch>)
    ensures DistinctUntilChanged(FilterNonNull(SubjectValues(emitted))) == Objects(emitted)
  {
    var objs := Objects(emitted);
    var values := SubjectValues(emitted);
    assert values[0] == None && values[1..] == Somes(objs);
    FilterNonNullOfSomes(objs);
    assert FilterNonNull(values) == objs;
    assert NoRepeatedNeighbours(objs) by {
      forall i, j | 0 <= i < |objs| && j == i + 1 && j < |objs|
        ensures objs[i] != objs[j]
      {
      }
    }
  }

  /** Two equal commits in a row would be one under a comparison by value,
      and stay two under the comparison the stage performs. */
  lemma RepeatedCommitIsNotSuppressed(c: CurrentSearch)
    ensures DistinctUntilChanged([c, c]) == [c]
    ensures DistinctUntilChanged(FilterNonNull(SubjectValues([c, c]))) == [SearchObject(0, c), SearchObject(1, c)]
  {
    EveryCommitPassesFirstStages([c, c]);
    assert Objects([c, c]) == [SearchObject(0, c), SearchObject(1, c)];
    assert [c, c][..1] == [c];
  }

  // ---------------------------------------------------------------------
  // The component
  // ---------------------------------------------------------------------

  class AppComponent {
    const searchService: SearchService

    constructor(searchService: SearchService)
      ensures this.searchService == searchService
    {
      this.searchService := searchService;
    }

    /** The search field's input handler: store the typed text, commit nothing. */
    method OnSearchInputChange(value: string)
      requires searchService.Valid()
      modifies searchService`searchText
      ensures searchService.Valid()
      ensures searchService.searchText == value
    {
      searchService.searchText := value;
    }

    /** The search action: with non-blank text, go back to page 1 and submit. */
    method OnSearch()
      requires searchService.Valid()
      modifies searchService`page, searchService`emitted, searchService`url
      ensures searchService.Valid()
      ensures IsBlank(searchService.searchText) ==> unchanged(searchService)
      ensures !IsBlank(searchService.searchText) ==>
        && searchService.page == 1
        && searchService.emitted == old(searchService.emitted)
             + [CurrentSearch(searchService.searchText, searchService.pageSize, 1)]
        && searchService.url == MergeQueryParams(old(searchService.url),
             CommitParams(CurrentSearch(searchService.searchText, searchService.pageSize, 1)))
    {
      if IsBlank(searchService.searchText) {
        return;
      }
      searchService.page := 1;
      searchService.Submit();
    }

    /** The paginator handler. The same size moves to page `pageIndex + 1`;
        another size goes through `setPageSize` (which submits by itself when
        it accepts the size). A submit follows in every case. */
    method OnPageChange(pageIndex: int, pageSize: int)
      requires searchService.Valid()
      modifies searchService`page, searchService`pageSize, searchService`emitted, searchService`url
      ensures searchService.Valid()
      ensures pageSize == old(searchService.pageSize) ==>
        && searchService.page == pageIndex + 1
        && searchService.pageSize == pageSize
        && searchService.SubmittedOnto(old(searchService.emitted), old(searchService.url))
      ensures pageSize != old(searchService.pageSize) && pageSize in searchService.pageSizeOptions ==>
        && searchService.page == 1
        && searchService.pageSize == pageSize
        && (IsBlank(searchService.searchText) ==>
              searchService.emitted == old(searchService.emitted)
              && searchService.url == old(searchService.url))
        && (!IsBlank(searchService.searchText) ==>
              var c := CurrentSearch(searchService.searchText, pageSize, 1);
              searchService.emitted == old(searchService.emitted) + [c, c]
              && searchService.url == MergeQueryParams(old(searchService.url), CommitParams(c)))
      ensures pageSize != old(searchService.pageSize) && pageSize !in searchService.pageSizeOptions ==>
        && searchService.page == old(searchService.page)
        && searchService.pageSize == old(searchService.pageSize)
        && searchService.SubmittedOnto(old(searchService.emitted), old(searchService.url))
    {
      if pageSize != searchService.pageSize {
        searchService.SetPageSize(pageSize);
      } else {
        searchService.page := pageIndex + 1;
      }
      ghost var committed := searchService.emitted;
      searchService.Submit();
      if pageSize != old(searchService.pageSize) && pageSize in searchService.pageSizeOptions
         && !IsBlank(searchService.searchText)
      {
        var c := searchService.Current();
        assert committed == old(searchService.emitted) + [c];
        MergeIdempotent(old(searchService.url), CommitParams(c));
      }
    }

    /** The start of a lookup: raise the loading flag and issue the request
        with the query token, the page and the page size as limit. */
    method SearchBooks(currentSearch: CurrentSearch) returns (request: LookupRequest)
      requires searchService.Valid()
      modifies searchService`isLoading
      ensures searchService.Valid()
      ensures searchService.isLoading
      ensures request.q == QueryToken(currentSearch.searchText)
      ensures request.page == currentSearch.page && request.limit == currentSearch.pageSize
    {
      var searchQuery := QueryToken(currentSearch.searchText);
      searchService.isLoading := true;
      request := LookupRequest(searchQuery, currentSearch.page, currentSearch.pageSize);
    }

    /** The end of a lookup, however it ends: lower the loading flag. A
        response reporting no book asks for the no-results notice. */
    method OnLookupSettled(outcome: LookupOutcome) returns (noResultsNotice: bool)
      requires searchService.Valid()
      modifies searchService`isLoading
      ensures searchService.Valid()
      ensures !searchService.isLoading
      ensures noResultsNotice <==> outcome.Responded? && outcome.result.numFound == 0
    {
      noResultsNotice := outcome.Responded? && outcome.result.numFound == 0;
      searchService.isLoading := false;
    }
  }

  // ---------------------------------------------------------------------
  // Clients
  // ---------------------------------------------------------------------

  /** Opening the page at `?q=dune&page=2&pageSize=20` commits that search
      without any user action. */
  method DeepLinkCommits() returns (commits: seq<CurrentSearch>)
    ensures commits == [CurrentSearch("dune", 20, 2)]
  {
    var params := map["q" := "dune", "page" := "2", "pageSize" := "20"];
    SmallNumerals();
    TrimUnpadded("dune");
    assert TextParamOr(params, "") == "dune" && NumberParamOr(params, "page", 1) == 2;
    assert NumberParamOr(params, "pageSize", 10) == 20;
    var service := new SearchService(Some(FactoryConfig), params);
    commits := service.emitted;
  }

  /** A page size in the address bar is taken even when it is not one of the
      allowed sizes. */
  method UrlPageSizeIsNotValidated() returns (pageSize: int, commits: seq<CurrentSearch>)
    ensures pageSize == 7 && commits == [CurrentSearch("dune", 7, 1)]
  {
    var params := map["q" := "dune", "pageSize" := "7"];
    SmallNumerals();
    TrimUnpadded("dune");
    assert TextParamOr(params, "") == "dune" && NumberParamOr(params, "page", 1) == 1;
    assert NumberParamOr(params, "pageSize", 10) == 7;
    var service := new SearchService(Some(SearchConfig(Some(10), Some([5, 10]))), params);
    pageSize, commits := service.pageSize, service.emitted;
  }

  /** Open the page with any non-blank `q`, then move from the first page to
      the third with the page size kept: the page is not reset. */
  method SearchThenNextPage(text: string) returns (commits: seq<CurrentSearch>)
    requires !IsBlank(text)
    ensures commits == [CurrentSearch(text, 10, 1), CurrentSearch(text, 10, 3)]
  {
    var service := new SearchService(None, map["q" := text]);
    assert service.searchText == text && service.page == 1 && service.pageSize == 10;
    assert service.emitted == [CurrentSearch(text, 10, 1)];
    var app := new AppComponent(service);
    app.OnPageChange(2, 10);
    commits := service.emitted;
  }

  /** When the router delivers the address bar a commit wrote back to the
      query-parameter callback, that search is committed a second time. */
  method RedeliveryRecommits(text: string) returns (commits: seq<CurrentSearch>)
    requires !IsBlank(text)
    ensures commits == [CurrentSearch(text, 10, 1), CurrentSearch(text, 10, 1)]
  {
    var c := CurrentSearch(text, 10, 1);
    var service := new SearchService(None, map["q" := text]);
    assert service.searchText == text && service.page == 1 && service.pageSize == 10;
    assert service.emitted == [c];
    ReloadRestoresCommit(map["q" := text], c, text, 1, 10);
    service.OnQueryParams(service.url);
    commits := service.emitted;
  }

  /** A blank query commits nothing, and neither does paging while it is blank. */
  method BlankQueryCommitsNothing() returns (page: int, commits: seq<CurrentSearch>)
    ensures page == 4 && commits == []
  {
    assert Trim("  ") == "";
    var service := new SearchService(None, map[]);
    var app := new AppComponent(service);
    app.OnSearchInputChange("  ");
    app.OnSearch();
    app.OnPageChange(3, 10);
    page, commits := service.page, service.emitted;
  }

  /** The token for a two-word mixed-case title. */
  lemma QueryTokenExample()
    ensures QueryToken("Dune II") == "dune+ii"
  {
    SplitJoinReplaces("Dune II", ' ', '+');
    assert ReplaceChar("Dune II", ' ', '+') == "Dune+II";
    assert ToLowerCase("Dune+II") == "dune+ii";
  }

  /** A lookup raises the loading flag and lowers it when it settles, and a
      response with no book asks for the notice. */
  method LookupTogglesLoading() returns (during: bool, after: bool, notice: bool, request: LookupRequest)
    ensures during && !after && notice
    ensures request == LookupRequest("dune+ii", 1, 10)
  {
    QueryTokenExample();
    var service := new SearchService(None, map[]);
    var app := new AppComponent(service);
    request := app.SearchBooks(CurrentSearch("Dune II", 10, 1));
    during := service.isLoading;
    notice := app.OnLookupSettled(Responded(SearchResult(0, [])));
    after := service.isLoading;
  }
}
