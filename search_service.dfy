/** The search-parameter state holder of the book-search client: the current
    query text, page and page size, the stream of committed searches, and the
    synchronisation of those parameters with the address bar's query map. */
module Search {
  import opened Wrappers
  import opened JsText

  /** One committed search, as pushed onto `currentSearch$`. */
  datatype CurrentSearch = CurrentSearch(searchText: string, pageSize: int, page: int)

  /** The optional injected configuration; each of its entries may be missing. */
  datatype SearchConfig = SearchConfig(defaultPageSize: Option<int>, pageSizeOptions: Option<seq<int>>)

  /** What the configuration token's factory provides when nothing else is registered. */
  const FactoryConfig := SearchConfig(Some(10), Some([5, 10, 20, 50, 100]))

  /** The address bar's query parameters, by name. */
  type QueryParams = map<string, string>

  /** `config?.defaultPageSize ?? 10`: only a missing entry falls back. */
  function ConfiguredPageSize(config: Option<SearchConfig>): int {
    if config.Some? then config.value.defaultPageSize.GetOr(10) else 10
  }

  /** `config?.pageSizeOptions ?? [10]`. */
  function ConfiguredPageSizeOptions(config: Option<SearchConfig>): seq<int> {
    if config.Some? then config.value.pageSizeOptions.GetOr([10]) else [10]
  }

  /** With no configuration the page size is 10 and the only allowed size is
      10. Otherwise each entry falls back on its own: a missing entry gives its
      default whatever the other entry is, and a present one is taken as it
      is, even 0. */
  lemma ConfigFallbacks(d: Option<int>, o: Option<seq<int>>)
    ensures ConfiguredPageSize(None) == 10 && ConfiguredPageSizeOptions(None) == [10]
    ensures d.None? ==> ConfiguredPageSize(Some(SearchConfig(d, o))) == 10
    ensures d.Some? ==> ConfiguredPageSize(Some(SearchConfig(d, o))) == d.value
    ensures o.None? ==> ConfiguredPageSizeOptions(Some(SearchConfig(d, o))) == [10]
    ensures o.Some? ==> ConfiguredPageSizeOptions(Some(SearchConfig(d, o))) == o.value
    ensures ConfiguredPageSize(Some(FactoryConfig)) == 10
    ensures ConfiguredPageSizeOptions(Some(FactoryConfig)) == [5, 10, 20, 50, 100]
  {
  }

  /** The parameters one commit writes into the address bar. */
  function CommitParams(c: CurrentSearch): QueryParams {
    map["q" := c.searchText, "page" := IntToString(c.page), "pageSize" := IntToString(c.pageSize)]
  }

  /** Navigation with `queryParamsHandling: 'merge'`: the new parameters
      override, every other parameter already present is kept. */
  function MergeQueryParams(current: QueryParams, updates: QueryParams): (r: QueryParams)
    ensures r.Keys == current.Keys + updates.Keys
    ensures forall k :: k in updates ==> r[k] == updates[k]
    ensures forall k :: k in current && k !in updates ==> r[k] == current[k]
  {
    current + updates
  }

  /** Merging the same parameters a second time changes nothing. */
  lemma MergeIdempotent(current: QueryParams, updates: QueryParams)
    ensures MergeQueryParams(MergeQueryParams(current, updates), updates) == MergeQueryParams(current, updates)
  {
  }

  /** `params['q'] || fallback`: an absent or empty `q` keeps the old text. */
  function TextParamOr(params: QueryParams, fallback: string): (r: string)
    ensures r == fallback || ("q" in params && r == params["q"])
    ensures r == "" ==> fallback == ""
    ensures "q" !in params ==> r == fallback
    ensures "q" in params && params["q"] != "" ==> r == params["q"]
  {
    if "q" in params && params["q"] != "" then params["q"] else fallback
  }

  /** `+params[key] || fallback`: an absent key, a value that is not a number
      and a value that reads as 0 all keep the old value. */
  function NumberParamOr(params: QueryParams, key: string, fallback: int): (r: int)
    ensures r == fallback || (key in params && ToNumber(params[key]) == Some(r) && r != 0)
    ensures key !in params ==> r == fallback
    ensures key in params && IsBlank(params[key]) ==> r == fallback
    ensures key in params && ToNumber(params[key]).None? ==> r == fallback
    ensures key in params && ToNumber(params[key]).Some? && ToNumber(params[key]).value != 0 ==>
      r == ToNumber(params[key]).value
  {
    if key in params then
      match ToNumber(params[key])
      case Some(n) => if n != 0 then n else fallback
      case None => fallback
    else fallback
  }

  /** Reloading the address bar a commit wrote restores that commit's query
      text, page and page size, whatever the state it is read into. */
  lemma ReloadRestoresCommit(current: QueryParams, c: CurrentSearch, text: string, page: int, pageSize: int)
    requires c.searchText != "" && c.page != 0 && c.pageSize != 0
    ensures TextParamOr(MergeQueryParams(current, CommitParams(c)), text) == c.searchText
    ensures NumberParamOr(MergeQueryParams(current, CommitParams(c)), "page", page) == c.page
    ensures NumberParamOr(MergeQueryParams(current, CommitParams(c)), "pageSize", pageSize) == c.pageSize
  {
    ToNumberOfIntToString(c.page);
    ToNumberOfIntToString(c.pageSize);
  }

  /** The address bar shows the query text, page and page size of `c`. */
  ghost predicate UrlShows(url: QueryParams, c: CurrentSearch) {
    && "q" in url && url["q"] == c.searchText
    && "page" in url && url["page"] == IntToString(c.page)
    && "pageSize" in url && url["pageSize"] == IntToString(c.pageSize)
  }

  class SearchService {
    var searchText: string
    var pageSize: int
    var pageSizeOptions: seq<int>
    var page: int
    /** The values pushed onto `currentSearch$` after its initial `null`, oldest first. */
    var emitted: seq<CurrentSearch>
    /** The current value of `isLoading$`. */
    var isLoading: bool
    /** The router's current query parameters. */
    var url: QueryParams
    /** Whether `ngOnDestroy` has ended the query-parameter subscription. */
    var destroyed: bool

    /** Every committed search has non-blank text. */
    ghost predicate Valid()
      reads this`emitted
    {
      forall i :: 0 <= i < |emitted| ==> !IsBlank(emitted[i].searchText)
    }

    /** The record `submit` would commit now. */
    function Current(): CurrentSearch
      reads this
    {
      CurrentSearch(searchText, pageSize, page)
    }

    /** The effect of one `submit` on a stream `e0` and address bar `u0`,
        given the fields as they are now. */
    ghost predicate SubmittedOnto(e0: seq<CurrentSearch>, u0: QueryParams)
      reads this
    {
      if IsBlank(searchText) then emitted == e0 && url == u0
      else emitted == e0 + [Current()] && url == MergeQueryParams(u0, CommitParams(Current()))
    }

    /** Defaults from the configuration, then the query parameters current
        at construction, delivered to the subscription as it is made. */
    constructor(config: Option<SearchConfig>, currentParams: QueryParams)
      ensures Valid()
      ensures pageSizeOptions == ConfiguredPageSizeOptions(config)
      ensures searchText == TextParamOr(currentParams, "")
      ensures page == NumberParamOr(currentParams, "page", 1)
      ensures pageSize == NumberParamOr(currentParams, "pageSize", ConfiguredPageSize(config))
      ensures !isLoading && !destroyed
      ensures SubmittedOnto([], currentParams)
    {
      searchText := "";
      page := 1;
      pageSize := ConfiguredPageSize(config);
      pageSizeOptions := ConfiguredPageSizeOptions(config);
      emitted := [];
      isLoading := false;
      url := currentParams;
      destroyed := false;
      new;
      OnQueryParams(currentParams);
    }

    /** The query-parameter subscription callback. The delivered parameters
        are the router's current ones; take `q`, `page` and `pageSize` from
        them where they are usable, then submit if there is any text. The page
        size is not checked against the options. */
    method OnQueryParams(params: QueryParams)
      requires Valid()
      modifies this`searchText, this`page, this`pageSize, this`emitted, this`url
      ensures Valid()
      ensures destroyed ==> unchanged(this)
      ensures !destroyed ==>
        && searchText == TextParamOr(params, old(searchText))
        && page == NumberParamOr(params, "page", old(page))
        && pageSize == NumberParamOr(params, "pageSize", old(pageSize))
        && SubmittedOnto(old(emitted), params)
    {
      if destroyed {
        return;
      }
      url := params;
      searchText := TextParamOr(params, searchText);
      page := NumberParamOr(params, "page", page);
      pageSize := NumberParamOr(params, "pageSize", pageSize);
      if searchText != "" {
        Submit();
      }
    }

    /** A page size from the allowed list resets the page and submits; any
        other size is ignored. */
    method SetPageSize(newSize: int)
      requires Valid()
      modifies this`pageSize, this`page, this`emitted, this`url
      ensures Valid()
      ensures newSize !in pageSizeOptions ==> unchanged(this)
      ensures newSize in pageSizeOptions ==>
        pageSize == newSize && page == 1 && SubmittedOnto(old(emitted), old(url))
    {
      if newSize in pageSizeOptions {
        pageSize := newSize;
        page := 1;
        Submit();
      }
    }

    /** Commit the current parameters unless the text is blank: merge them
        into the address bar and push them onto the stream. */
    method Submit()
      requires Valid()
      modifies this`emitted, this`url
      ensures Valid()
      ensures !IsBlank(searchText) ==> UrlShows(url, Current())
      ensures IsBlank(searchText) ==> emitted == old(emitted) && url == old(url)
      ensures !IsBlank(searchText) ==>
        emitted == old(emitted) + [CurrentSearch(searchText, pageSize, page)]
      ensures !IsBlank(searchText) ==>
        url == MergeQueryParams(old(url), CommitParams(CurrentSearch(searchText, pageSize, page)))
    {
      if IsBlank(searchText) {
        return;
      }
      var c := CurrentSearch(searchText, pageSize, page);
      url := MergeQueryParams(url, CommitParams(c));
      emitted := emitted + [c];
    }

    /** End the query-parameter subscription. */
    method NgOnDestroy()
      modifies this`destroyed
      ensures destroyed
    {
      destroyed := true;
    }
  }
}
