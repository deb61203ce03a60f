/** The fetch orchestrator and the widget's shared state: `fetchNews`, `applyFiltersAndRender`
    and the event handlers that change the filters or reset the collection. */
module Fetching {
  import opened Values
  import opened Articles
  import opened Filters
  import opened Facets
  import opened Collection

  /** The status label. */
  datatype Status = Initial | Loading | Updated(time: string) | Failed

  /** The decoded JSON payload; `results` is `None` when the field is not an array. */
  datatype Body = NotAnObject | Payload(status: JsVal, results: Option<seq<RawArticle>>, nextPage: JsVal)

  /** What `fetch` and `res.json()` deliver: a transport failure, or an HTTP status with the
      decoded body (`None` when the body is not valid JSON). */
  datatype Response = NetworkFailure | Http(code: int, body: Option<Body>)

  /** An accepted page of results and its cursor field. */
  datatype Page = Page(results: seq<RawArticle>, nextPage: JsVal)

  /** A response is accepted only with a 2xx status and a payload whose `status` is the string
      "success"; a missing or non-array `results` then reads as no results. */
  function Accepted(r: Response): (p: Option<Page>)
    ensures p.Some? <==> r.Http? && 200 <= r.code < 300 && r.body.Some? && r.body.value.Payload?
                         && r.body.value.status == Str("success")
    ensures p.Some? ==> p.value.nextPage == r.body.value.nextPage
    ensures p.Some? && r.body.value.results.Some? ==> p.value.results == r.body.value.results.value
    ensures p.Some? && r.body.value.results.None? ==> p.value.results == []
  {
    match r
    case NetworkFailure => None
    case Http(code, body) =>
      if !(200 <= code < 300) then None
      else match body
        case None => None
        case Some(NotAnObject) => None
        case Some(Payload(status, results, nextPage)) =>
          if status != Str("success") then None
          else Some(Page(match results case Some(items) => items case None => [], nextPage))
  }

  /** What the host supplies: `crypto.randomUUID` (the fallback id of the i-th record of a
      page), the `Date` parser, and the time of day shown in the status label. Each response
      is normalised with a host of its own, whose fallback ids are fresh. */
  datatype Host = Host(fallbackId: nat -> string, parseDate: string -> Option<int>, clock: string)

  /** `normalizeArticle` applied to the record at position `n` of a page. */
  function NormalizeAt(host: Host, a: RawArticle, n: nat): Article
  {
    NormalizeArticle(a, host.fallbackId(n), host.parseDate)
  }

  /** `f` over `s` with the context `c`, each element with its position counted from `k`. */
  function MapFrom<C, T, U>(f: (C, T, nat) -> U, c: C, s: seq<T>, k: nat): (r: seq<U>)
    ensures |r| == |s|
  {
    if |s| == 0 then [] else [f(c, s[0], k)] + MapFrom(f, c, s[1..], k + 1)
  }

  lemma {:induction false} MapFromAt<C, T, U>(f: (C, T, nat) -> U, c: C, s: seq<T>, k: nat, i: nat)
    requires i < |s|
    ensures MapFrom(f, c, s, k)[i] == f(c, s[i], k + i)
  {
    if i > 0 {
      MapFromAt(f, c, s[1..], k + 1, i - 1);
      assert k + 1 + (i - 1) == k + i;
    }
  }

  lemma MapFromStartAt<C, T, U>(f: (C, T, nat) -> U, c: C, s: seq<T>, i: nat)
    requires i < |s|
    ensures MapFrom(f, c, s, 0)[i] == f(c, s[i], i)
  {
    MapFromAt(f, c, s, 0, i);
  }

  /** `results.map(normalizeArticle)` */
  function NormalizePage(results: seq<RawArticle>, host: Host): (r: seq<Article>)
    ensures |r| == |results|
  {
    MapFrom(NormalizeAt, host, results, 0)
  }

  /** `results.map(normalizeArticle)`: the page keeps its order and length, and the article
      at position `i` is the normalisation of the record at `i`, with fallback id number `i`. */
  lemma NormalizePageAt(results: seq<RawArticle>, host: Host, i: nat)
    requires i < |results|
    ensures NormalizePage(results, host)[i] == NormalizeArticle(results[i], host.fallbackId(i), host.parseDate)
  {
    MapFromStartAt(NormalizeAt, host, results, i);
  }

  /** A record without a usable id, re-sent in a later page, is admitted again once the host
      draws a fallback id the collection does not hold, as a fresh `crypto.randomUUID` would:
      the collection then holds the same article twice under two ids. */
  lemma ResentIdlessRecordIsAdmitted(existing: seq<Article>, r: RawArticle, host: Host)
    requires !(r.articleId.Str? && r.articleId.s != "")
    requires host.fallbackId(0) !in Ids(existing)
    ensures Merge(existing, NormalizePage([r], host), true) == existing + NormalizePage([r], host)
    ensures NormalizePage([r], host)[0].id == host.fallbackId(0)
  {
    var page := NormalizePage([r], host);
    NormalizePageAt([r], host, 0);
    FreshPageAdmitsItsHead(existing, page);
  }

  /** One started fetch: the `append` flag of the call and the `page` parameter of its URL. */
  datatype Request = Request(append: bool, page: Option<string>)

  /** The "load more" button is enabled iff no fetch is in flight and there is a cursor. */
  predicate LoadMoreEnabled(isLoading: bool, nextPage: Option<string>)
  {
    !isLoading && nextPage.Some?
  }

  class NewsState {
    var all: seq<Article>
    var visible: seq<Article>
    var nextPage: Option<string>
    var isLoading: bool
    var filters: Criteria
    // what the view shows
    var facets: FacetLists
    var chips: seq<Chip>
    var status: Status
    var errorShown: bool
    var emptyShown: bool
    var loadMoreDisabled: bool

    /** The cursor is never the empty string, and the facet lists are always sorted, distinct
        and without the empty string. */
    ghost predicate Consistent()
      reads this`nextPage, this`facets
    {
      (nextPage.Some? ==> nextPage.value != "") && WellFormed(facets)
    }

    /** Between events, the chips also describe the current filters, and the empty state is
        never shown while a fetch is in flight. */
    ghost predicate Valid()
      reads this`nextPage, this`facets, this`chips, this`filters, this`isLoading, this`emptyShown
    {
      Consistent() && chips == Chips(filters) && (isLoading ==> !emptyShown)
    }

    /** The initial `state` object. */
    constructor ()
      ensures Valid()
      ensures all == [] && visible == [] && nextPage == None && !isLoading && filters == NoCriteria
      ensures facets == NoFacets && chips == [] && status == Initial
      ensures !errorShown && !emptyShown && !loadMoreDisabled
    {
      all, visible, nextPage, isLoading, filters := [], [], None, false, NoCriteria;
      facets, chips, status := NoFacets, [], Initial;
      errorShown, emptyShown, loadMoreDisabled := false, false, false;
      assert Chips(NoCriteria) == [] by { ChipsEmpty(); }
    }

    static lemma ChipsEmpty()
      ensures Chips(NoCriteria) == []
    {
    }

    /** `applyFiltersAndRender`: recomputes the chips, the visible list and the two flags;
        the collection, the cursor and the filters stay as they are. */
    method ApplyFiltersAndRender()
      requires Consistent()
      modifies this`chips, this`visible, this`emptyShown, this`loadMoreDisabled
      ensures Valid()
      ensures visible == FilterArticles(all, filters)
      ensures emptyShown == (!isLoading && |visible| == 0)
      ensures loadMoreDisabled == !LoadMoreEnabled(isLoading, nextPage)
    {
      chips := Chips(filters);
      visible := FilterArticles(all, filters);
      emptyShown := !isLoading && |visible| == 0;
      loadMoreDisabled := isLoading || nextPage.None?;
    }

    /** The input and change handlers of the search box and the three selects. */
    method SetFilter(k: FilterKey, v: string)
      requires Valid()
      modifies this`filters, this`chips, this`visible, this`emptyShown, this`loadMoreDisabled
      ensures Valid()
      ensures filters == WithField(old(filters), k, v)
      ensures chips == Chips(filters)
      ensures visible == FilterArticles(all, filters)
      ensures emptyShown == (!isLoading && |visible| == 0)
      ensures loadMoreDisabled == !LoadMoreEnabled(isLoading, nextPage)
    {
      filters := WithField(filters, k, v);
      ApplyFiltersAndRender();
    }

    /** The remove button of a chip: that criterion is cleared, the chip disappears and the
        other chips stay. */
    method RemoveChip(k: FilterKey)
      requires Valid()
      modifies this`filters, this`chips, this`visible, this`emptyShown, this`loadMoreDisabled
      ensures Valid()
      ensures Field(filters, k) == "" && !HasChip(chips, k)
      ensures forall k' :: k' != k ==> Field(filters, k') == Field(old(filters), k')
      ensures forall k' :: k' != k ==> (HasChip(chips, k') <==> HasChip(old(chips), k'))
      ensures visible == FilterArticles(all, filters)
      ensures emptyShown == (!isLoading && |visible| == 0)
      ensures loadMoreDisabled == !LoadMoreEnabled(isLoading, nextPage)
    {
      SetFilter(k, "");
      ChipPresent(filters, k);
      forall k' | k' != k ensures HasChip(chips, k') <==> HasChip(old(chips), k') {
        ChipPresent(filters, k');
        ChipPresent(old(filters), k');
      }
    }

    /** The "clear" button: every criterion is reset, so every loaded article is visible. */
    method ClearFilters()
      requires Valid()
      modifies this`filters, this`chips, this`visible, this`emptyShown, this`loadMoreDisabled
      ensures Valid()
      ensures filters == NoCriteria && chips == []
      ensures visible == all
      ensures emptyShown == (!isLoading && |all| == 0)
      ensures loadMoreDisabled == !LoadMoreEnabled(isLoading, nextPage)
    {
      filters := NoCriteria;
      ApplyFiltersAndRender();
      ChipsEmpty();
      FilterNoCriteria(all);
    }

    /** The synchronous part of `fetchNews` up to the network call: the single-flight guard,
        the loading indicators and the request. A call while a fetch is in flight changes
        nothing and starts nothing. */
    method BeginFetch(append: bool) returns (req: Option<Request>)
      requires Valid()
      modifies this`isLoading, this`errorShown, this`emptyShown, this`status, this`loadMoreDisabled
      ensures Valid()
      ensures old(isLoading) ==> req == None && unchanged(this)
      ensures !old(isLoading) ==> req == Some(Request(append, PageParam(old(nextPage), append)))
      ensures !old(isLoading) ==> isLoading && !errorShown && !emptyShown && loadMoreDisabled && status == Loading
    {
      if isLoading {
        return None;
      }
      isLoading := true;
      errorShown := false;
      emptyShown := false;
      status := Loading;
      loadMoreDisabled := true;
      req := Some(Request(append, PageParam(nextPage, append)));
    }

    /** The success path of `fetchNews` once the page is merged: the collection, the cursor,
        the facets and the status are set, then `applyFiltersAndRender` runs while the flag
        is still set. */
    method AcceptPage(merged: seq<Article>, cursor: JsVal, clock: string)
      requires Valid() && isLoading
      modifies this`all, this`nextPage, this`facets, this`status, this`chips, this`visible, this`emptyShown,
              this`loadMoreDisabled
      ensures Valid() && isLoading
      ensures all == merged
      ensures nextPage == Cursor(cursor)
      ensures facets == BuildFacets(all)
      ensures visible == FilterArticles(all, filters)
      ensures status == Updated(clock)
      ensures !emptyShown && loadMoreDisabled
    {
      var options := BuildFacets(merged);
      assert WellFormed(options);
      all, nextPage, facets, status := merged, Cursor(cursor), options, Updated(clock);
      ApplyFiltersAndRender();
    }

    /** The rest of `fetchNews` once the response is in: on success the page is merged, the
        cursor, the facets and the visible list are recomputed; on any failure the data is
        left alone and the error is shown; in both cases the `finally` block ends the flight.
        The visible list is recomputed while the flag is still set, so the empty state stays
        hidden after a fetch. */
    method CompleteFetch(req: Request, resp: Response, host: Host)
      requires Valid() && isLoading
      modifies this`all, this`nextPage, this`facets, this`status, this`chips, this`visible, this`emptyShown,
              this`loadMoreDisabled, this`isLoading, this`errorShown
      ensures Valid()
      ensures !isLoading && loadMoreDisabled == nextPage.None?
      ensures var p := Accepted(resp); p.Some? ==>
                && all == Merge(old(all), NormalizePage(p.value.results, host), req.append)
                && nextPage == Cursor(p.value.nextPage)
                && facets == BuildFacets(all)
                && visible == FilterArticles(all, filters)
                && status == Updated(host.clock)
                && !emptyShown && errorShown == old(errorShown)
      ensures Accepted(resp).None? ==>
                && all == old(all) && nextPage == old(nextPage)
                && facets == old(facets) && visible == old(visible)
                && status == Failed && errorShown && emptyShown == old(emptyShown)
      ensures !emptyShown
    {
      var page := Accepted(resp);
      if page.Some? {
        AcceptPage(Merge(all, NormalizePage(page.value.results, host), req.append), page.value.nextPage, host.clock);
      } else {
        ShowError();
      }
      EndFlight();
    }

    /** The `catch` block: the error message and the failed status. */
    method ShowError()
      modifies this`errorShown, this`status
      ensures errorShown && status == Failed
    {
      errorShown := true;
      status := Failed;
    }

    /** The `finally` block: the flight is over and the "load more" button follows the cursor. */
    method EndFlight()
      requires Valid()
      modifies this`isLoading, this`loadMoreDisabled
      ensures Valid()
      ensures !isLoading && loadMoreDisabled == !LoadMoreEnabled(isLoading, nextPage)
    {
      isLoading := false;
      loadMoreDisabled := isLoading || nextPage.None?;
    }

    /** `fetchNews({ append })` when nothing else happens while the request is in flight. */
    method Fetch(append: bool, resp: Response, host: Host)
      requires Valid()
      modifies this
      ensures Valid()
      ensures old(isLoading) ==> unchanged(this)
      ensures !old(isLoading) ==> !isLoading && loadMoreDisabled == nextPage.None? && filters == old(filters)
      ensures var p := Accepted(resp); !old(isLoading) && p.Some? ==>
                && all == Merge(old(all), NormalizePage(p.value.results, host), append)
                && nextPage == Cursor(p.value.nextPage)
                && facets == BuildFacets(all)
                && visible == FilterArticles(all, filters)
                && status == Updated(host.clock) && !errorShown && !emptyShown
      ensures !old(isLoading) && Accepted(resp).None? ==>
                && all == old(all) && nextPage == old(nextPage)
                && facets == old(facets) && visible == old(visible)
                && status == Failed && errorShown && !emptyShown
    {
      var req := BeginFetch(append);
      if req.Some? {
        CompleteFetch(req.value, resp, host);
      }
    }

    /** The "refresh" button: the collection and the cursor are dropped first, then a fetch
        with `append` is started; while a fetch is in flight only the clearing happens. */
    method Refresh() returns (req: Option<Request>)
      requires Valid()
      modifies this`all, this`nextPage, this`isLoading, this`errorShown, this`emptyShown, this`status,
              this`loadMoreDisabled
      ensures Valid()
      ensures all == [] && nextPage == None && isLoading
      ensures old(isLoading) ==> req == None
      ensures old(isLoading) ==>
                && status == old(status) && errorShown == old(errorShown)
                && emptyShown == old(emptyShown) && loadMoreDisabled == old(loadMoreDisabled)
      ensures !old(isLoading) ==>
                && req == Some(Request(true, None)) && status == Loading
                && !errorShown && !emptyShown && loadMoreDisabled
    {
      all := [];
      nextPage := None;
      req := BeginFetch(true);
    }

    /** Refresh with nothing else in flight: afterwards the collection is exactly the head of
        the new page, with none of the articles loaded before. */
    method RefreshAndLoad(resp: Response, host: Host)
      requires Valid() && !isLoading
      modifies this
      ensures Valid() && !isLoading
      ensures filters == old(filters)
      ensures Accepted(resp).Some? ==>
                && all == Take(NormalizePage(Accepted(resp).value.results, host), PageSize)
                && nextPage == Cursor(Accepted(resp).value.nextPage)
                && facets == BuildFacets(all)
                && visible == FilterArticles(all, filters)
                && status == Updated(host.clock)
                && !errorShown && !emptyShown && loadMoreDisabled == nextPage.None?
      ensures Accepted(resp).None? ==>
                && all == [] && nextPage == None
                && facets == old(facets) && visible == old(visible)
                && status == Failed && errorShown && !emptyShown && loadMoreDisabled
    {
      var req := Refresh();
      CompleteFetch(req.value, resp, host);
      if Accepted(resp).Some? {
        FreshPageAdmitsItsHead([], NormalizePage(Accepted(resp).value.results, host));
      }
    }
  }

  /** Two starts before the first response arrives: the second one is dropped and the
      collection receives exactly one page. */
  method SecondFetchWhilePendingIsDropped(resp: Response, host: Host)
    returns (first: Option<Request>, second: Option<Request>, loaded: seq<Article>)
    ensures first == Some(Request(true, None)) && second == None
    ensures Accepted(resp).Some? ==> loaded == Admitted([], NormalizePage(Accepted(resp).value.results, host))
    ensures Accepted(resp).None? ==> loaded == []
  {
    var s := new NewsState();
    first := s.BeginFetch(true);
    second := s.BeginFetch(true);
    s.CompleteFetch(first.value, resp, host);
    loaded := s.all;
  }

  /** A refresh while a load-more is in flight: the refresh only clears, and the pending
      response is then merged into the emptied collection, as the first page of a new one. */
  method RefreshDuringFlight(first: Response, firstHost: Host, second: Response, host: Host)
    returns (loaded: seq<Article>, restarted: Option<Request>)
    ensures restarted == None
    ensures Accepted(second).Some? ==> loaded == Admitted([], NormalizePage(Accepted(second).value.results, host))
    ensures Accepted(second).None? ==> loaded == []
  {
    var s := new NewsState();
    s.Fetch(true, first, firstHost);
    var pending := s.BeginFetch(true);
    restarted := s.Refresh();
    s.CompleteFetch(pending.value, second, host);
    loaded := s.all;
  }
}
