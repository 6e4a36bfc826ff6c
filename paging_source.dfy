/**
 * The page-keyed data source: `loadInitial` fetches the first page,
 * `loadBefore` and `loadAfter` parse the page key they are given, ask the
 * API for the `offset` and `limit` it names, and hand the callback the
 * entries together with the cursor for the next load in their direction.
 *
 * The HTTP call is a parameter `fetch`; its `None` is an `IOException`,
 * which the source catches and prints, so that no page is delivered.
 */
module PagingSource {
  import opened Wrappers
  import opened Api
  import opened JavaStrings
  import opened PageCursor

  /** The two query arguments of `listPokemons(offset, limit)`; None is `null`. */
  datatype Request = Request(offset: Option<string>, limit: Option<string>)

  /** What `LoadInitialCallback.onResult(data, previousPageKey, nextPageKey)` receives. */
  datatype InitialPage = InitialPage(data: seq<Result>, previousPageKey: Option<string>, nextPageKey: Option<string>)

  /** What `LoadCallback.onResult(data, adjacentPageKey)` receives. */
  datatype Page = Page(data: seq<Result>, adjacentPageKey: Option<string>)

  /**
   * How one load ends: a page handed to the callback, an `IOException`
   * caught and printed, or an index exception from parsing the key that
   * escapes the method before any request is made.
   */
  datatype Outcome<P> = Delivered(page: P) | IoFailed | Threw

  /** The arguments `map.get("offset")`, `map.get("limit")`. */
  function RequestFor(params: map<string, string>): (req: Request)
    ensures req.offset.Some? <==> "offset" in params
    ensures req.offset.Some? ==> req.offset.value == params["offset"]
    ensures req.limit.Some? <==> "limit" in params
    ensures req.limit.Some? ==> req.limit.value == params["limit"]
  {
    Request(Lookup(params, "offset"), Lookup(params, "limit"))
  }

  /** The page `loadInitial` hands on: the entries and both cursors. */
  function InitialPageOf(response: Response): (page: InitialPage)
    ensures page.data == response.results
    ensures page.previousPageKey == response.previous && page.nextPageKey == response.next
  {
    InitialPage(response.results, response.previous, response.next)
  }

  /** The page `loadBefore` hands on: the entries and the `previous` cursor. */
  function BeforePageOf(response: Response): (page: Page)
    ensures page.data == response.results && page.adjacentPageKey == response.previous
  {
    Page(response.results, response.previous)
  }

  /** The page `loadAfter` hands on: the entries and the `next` cursor. */
  function AfterPageOf(response: Response): (page: Page)
    ensures page.data == response.results && page.adjacentPageKey == response.next
  {
    Page(response.results, response.next)
  }

  /** `loadInitial`: no key to parse, the first page with both of its cursors. */
  function LoadInitial(fetched: Option<Response>): (o: Outcome<InitialPage>)
    ensures o != Threw
    ensures o.Delivered? <==> fetched.Some?
    ensures fetched.Some? ==> o == Delivered(InitialPageOf(fetched.value))
  {
    match fetched
    case None => IoFailed
    case Some(response) => Delivered(InitialPageOf(response))
  }

  /** `loadBefore`: parse the key, fetch, forward the entries and the `previous` cursor. */
  method LoadBefore(key: string, fetch: Request -> Option<Response>) returns (sent: Option<Request>, o: Outcome<Page>)
    ensures sent.None? <==> ParseCursor(key).None?
    ensures sent.Some? ==> sent.value == RequestFor(ParseCursor(key).value)
    ensures sent.None? ==> o == Threw
    ensures sent.Some? && fetch(sent.value).None? ==> o == IoFailed
    ensures sent.Some? && fetch(sent.value).Some? ==> o == Delivered(BeforePageOf(fetch(sent.value).value))
  {
    var params := BuildQueryMap(key);
    if params.None? {
      return None, Threw;
    }
    var req := RequestFor(params.value);
    sent := Some(req);
    var body := fetch(req);
    if body.None? {
      o := IoFailed;
    } else {
      o := Delivered(BeforePageOf(body.value));
    }
  }

  /** `loadAfter`: the same parse and request as `loadBefore`, forwarding the `next` cursor instead. */
  method LoadAfter(key: string, fetch: Request -> Option<Response>) returns (sent: Option<Request>, o: Outcome<Page>)
    ensures sent.None? <==> ParseCursor(key).None?
    ensures sent.Some? ==> sent.value == RequestFor(ParseCursor(key).value)
    ensures sent.None? ==> o == Threw
    ensures sent.Some? && fetch(sent.value).None? ==> o == IoFailed
    ensures sent.Some? && fetch(sent.value).Some? ==> o == Delivered(AfterPageOf(fetch(sent.value).value))
  {
    var params := BuildQueryMap(key);
    if params.None? {
      return None, Threw;
    }
    var req := RequestFor(params.value);
    sent := Some(req);
    var body := fetch(req);
    if body.None? {
      o := IoFailed;
    } else {
      o := Delivered(AfterPageOf(body.value));
    }
  }

  /**
   * The cursor-direction rule. Every load passes the entries on unchanged;
   * the initial load forwards both cursors, `loadBefore` only `previous`
   * and `loadAfter` only `next`: each is blind to the cursor it drops.
   */
  lemma CursorDirection(response: Response, otherPrevious: Option<string>, otherNext: Option<string>)
    ensures InitialPageOf(response).data == BeforePageOf(response).data == AfterPageOf(response).data == response.results
    ensures BeforePageOf(response).adjacentPageKey == InitialPageOf(response).previousPageKey == response.previous
    ensures AfterPageOf(response).adjacentPageKey == InitialPageOf(response).nextPageKey == response.next
    ensures BeforePageOf(response.(next := otherNext)) == BeforePageOf(response)
    ensures AfterPageOf(response.(previous := otherPrevious)) == AfterPageOf(response)
  {
  }

  /**
   * A query that names no `offset` still parses; the request then carries
   * a `null` offset rather than failing. Likewise for `limit`.
   */
  lemma AbsentParameterIsNull(key: string, q: string, params: seq<Param>, name: string)
    requires QueryPart(key) == Some(q)
    requires ParamsOf(Split(q, '&')) == Some(params)
    requires name == "offset" || name == "limit"
    requires forall i :: 0 <= i < |params| ==> params[i].name != name
    ensures ParseCursor(key).Some?
    ensures name == "offset" ==> RequestFor(ParseCursor(key).value).offset == None
    ensures name == "limit" ==> RequestFor(ParseCursor(key).value).limit == None
  {
    ParsedMap(key);
  }
}
