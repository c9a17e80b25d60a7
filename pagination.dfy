/** The pagination cursor of the script: the first request is for `/events`,
    and after each page the script either stops (`page >= total_pages`) or
    requests `/events?page={page + 1}`. The server is a function from the
    request to the decoded page envelope. */
module Pagination {
  import opened Decimal
  import opened Events

  /** The decoded response body: `page`, `total_pages` and `_embedded["osdi:events"]`. */
  datatype Page = Page(page: int, totalPages: int, events: seq<Event>)

  /** A value of the script's `uri` variable: the initial `/events`, or
      `/events?page=n` as built by the cursor update. */
  datatype Request = FirstPage | PageQuery(n: int)

  const EventsPath := "/events"
  const PageQueryPrefix := "/events?page="

  /** The text of the URI path: always under `/events`, and exactly
      `/events` for the first request only. */
  function Uri(r: Request): (u: string)
    ensures |EventsPath| <= |u| && u[..|EventsPath|] == EventsPath
    ensures r.FirstPage? <==> u == EventsPath
  {
    match r
    case FirstPage => EventsPath
    case PageQuery(n) => PageQueryPrefix + IntToDecimal(n)
  }

  /** Reads a URI path back; None for a path the script never builds. */
  function ParseUri(u: string): Option<Request> {
    if u == EventsPath then Some(FirstPage)
    else if |PageQueryPrefix| <= |u| && u[..|PageQueryPrefix|] == PageQueryPrefix then
      match ParseInt(u[|PageQueryPrefix|..])
      case None => None
      case Some(n) => Some(PageQuery(n))
    else None
  }

  /** Every URI the script builds reads back as the request it stands for. */
  lemma ParseUriOfUri(r: Request)
    ensures ParseUri(Uri(r)) == Some(r)
  {
    if r.PageQuery? {
      var u := Uri(r);
      assert |u| > |EventsPath|;
      assert u[..|PageQueryPrefix|] == PageQueryPrefix;
      assert u[|PageQueryPrefix|..] == IntToDecimal(r.n);
      ParseIntOfDecimal(r.n);
    }
  }

  /** Distinct requests have distinct URIs. */
  lemma UriInjective(a: Request, b: Request)
    ensures Uri(a) == Uri(b) ==> a == b
  {
    ParseUriOfUri(a);
    ParseUriOfUri(b);
  }

  /** The page a request asks for: `/events` is the first page. */
  function PageNumber(r: Request): int {
    match r
    case FirstPage => 1
    case PageQuery(n) => n
  }

  /** The cursor update after a page: None (stop) exactly when
      `page >= total_pages`, and otherwise the query request for page
      `page + 1`. */
  function NextRequest(p: Page): (r: Option<Request>)
    ensures r.None? <==> p.page >= p.totalPages
    ensures r.Some? ==> PageNumber(r.value) == p.page + 1
    ensures r.Some? ==> r.value == PageQuery(p.page + 1)
  {
    if p.page >= p.totalPages then None else Some(PageQuery(p.page + 1))
  }

  /** The request after a page that is not the last is the path
      `/events?page=` followed by the decimal text of `page + 1`, never the
      bare `/events`, whatever the page number. */
  lemma NextRequestUri(p: Page)
    ensures NextRequest(p).Some? ==>
              Uri(NextRequest(p).value) == PageQueryPrefix + IntToDecimal(p.page + 1) &&
              Uri(NextRequest(p).value) != EventsPath
  {
  }

  /** The requests made, in order, starting with `req`, when no event stops
      the run early; None when the cursor has not stopped within `fuel`
      requests. */
  function Crawl(server: Request -> Page, req: Request, fuel: nat): (r: Option<seq<Request>>)
    decreases fuel
    ensures r.Some? ==> 1 <= |r.value| <= fuel && r.value[0] == req
  {
    if fuel == 0 then None
    else
      match NextRequest(server(req))
      case None => Some([req])
      case Some(next) =>
        match Crawl(server, next, fuel - 1)
        case None => None
        case Some(rest) => Some([req] + rest)
  }

  /** Whatever the server answers, a run that stops within the budget
      follows the cursor: each request after the first is the cursor update
      of the page before it, only the last page has `page >= total_pages`,
      and the run asks for no more pages after it. */
  lemma {:induction false} CrawlFollowsCursor(server: Request -> Page, req: Request, fuel: nat)
    ensures Crawl(server, req, fuel).Some? ==>
              var reqs := Crawl(server, req, fuel).value;
              (forall k :: 0 <= k < |reqs| - 1 ==> NextRequest(server(reqs[k])) == Some(reqs[k + 1])) &&
              NextRequest(server(reqs[|reqs| - 1])).None?
    decreases fuel
  {
    var c := Crawl(server, req, fuel);
    if c.Some? && NextRequest(server(req)).Some? {
      var next := NextRequest(server(req)).value;
      CrawlFollowsCursor(server, next, fuel - 1);
      var rest := Crawl(server, next, fuel - 1).value;
      assert c.value == [req] + rest;
      forall k | 1 <= k < |c.value| - 1
        ensures NextRequest(server(c.value[k])) == Some(c.value[k + 1])
      {
        assert c.value[k] == rest[k - 1] && c.value[k + 1] == rest[k];
      }
    }
  }

  /** The events of the pages answering `reqs`, page by page, each in array order. */
  function AllEvents(server: Request -> Page, reqs: seq<Request>): seq<Event> {
    if reqs == [] then [] else server(reqs[0]).events + AllEvents(server, reqs[1..])
  }

  /** A server that answers every request with the page it asks for and a
      fixed `total_pages`. */
  ghost predicate Echoes(server: Request -> Page, total: int) {
    forall r :: server(r).page == PageNumber(r) && server(r).totalPages == total
  }

  lemma ConsecutivePages(req: Request, rest: seq<Request>, n: int)
    requires PageNumber(req) == n
    requires forall k :: 0 <= k < |rest| ==> PageNumber(rest[k]) == n + 1 + k
    ensures forall k :: 0 <= k < |rest| + 1 ==> PageNumber(([req] + rest)[k]) == n + k
  {
    var all := [req] + rest;
    assert forall k :: 1 <= k < |all| ==> all[k] == rest[k - 1];
  }

  lemma {:induction false} EchoCrawlFrom(server: Request -> Page, total: int, req: Request, fuel: nat)
    requires Echoes(server, total) && PageNumber(req) <= total
    ensures Crawl(server, req, fuel).Some? <==> fuel >= total - PageNumber(req) + 1
    ensures Crawl(server, req, fuel).Some? ==>
              var reqs := Crawl(server, req, fuel).value;
              |reqs| == total - PageNumber(req) + 1 &&
              forall k :: 0 <= k < |reqs| ==> PageNumber(reqs[k]) == PageNumber(req) + k
    decreases fuel
  {
    if fuel > 0 {
      var p := server(req);
      assert p.page == PageNumber(req) && p.totalPages == total;
      if p.page < total {
        var next := NextRequest(p).value;
        EchoCrawlFrom(server, total, next, fuel - 1);
        var c := Crawl(server, next, fuel - 1);
        if c.Some? {
          ConsecutivePages(req, c.value, p.page);
        }
      }
    }
  }

  /** A server that echoes the requested page with a fixed `total_pages`
      T >= 1 is asked for pages 1, 2, ..., T, each once and in that order,
      provided the run may make T requests; with fewer, the budget runs out
      before the cursor stops. */
  lemma EchoCrawl(server: Request -> Page, total: int, fuel: nat)
    requires Echoes(server, total) && 1 <= total
    ensures Crawl(server, FirstPage, fuel).Some? <==> fuel >= total
    ensures Crawl(server, FirstPage, fuel).Some? ==>
              var reqs := Crawl(server, FirstPage, fuel).value;
              |reqs| == total &&
              (forall k :: 0 <= k < total ==> PageNumber(reqs[k]) == k + 1) &&
              (forall i, j :: 0 <= i < j < total ==> Uri(reqs[i]) != Uri(reqs[j]))
  {
    EchoCrawlFrom(server, total, FirstPage, fuel);
    var c := Crawl(server, FirstPage, fuel);
    if c.Some? {
      forall i, j | 0 <= i < j < total
        ensures Uri(c.value[i]) != Uri(c.value[j])
      {
        UriInjective(c.value[i], c.value[j]);
      }
    }
  }
}
