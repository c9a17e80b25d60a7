/** The script's main loop: `while moreData` requests the page at `uri`,
    runs the per-event loop over its events, and moves the cursor. */
module Report {
  import opened Decimal
  import opened Events
  import opened Pagination

  /** What a run leaves behind: the URIs it requested, in order, and either
      the final loop-carried state (whose `rows` and `count` are the table
      and the total the script prints) or the reason it stopped. */
  datatype Outcome = Outcome(requests: seq<Request>, result: Result<State>)

  /** The run from the request `req` on, with state `st` and at most
      `fuel` further requests. It never makes more than `fuel` requests, and
      runs out of budget only after making all of them; a run that finishes
      made at least the request `req`, first. */
  function Run(server: Request -> Page, req: Request, st: State, now: int, fuel: nat): (r: Outcome)
    decreases fuel
    ensures |r.requests| <= fuel
    ensures r.result == Err(RequestBudgetExhausted) ==> |r.requests| == fuel
    ensures r.result.Ok? ==> 1 <= |r.requests| && r.requests[0] == req
  {
    if fuel == 0 then Outcome([], Err(RequestBudgetExhausted))
    else
      var page := server(req);
      match ProcessEvents(st, page.events, now)
      case Err(f) => Outcome([req], Err(f))
      case Ok(next) =>
        match NextRequest(page)
        case None => Outcome([req], Ok(next))
        case Some(u) =>
          var rest := Run(server, u, next, now, fuel - 1);
          Outcome([req] + rest.requests, rest.result)
  }

  /** The whole script: start at `/events` with nothing bound yet. It makes
      at most `fuel` requests; a report that is produced starts with the
      request for `/events` and prints a total `eventCnt` equal to the number
      of rows in its table. */
  function Script(server: Request -> Page, now: int, fuel: nat): (r: Outcome)
    ensures |r.requests| <= fuel
    ensures r.result.Ok? ==>
              1 <= |r.requests| && r.requests[0] == FirstPage &&
              r.result.value.count == |r.result.value.rows|
  {
    RunExtendsState(server, FirstPage, Initial, now, fuel);
    Run(server, FirstPage, Initial, now, fuel)
  }

  /** Across pages a run only adds to the loop-carried state: the rows it
      had stay as a prefix, and `eventCnt` grows by one per added row. */
  lemma {:induction false} RunExtendsState(server: Request -> Page, req: Request, st: State, now: int, fuel: nat)
    ensures var r := Run(server, req, st, now, fuel);
            r.result.Ok? ==>
              |st.rows| <= |r.result.value.rows| &&
              r.result.value.rows[..|st.rows|] == st.rows &&
              r.result.value.count - st.count == |r.result.value.rows| - |st.rows|
    decreases fuel
  {
    if fuel > 0 {
      var page := server(req);
      var first := ProcessEvents(st, page.events, now);
      if first.Ok? && NextRequest(page).Some? {
        var mid := first.value;
        RunExtendsState(server, NextRequest(page).value, mid, now, fuel - 1);
        var r := Run(server, req, st, now, fuel);
        if r.result.Ok? {
          assert r.result.value.rows[..|mid.rows|][..|st.rows|] == r.result.value.rows[..|st.rows|];
        }
      }
    }
  }

  /** When the cursor stops within the budget, the run's result is the
      per-event loop over all fetched events, page by page in fetch order. */
  lemma {:induction false} RunIsCrawlThenProcess(server: Request -> Page, req: Request, st: State, now: int, fuel: nat)
    requires Crawl(server, req, fuel).Some?
    ensures Run(server, req, st, now, fuel).result ==
            ProcessEvents(st, AllEvents(server, Crawl(server, req, fuel).value), now)
    decreases fuel
  {
    var page := server(req);
    var first := ProcessEvents(st, page.events, now);
    var reqs := Crawl(server, req, fuel).value;
    if NextRequest(page).None? {
      assert reqs == [req];
      assert AllEvents(server, reqs) == page.events + AllEvents(server, []);
      assert page.events + [] == page.events;
    } else {
      var u := NextRequest(page).value;
      var rest := Crawl(server, u, fuel - 1).value;
      assert reqs == [req] + rest;
      assert reqs[1..] == rest;
      assert AllEvents(server, reqs) == page.events + AllEvents(server, rest);
      ProcessEventsAppend(st, page.events, AllEvents(server, rest), now);
      if first.Ok? {
        RunIsCrawlThenProcess(server, u, first.value, now, fuel - 1);
      }
    }
  }

  /** A run that succeeds requested exactly the URIs of the cursor. */
  lemma {:induction false} RunRequestsCrawl(server: Request -> Page, req: Request, st: State, now: int, fuel: nat)
    requires Run(server, req, st, now, fuel).result.Ok?
    ensures Crawl(server, req, fuel) == Some(Run(server, req, st, now, fuel).requests)
    decreases fuel
  {
    var page := server(req);
    var first := ProcessEvents(st, page.events, now);
    if NextRequest(page).Some? {
      RunRequestsCrawl(server, NextRequest(page).value, first.value, now, fuel - 1);
    }
  }

  /** What a whole run produces. When the cursor stops within the budget,
      the run fails exactly when the first surviving event determines no
      status (the unbound `eventStatus`), and otherwise it requested the
      cursor's URIs, `eventCnt` equals the number of rows, and the rows are
      those of the surviving events of all pages, in fetch order. When the
      cursor does not stop within the budget, no report is produced. */
  lemma ScriptReport(server: Request -> Page, now: int, fuel: nat)
    ensures var o := Script(server, now, fuel);
            match Crawl(server, FirstPage, fuel)
            case None => o.result.Err?
            case Some(reqs) =>
              var s := Surviving(AllEvents(server, reqs));
              (o.result.Err? <==> |s| > 0 && Fresh(s[0], now).None?) &&
              (o.result.Err? ==> o.result.failure == StatusUnbound) &&
              (o.result.Ok? ==>
                 o.requests == reqs &&
                 o.result.value.count == |o.result.value.rows| == |s| &&
                 RowsFor(None, s, o.result.value.rows, now))
  {
    var c := Crawl(server, FirstPage, fuel);
    if Script(server, now, fuel).result.Ok? {
      RunRequestsCrawl(server, FirstPage, Initial, now, fuel);
    }
    if c.Some? {
      RunIsCrawlThenProcess(server, FirstPage, Initial, now, fuel);
      var es := AllEvents(server, c.value);
      ProcessEventsFails(Initial, es, now);
      var r := ProcessEvents(Initial, es, now);
      if r.Ok? {
        ProcessedRows(Initial, es, now);
        assert r.value.rows[0..] == r.value.rows;
      }
    }
  }

  /** Against a server that echoes the requested page with a fixed
      `total_pages` T >= 1, a successful run requested pages 1, ..., T,
      once each and in order, and reports the surviving events of those
      pages in that order. */
  lemma EchoScript(server: Request -> Page, total: int, now: int, fuel: nat)
    requires Echoes(server, total) && 1 <= total
    ensures var o := Script(server, now, fuel);
            o.result.Ok? ==>
              |o.requests| == total &&
              (forall k :: 0 <= k < total ==> PageNumber(o.requests[k]) == k + 1) &&
              RowsFor(None, Surviving(AllEvents(server, o.requests)), o.result.value.rows, now)
  {
    ScriptReport(server, now, fuel);
    EchoCrawl(server, total, fuel);
  }

  /** The script itself: the `while moreData` loop over pages with the `for`
      loop over each page's events inside it, updating `uri`, `moreData`,
      `eventStatus`, `eventCnt` and `eventInfo` as it goes. `maxRequests`
      bounds the number of pages requested. */
  method GenerateReport(server: Request -> Page, now: int, maxRequests: nat)
    returns (result: Result<State>, requests: seq<Request>)
    ensures Outcome(requests, result) == Script(server, now, maxRequests)
  {
    var uri := FirstPage;
    var moreData := true;
    var eventCnt: nat := 0;
    var eventInfo: seq<Row> := [];
    var eventStatus: Option<Status> := None;
    requests := [];
    var budget := maxRequests;
    while moreData
      invariant moreData ==>
        Run(server, FirstPage, Initial, now, maxRequests) ==
        var rest := Run(server, uri, State(eventStatus, eventCnt, eventInfo), now, budget);
        Outcome(requests + rest.requests, rest.result)
      invariant !moreData ==>
        Run(server, FirstPage, Initial, now, maxRequests) == Outcome(requests, Ok(State(eventStatus, eventCnt, eventInfo)))
      decreases budget
    {
      if budget == 0 {
        assert requests + [] == requests;
        return Err(RequestBudgetExhausted), requests;
      }
      ghost var requested := requests;
      ghost var current := uri;
      ghost var run := Run(server, uri, State(eventStatus, eventCnt, eventInfo), now, budget);
      var data := server(uri);
      requests := requests + [uri];
      budget := budget - 1;
      var processed := ProcessPage(State(eventStatus, eventCnt, eventInfo), data.events, now);
      if processed.Err? {
        assert run == Outcome([uri], processed);
        assert requested + [uri] == requests;
        return processed, requests;
      }
      eventStatus, eventCnt, eventInfo := processed.value.status, processed.value.count, processed.value.rows;
      if data.page >= data.totalPages {
        assert run == Outcome([uri], processed);
        moreData := false;
      } else {
        uri := PageQuery(data.page + 1);
        ghost var rest := Run(server, uri, processed.value, now, budget);
        assert run == Outcome([current] + rest.requests, rest.result);
        assert requested + ([current] + rest.requests) == requests + rest.requests;
      }
    }
    result := Ok(State(eventStatus, eventCnt, eventInfo));
  }

  /** The `for` loop over the events of one page, from the loop-carried
      variables as they stand when the page arrives. */
  method ProcessPage(st: State, events: seq<Event>, now: int) returns (result: Result<State>)
    ensures result == ProcessEvents(st, events, now)
  {
    var eventStatus, eventCnt, eventInfo := st.status, st.count, st.rows;
    for i := 0 to |events|
      invariant ProcessEvents(st, events[..i], now) == Ok(State(eventStatus, eventCnt, eventInfo))
    {
      var event := events[i];
      ghost var before := State(eventStatus, eventCnt, eventInfo);
      ProcessEventsNext(st, events, i, before, now);
      if !event.cancelled {
        if event.start > now {
          eventStatus := Some(StartsIn((event.start - now) / 86400));
        }
        if event.end.Some? {
          if event.end.value < now {
            eventStatus := Some(EndPassed);
          }
        }
        assert eventStatus == NextStatus(before.status, event, now);
        var hiddenAlert := HiddenNote(event.hidden);
        eventCnt := eventCnt + 1;
        var title := event.title;
        var numRegistrants := event.totalAccepted - 1;
        if eventStatus.None? {
          ProcessEventsPrefixFails(st, events, i + 1, now);
          return Err(StatusUnbound);
        }
        eventInfo := eventInfo + [Row(title, numRegistrants, eventStatus.value, hiddenAlert)];
      }
    }
    assert events[..|events|] == events;
    return Ok(State(eventStatus, eventCnt, eventInfo));
  }
}
