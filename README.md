# Event registrations report: a Dafny model

`event-registrations.py` is a script that lists every event of an Action
Network group, with its registrant count and a status text, and prints a
total at the end. It reads the events page by page from the
`/events` collection of the REST API. This project models the two loops that
hold all of its logic and proves what they compute:

- **The per-event row builder** (`Events`, lines 28-43). For each event of a
  page, in array order, it:
  - skips cancelled events;
  - sets the carried status `eventStatus` to "Event starts in N days." when
    the start lies in the future, N being the whole-day floor of the
    difference;
  - overwrites it with "Event end date has passed." when an end date exists
    and lies in the past;
  - adds the hidden note "(Note: event is hidden)" or "";
  - counts `total_accepted - 1` registrants;
  - appends the row `(title, numRegistrants, eventStatus, hiddenAlert)` and
    bumps `eventCnt`.

  `eventStatus` is never reset. An event that has started and not yet ended
  therefore repeats the status of the row before it. When no event has set
  the status yet, the name is unbound and the script dies with a
  `NameError`, modelled as `Err(StatusUnbound)`.
- **The pagination cursor** (`Pagination`, lines 18-19, 23 and 45-48). The
  first request is for `/events`. After each page the script stops when
  `page >= total_pages`, and otherwise requests `/events?page={page + 1}`.
- **The whole run** (`Report`). `GenerateReport` is the script's
  `while moreData` loop, with the `for` loop over a page's events in
  `ProcessPage`. Both are imperative methods over the script's own variables
  (`uri`, `moreData`, `eventStatus`, `eventCnt`, `eventInfo`). Each is proved
  equal to a function (`Script`, `ProcessEvents`), and the lemmas state
  what those functions guarantee.

Modelling choices:

- Timestamps are integer seconds.
- "Now" is one integer parameter. The script reads the clock afresh for each
  comparison.
- An event is a record of its cancelled flag (`status == 'cancelled'`), its
  start, its optional end (absent, null or empty `end_date` are all None),
  its hidden flag, `total_accepted` and its title.
- A status is `StartsIn(days) | EndPassed`. `StatusText` renders it to the
  script's exact strings, and `StatusTextInjective` shows that nothing is
  lost by keeping the datatype.
- The value of `uri` is a `Request` (`FirstPage` or `PageQuery(n)`). `Uri`
  renders it to the path text, with `n` printed as Python's `str` prints an
  integer.
- The server is a function from the request to the decoded page
  (`page`, `total_pages`, `_embedded["osdi:events"]`).

Behaviour of the script that the model keeps as it is:

- The day count is `.days` of the difference between the start timestamp
  and the current time (line 32). That is the whole-day floor of the
  duration, not a difference of calendar dates.
- The end-date check (line 33) is a second, independent `if`, not an `else`
  branch. A passed end date therefore overrides a future start.
- An event that has started and not yet ended sets no status. When it is the
  first non-cancelled event of the run, `eventStatus` has never been
  assigned, and line 43 raises `NameError` (`Scenarios.OngoingFirstEventFails`).

## Model

| member | source | states |
|---|---|---|
| `Decimal.ParseIntOfDecimal` | event-registrations.py:48 | reading back the decimal text of any integer, negative ones included, gives that integer, so `page + 1` survives being put into the URI |
| `Decimal.IntToDecimal` | event-registrations.py:48 | `str(n)` of an integer is non-empty and starts with a minus sign exactly when n is negative (the round trip is `ParseIntOfDecimal`) |
| `Decimal.NatToDecimalInjective` | event-registrations.py:32 | distinct day counts are printed as distinct digit strings |
| `Events.StatusTextInjective` | event-registrations.py:31-36 | two statuses render to the same text ("Event starts in N days." / "Event end date has passed.") only if they are the same status, so the model's `Status` loses nothing of the printed text |
| `Events.StatusText` | event-registrations.py:32-36 | the two status texts differ in their first 16 characters ("Event starts in " only for a future start), and the day count reads back from the text between that prefix and " days." |
| `Events.Fresh` | event-registrations.py:31-36 | an event determines EndPassed exactly when it has an end date before now; it determines nothing exactly when it has started and has no passed end date; a StartsIn it determines has a future start and the floor day count `DaysUntil` |
| `Events.HiddenNote` | event-registrations.py:38 | `hiddenAlert` is empty exactly when the event is not hidden, and otherwise is "(Note: event is hidden)" |
| `Events.DaysUntil` | event-registrations.py:31-32 | for a start after now, the day count N is the whole-day floor: N*86400 <= start - now < (N+1)*86400, N >= 0 |
| `Events.NextStatus` | event-registrations.py:31-36 | the status after one event is the event's own status if it has one, else the previous status; a passed end date gives EndPassed even when the start is in the future; a future start with no passed end gives StartsIn(floor days); a started event with no passed end keeps the previous status unchanged |
| `Events.ProcessEvent` | event-registrations.py:29-43 | one iteration: a cancelled event leaves the state unchanged; otherwise the iteration fails exactly when `eventStatus` is still unbound after the two date checks, and only with the unbound status |
| `Events.ProcessEventAppendsRow` | event-registrations.py:39-43 | an iteration over a non-cancelled event that does not fail adds one to `eventCnt` and appends exactly one row after the unchanged earlier rows; the row describes the event (title, `total_accepted - 1`, hidden note) and its status is the new `eventStatus` |
| `Events.Surviving` | event-registrations.py:29 | the events that pass the `status != 'cancelled'` test are never more than the events |
| `Events.SurvivingMembers` | event-registrations.py:29 | an event is among the survivors exactly when it is among the events and is not cancelled |
| `Events.SurvivingAppend` | event-registrations.py:28-29 | the filter keeps the order and works page by page: the survivors of `a + b` are those of `a` followed by those of `b` |
| `Events.ProcessEvents` | event-registrations.py:28-43 | the loop fails only with the unbound status; on success it adds exactly one row and one count per non-cancelled event, keeps the earlier rows unchanged as a prefix, and the carried status is unset only if it was unset before and no event survived |
| `Events.ProcessEventsAppend` | event-registrations.py:28-43 | running the loop over `a + b` is running it over `a` and then over `b` from the state `a` left, and a failure in `a` is final |
| `Events.ProcessEventsPrefixFails` | event-registrations.py:43 | once the events up to some point fail, the whole sequence fails with that same failure |
| `Events.CancelledIgnored` | event-registrations.py:29 | cancelled events have no effect at all: the loop over only the non-cancelled events gives the same result (rows, count, carried status, failure) |
| `Events.ProcessedRows` | event-registrations.py:30-43 | on success the added rows match the surviving events one for one and in order: same title, `total_accepted - 1` registrants with no clamping (0 gives -1), hidden note "(Note: event is hidden)" exactly when hidden, else ""; a row's status is its event's own when the event determines one, otherwise the previous row's status (or the carried-in status for the first row); the carried-out status is the last row's |
| `Events.ProcessEventsFails` | event-registrations.py:30-43 | the loop fails with the unbound status if and only if no status was carried in and the first non-cancelled event has neither a future start nor a passed end date |
| `Pagination.Uri` | event-registrations.py:48 | every path the script requests starts with `/events`, and only the first request (line 18) is exactly `/events` |
| `Pagination.ParseUriOfUri` | event-registrations.py:48 | every path the script builds (`/events`, `/events?page=n`) reads back as the request it was built from |
| `Pagination.UriInjective` | event-registrations.py:18-48 | distinct requests have distinct path texts |
| `Pagination.NextRequest` | event-registrations.py:45-48 | the cursor stops (`moreData = False`) exactly when `page >= total_pages`; otherwise the next `uri` is the query request for page `page + 1`, so that page number is what it asks for |
| `Pagination.NextRequestUri` | event-registrations.py:48 | the request after a page that is not the last has the path `/events?page=` followed by `str(page + 1)`, and is never the bare `/events`, whatever the page number (0 and negative numbers included) |
| `Pagination.Crawl` | event-registrations.py:23-48 | when the cursor stops within the request budget, the requests number at least one and at most the budget, and the first is the starting request |
| `Pagination.CrawlFollowsCursor` | event-registrations.py:23-48 | for any server, a run that stops within the budget follows the cursor: each request after the first is the cursor update of the page before it, and only the last page fetched has `page >= total_pages` |
| `Pagination.EchoCrawlFrom` | event-registrations.py:45-48 | against a server that echoes the requested page with a fixed `total_pages` T, starting at page n <= T, the cursor stops within the budget exactly when the budget is at least T - n + 1, and it then asks for pages n, n+1, ..., T in order |
| `Pagination.EchoCrawl` | event-registrations.py:18-48 | against such a server with T >= 1, starting at `/events`, it stops exactly when T requests are allowed, and it asks for pages 1..T in order, each once (pairwise distinct URIs) |
| `Report.Run` | event-registrations.py:23-48 | the `while moreData` loop from a given request and state makes at most `fuel` requests; it runs out of budget only after making all of them; a run that finishes made the given request first |
| `Report.Script` | event-registrations.py:18-48 | the whole script from `/events` with nothing bound makes at most `fuel` requests; a report that is produced starts with the request for `/events`, and its printed total `eventCnt` equals the number of rows in its table |
| `Report.RunExtendsState` | event-registrations.py:23-43 | across pages, the module-level `eventInfo` and `eventCnt` only grow: the rows held before a run stay as a prefix, and the count grows by one per added row |
| `Report.RunIsCrawlThenProcess` | event-registrations.py:23-48 | when the cursor stops within the budget, the run's result is the per-event loop over the events of all fetched pages concatenated in fetch order (page by page, each in array order) |
| `Report.RunRequestsCrawl` | event-registrations.py:23-48 | a successful run made exactly the requests of the cursor, in order |
| `Report.ScriptReport` | event-registrations.py:18-48 | for the whole script: if the cursor does not stop within the budget there is no report; otherwise the run fails exactly when the first surviving event determines no status, and fails only with the unbound status; when it succeeds, it made the cursor's requests, `eventCnt` equals the number of rows and the number of non-cancelled events, and the rows are those of `ProcessedRows` for all fetched events in fetch order |
| `Report.EchoScript` | event-registrations.py:18-48 | against an echoing server with T >= 1 pages, a successful run requested pages 1..T in order and reports the surviving events of those pages in that order |
| `Report.ProcessPage` | event-registrations.py:28-43 | the imperative `for` loop over one page's events, updating `eventStatus`, `eventCnt` and `eventInfo`, computes exactly `ProcessEvents` |
| `Report.GenerateReport` | event-registrations.py:18-48 | the imperative `while moreData` loop computes exactly the requests and the result of `Script` |
| `Scenarios.OngoingFirstEventFails` | event-registrations.py:30-43 | a single page whose only event (five accepted, started an hour ago, no end date) sets no status makes the script fail with the unbound status after one request |
| `Scenarios.StaleStatusIsRepeated` | event-registrations.py:29-43 | on one page, an event starting in three days, a cancelled event and an ongoing hidden event give two rows. Both rows carry "starts in 3 days", the cancelled event is skipped, and `total_accepted = 1` is reported as 0 |

## Left out

- HTTP requests, authentication headers, `raise_for_status` and JSON decoding are left out. They are network I/O and library calls, so a page arrives already decoded from the server function. A failed request, a non-2xx status and a missing JSON field all end the real script with an exception. None of these is modelled.
- Reading `AN_API_TOKEN` and the early `exit(1)` are left out. This is process-level I/O that comes before the modelled loops.
- `datetime.strptime` parsing of the timestamps is left out, because it is a library parser. Timestamps are given as integer seconds.
- `datetime.now()` and `date.today()` are left out. "Now" is a single whole-second parameter, although the script reads the clock several times per event, with microseconds. The script's mix of naive UTC timestamps and local time is not modelled. Three effects of this are lost:
  - Dropping sub-seconds can move the day count at an exact day boundary.
  - An end time within the current second compares as not passed in the model (`end < now` is false). The script, which compares against the clock with microseconds on line 35, finds it passed.
  - The script reads the clock again for `.days` on line 32, after the comparison on line 31. If the start passes between the two reads, it prints "Event starts in -1 days." `StartsIn(days: nat)` cannot represent that value.
- `tabulate` rendering and the `print` calls are left out, because they are output formatting by a foreign library. The model ends with the rows and the count that would be printed.
- Report.GenerateReport: takes a request budget `maxRequests` and returns `Err(RequestBudgetExhausted)` when the cursor has not stopped within it. The real script keeps requesting for ever when the server never reports `page >= total_pages`. The budget keeps the loop terminating, so that non-terminating behaviour is not modelled.
- Events.ProcessEvents: on the unbound-status failure, the real script has already bumped `eventCnt` before it fails at the append. The model drops the partial state, because the script dies at that point and prints nothing more.
