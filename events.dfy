/** The per-event row builder: the body of the `for` loop that turns each
    event record of a fetched page into a report row (`eventInfo`), bumping
    the event counter (`eventCnt`) and threading the status text
    (`eventStatus`) from one event to the next without ever resetting it. */
module Events {
  import opened Decimal

  /** An event record of the `osdi:events` array, timestamps already parsed
      into integer seconds. `cancelled` is `status == 'cancelled'`; `end` is
      None when `end_date` is absent or empty. */
  datatype Event = Event(
    cancelled: bool,
    start: int,
    end: Option<int>,
    hidden: bool,
    totalAccepted: int,
    title: string)

  /** The two status texts the script can produce. */
  datatype Status = StartsIn(days: nat) | EndPassed

  /** One row of `eventInfo`: `(title, numRegistrants, eventStatus, hiddenAlert)`. */
  datatype Row = Row(title: string, registrants: int, status: Status, hiddenNote: string)

  /** The loop-carried variables of the script: the status of the last event
      that set one (None while the name `eventStatus` is still unbound),
      `eventCnt` and `eventInfo`. */
  datatype State = State(status: Option<Status>, count: nat, rows: seq<Row>)

  /** Ways a run of the script ends without a report. `StatusUnbound` is the
      `NameError` raised when a row is built before any event has set
      `eventStatus`; `RequestBudgetExhausted` stands for a run that would
      keep requesting pages for ever. */
  datatype Failure = StatusUnbound | RequestBudgetExhausted

  datatype Result<T> = Ok(value: T) | Err(failure: Failure)

  const Initial := State(None, 0, [])

  const HiddenNoteText := "(Note: event is hidden)"

  /** The text a status renders to in the report: the two texts differ in
      their first 16 characters, and the day count reads back from the text
      between the prefix and " days.". */
  function StatusText(s: Status): (t: string)
    ensures 16 <= |t|
    ensures s.StartsIn? <==> t[..16] == "Event starts in "
    ensures s.StartsIn? ==> 22 < |t| && ParseNat(t[16..|t| - 6]) == Some(s.days)
  {
    match s
    case StartsIn(n) =>
      var t := "Event starts in " + NatToDecimal(n) + " days.";
      ParseNatOfDecimal(n);
      assert t[16..|t| - 6] == NatToDecimal(n);
      t
    case EndPassed =>
      var t := "Event end date has passed.";
      assert t[..16][6] != "Event starts in "[6];
      t
  }

  /** Different statuses render differently, so a Status loses nothing of
      the text: the prefix tells the two kinds apart, and the day count
      reads back from the text. */
  lemma StatusTextInjective(a: Status, b: Status)
    ensures StatusText(a) == StatusText(b) ==> a == b
  {
  }

  /** `(start - now).days` for a start in the future: the whole-day floor
      of the duration, a day being 86400 seconds. */
  function DaysUntil(start: int, now: int): (n: nat)
    requires start > now
    ensures n * 86400 <= start - now < (n + 1) * 86400
  {
    (start - now) / 86400
  }

  /** The status an event determines on its own, if any: a passed end date
      wins over a future start, and an event that has started and not yet
      ended determines none. */
  function Fresh(e: Event, now: int): (r: Option<Status>)
    ensures r == Some(EndPassed) <==> e.end.Some? && e.end.value < now
    ensures r.None? <==> e.start <= now && !(e.end.Some? && e.end.value < now)
    ensures r.Some? && r.value.StartsIn? ==> e.start > now && r.value.days == DaysUntil(e.start, now)
  {
    if e.end.Some? && e.end.value < now then Some(EndPassed)
    else if e.start > now then Some(StartsIn(DaysUntil(e.start, now)))
    else None
  }

  /** `eventStatus` after the two `if` statements of one event: first the
      start-date check may set it, then the end-date check may overwrite it. */
  function NextStatus(prev: Option<Status>, e: Event, now: int): (r: Option<Status>)
    ensures r == if Fresh(e, now).Some? then Fresh(e, now) else prev
    ensures e.end.Some? && e.end.value < now ==> r == Some(EndPassed)
    ensures e.start > now && !(e.end.Some? && e.end.value < now) ==>
              r == Some(StartsIn(DaysUntil(e.start, now)))
    ensures e.start <= now && !(e.end.Some? && e.end.value < now) ==> r == prev
  {
    var afterStart := if e.start > now then Some(StartsIn(DaysUntil(e.start, now))) else prev;
    if e.end.Some? && e.end.value < now then Some(EndPassed) else afterStart
  }

  /** `hiddenAlert`: empty exactly for a visible event, the note otherwise. */
  function HiddenNote(hidden: bool): (r: string)
    ensures r == "" <==> !hidden
    ensures r != "" ==> r == HiddenNoteText
  {
    if hidden then HiddenNoteText else ""
  }

  /** What the report row says about its event, apart from the status. */
  predicate Describes(row: Row, e: Event) {
    row.title == e.title &&
    row.registrants == e.totalAccepted - 1 &&
    row.hiddenNote == HiddenNote(e.hidden)
  }

  /** One iteration of the `for` loop: a cancelled event changes nothing;
      otherwise the iteration fails exactly when `eventStatus` is still
      unbound after the two date checks. */
  function ProcessEvent(st: State, e: Event, now: int): (r: Result<State>)
    ensures e.cancelled ==> r == Ok(st)
    ensures r.Err? <==> !e.cancelled && NextStatus(st.status, e, now).None?
    ensures r.Err? ==> r.failure == StatusUnbound
  {
    if e.cancelled then Ok(st)
    else
      var status := NextStatus(st.status, e, now);
      if status.None? then Err(StatusUnbound)
      else Ok(State(status, st.count + 1,
                    st.rows + [Row(e.title, e.totalAccepted - 1, status.value, HiddenNote(e.hidden))]))
  }

  /** An iteration over an event that is not cancelled and does not fail
      counts the event and appends one row describing it, whose status is
      the new `eventStatus`; the rows before it are unchanged. */
  lemma ProcessEventAppendsRow(st: State, e: Event, now: int)
    ensures var r := ProcessEvent(st, e, now);
            r.Ok? && !e.cancelled ==>
              var out := r.value;
              out.count == st.count + 1 &&
              |out.rows| == |st.rows| + 1 &&
              out.rows[..|st.rows|] == st.rows &&
              Describes(out.rows[|st.rows|], e) &&
              out.status == Some(out.rows[|st.rows|].status) == NextStatus(st.status, e, now)
  {
  }

  /** The events that are not cancelled, in their original order. */
  function Surviving(es: seq<Event>): (r: seq<Event>)
    ensures |r| <= |es|
  {
    if es == [] then []
    else
      var last := es[|es| - 1];
      Surviving(es[..|es| - 1]) + (if last.cancelled then [] else [last])
  }

  /** The events that survive are exactly the non-cancelled ones. */
  lemma {:induction false} SurvivingMembers(es: seq<Event>)
    ensures forall e :: e in Surviving(es) <==> e in es && !e.cancelled
  {
    if es != [] {
      var init, last := es[..|es| - 1], es[|es| - 1];
      SurvivingMembers(init);
      assert es == init + [last];
    }
  }

  /** Filtering keeps the order: the survivors of `a + b` are those of `a`
      followed by those of `b`. */
  lemma {:induction false} SurvivingAppend(a: seq<Event>, b: seq<Event>)
    ensures Surviving(a + b) == Surviving(a) + Surviving(b)
  {
    if b == [] {
      assert a + b == a;
    } else {
      var b0, last := b[..|b| - 1], b[|b| - 1];
      SurvivingAppend(a, b0);
      assert (a + b)[..|a + b| - 1] == a + b0;
      assert (a + b)[|a + b| - 1] == last;
    }
  }

  /** The whole `for` loop over the events of one page, starting from `st`. */
  function ProcessEvents(st: State, es: seq<Event>, now: int): (r: Result<State>)
    decreases |es|
    ensures r.Err? ==> r.failure == StatusUnbound
    ensures r.Ok? ==> |r.value.rows| == |st.rows| + |Surviving(es)|
    ensures r.Ok? ==> r.value.rows[..|st.rows|] == st.rows
    ensures r.Ok? ==> r.value.count == st.count + |Surviving(es)|
    ensures r.Ok? ==> (r.value.status.None? <==> st.status.None? && |Surviving(es)| == 0)
  {
    if es == [] then Ok(st) else Step(ProcessEvents(st, es[..|es| - 1], now), es[|es| - 1], now)
  }

  /** One more event after a partial result; a failure stays a failure. */
  function Step(r: Result<State>, e: Event, now: int): Result<State> {
    match r
    case Err(f) => Err(f)
    case Ok(s) => ProcessEvent(s, e, now)
  }

  lemma ProcessEventsSnoc(st: State, es: seq<Event>, e: Event, now: int)
    ensures ProcessEvents(st, es + [e], now) == Step(ProcessEvents(st, es, now), e, now)
  {
    assert (es + [e])[..|es|] == es;
  }

  /** The loop after event `i`, from the state it reached before it. */
  lemma ProcessEventsNext(st: State, es: seq<Event>, i: nat, before: State, now: int)
    requires i < |es| && ProcessEvents(st, es[..i], now) == Ok(before)
    ensures ProcessEvents(st, es[..i + 1], now) == ProcessEvent(before, es[i], now)
  {
    assert es[..i + 1] == es[..i] + [es[i]];
    ProcessEventsSnoc(st, es[..i], es[i], now);
  }

  /** Continue a partial result with more events; a failure stays a failure. */
  function Continue(r: Result<State>, es: seq<Event>, now: int): Result<State> {
    match r
    case Err(f) => Err(f)
    case Ok(s) => ProcessEvents(s, es, now)
  }

  /** Processing `a + b` is processing `a`, then `b` from where `a` left off. */
  lemma {:induction false} ProcessEventsAppend(st: State, a: seq<Event>, b: seq<Event>, now: int)
    ensures ProcessEvents(st, a + b, now) == Continue(ProcessEvents(st, a, now), b, now)
  {
    if b == [] {
      assert a + b == a;
    } else {
      var b0 := b[..|b| - 1];
      ProcessEventsAppend(st, a, b0, now);
      assert (a + b)[..|a + b| - 1] == a + b0;
      assert (a + b)[|a + b| - 1] == b[|b| - 1];
    }
  }

  /** Once a prefix of the events fails, the whole sequence fails the same way. */
  lemma ProcessEventsPrefixFails(st: State, es: seq<Event>, j: nat, now: int)
    requires j <= |es| && ProcessEvents(st, es[..j], now).Err?
    ensures ProcessEvents(st, es, now) == ProcessEvents(st, es[..j], now)
  {
    ProcessEventsAppend(st, es[..j], es[j..], now);
    assert es[..j] + es[j..] == es;
  }

  /** Cancelled events are invisible: they change neither the rows, nor the
      counter, nor the carried status. */
  lemma {:induction false} CancelledIgnored(st: State, es: seq<Event>, now: int)
    ensures ProcessEvents(st, Surviving(es), now) == ProcessEvents(st, es, now)
  {
    if es != [] {
      var init, last := es[..|es| - 1], es[|es| - 1];
      CancelledIgnored(st, init, now);
      var s0 := Surviving(init);
      assert ProcessEvents(st, es, now) == Step(ProcessEvents(st, init, now), last, now);
      if last.cancelled {
        assert Surviving(es) == s0 + [];
        assert s0 + [] == s0;
      } else {
        assert Surviving(es) == s0 + [last];
        ProcessEventsSnoc(st, s0, last, now);
      }
    }
  }

  /** `added` holds one row per event of `s`, in order, each with the event's
      title, `total_accepted - 1` and the hidden note; a row's status is the
      event's own if the event determines one, and otherwise that of the row
      before it (or `prev`, the status carried in, for the first row). */
  ghost predicate RowsFor(prev: Option<Status>, s: seq<Event>, added: seq<Row>, now: int) {
    |added| == |s| &&
    (forall k :: 0 <= k < |s| ==> Describes(added[k], s[k])) &&
    (forall k :: 0 <= k < |s| && Fresh(s[k], now).Some? ==> added[k].status == Fresh(s[k], now).value) &&
    (forall k :: 0 < k < |s| && Fresh(s[k], now).None? ==> added[k].status == added[k - 1].status) &&
    (0 < |s| && Fresh(s[0], now).None? ==> prev == Some(added[0].status))
  }

  /** The status carried out after the rows `added`. */
  function LastStatus(prev: Option<Status>, added: seq<Row>): Option<Status> {
    if added == [] then prev else Some(added[|added| - 1].status)
  }

  /** A row built for one more event keeps `RowsFor`. */
  lemma RowsForSnoc(prev: Option<Status>, s: seq<Event>, added: seq<Row>, e: Event, row: Row, now: int)
    requires RowsFor(prev, s, added, now)
    requires Describes(row, e)
    requires Some(row.status) == NextStatus(LastStatus(prev, added), e, now)
    ensures RowsFor(prev, s + [e], added + [row], now)
  {
    var s', added' := s + [e], added + [row];
    forall k | 0 <= k < |s'|
      ensures Describes(added'[k], s'[k])
      ensures Fresh(s'[k], now).Some? ==> added'[k].status == Fresh(s'[k], now).value
    {
      if k < |s| {
        assert s'[k] == s[k] && added'[k] == added[k];
      }
    }
    forall k | 0 < k < |s'| && Fresh(s'[k], now).None?
      ensures added'[k].status == added'[k - 1].status
    {
      if k < |s| {
        assert s'[k] == s[k] && added'[k] == added[k] && added'[k - 1] == added[k - 1];
      }
    }
  }

  /** One iteration of the `for` loop keeps `RowsFor` for the rows added
      since `base`. */
  lemma RowsForStep(prev: Option<Status>, s: seq<Event>, base: nat, mid: State, e: Event, out: State, now: int)
    requires base <= |mid.rows|
    requires RowsFor(prev, s, mid.rows[base..], now)
    requires mid.status == LastStatus(prev, mid.rows[base..])
    requires ProcessEvent(mid, e, now) == Ok(out)
    ensures base <= |out.rows|
    ensures var s' := if e.cancelled then s else s + [e];
            RowsFor(prev, s', out.rows[base..], now) &&
            out.status == LastStatus(prev, out.rows[base..])
  {
    if !e.cancelled {
      var added, row := mid.rows[base..], out.rows[|out.rows| - 1];
      assert out.rows == mid.rows + [row];
      assert out.rows[base..] == added + [row];
      RowsForSnoc(prev, s, added, e, row, now);
    } else {
      assert out == mid;
    }
  }

  /** The rows one call adds, and the status it carries out. */
  lemma {:induction false} ProcessedRows(st: State, es: seq<Event>, now: int)
    requires ProcessEvents(st, es, now).Ok?
    ensures var out := ProcessEvents(st, es, now).value;
            var added := out.rows[|st.rows|..];
            RowsFor(st.status, Surviving(es), added, now) &&
            out.status == LastStatus(st.status, added)
  {
    if es == [] {
      assert st.rows[|st.rows|..] == [];
    } else {
      var init, last := es[..|es| - 1], es[|es| - 1];
      assert ProcessEvents(st, es, now) == Step(ProcessEvents(st, init, now), last, now);
      ProcessedRows(st, init, now);
      var mid := ProcessEvents(st, init, now).value;
      RowsForStep(st.status, Surviving(init), |st.rows|, mid, last, ProcessEvents(st, es, now).value, now);
    }
  }

  /** The script fails with an unbound `eventStatus` exactly when nothing has
      set it yet and the first surviving event determines no status itself. */
  lemma {:induction false} ProcessEventsFails(st: State, es: seq<Event>, now: int)
    ensures ProcessEvents(st, es, now).Err? <==>
              st.status.None? && |Surviving(es)| > 0 && Fresh(Surviving(es)[0], now).None?
  {
    if es != [] {
      var init, last := es[..|es| - 1], es[|es| - 1];
      ProcessEventsFails(st, init, now);
      var s0 := Surviving(init);
      if !last.cancelled {
        assert Surviving(es) == s0 + [last];
        if |s0| > 0 {
          assert Surviving(es)[0] == s0[0];
        }
      }
    }
  }
}
