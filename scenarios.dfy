/** Concrete runs of the script against single-page servers. */
module Scenarios {
  import opened Decimal
  import opened Events
  import opened Pagination
  import opened Report

  /** A server with one page holding `events`. */
  function OnePage(events: seq<Event>): Request -> Page {
    u => Page(1, 1, events)
  }

  /** An accepted, visible event with five accepted registrants that started
      an hour ago and has no end date sets no status; as the first event of
      the run it meets an unbound `eventStatus`, and the run fails. */
  lemma OngoingFirstEventFails(now: int, fuel: nat)
    requires 1 <= fuel
    ensures var e := Event(false, now - 3600, None, false, 5, "Meeting");
            Script(OnePage([e]), now, fuel) == Outcome([FirstPage], Err(StatusUnbound))
  {
    var e := Event(false, now - 3600, None, false, 5, "Meeting");
    assert [e][..0] == [];
  }

  /** An ongoing event after one that starts in three days repeats that
      event's status; a cancelled event in between is skipped, and a hidden
      event with no accepted registrants other than the host reports 0. */
  lemma StaleStatusIsRepeated(now: int)
    ensures var first := Event(false, now + 3 * 86400 + 60, None, false, 1, "Rally");
            var dropped := Event(true, now + 60, None, false, 9, "Called off");
            var ongoing := Event(false, now - 60, Some(now + 60), true, 1, "Canvass");
            Script(OnePage([first, dropped, ongoing]), now, 1) ==
            Outcome([FirstPage], Ok(State(Some(StartsIn(3)), 2,
              [Row("Rally", 0, StartsIn(3), ""),
               Row("Canvass", 0, StartsIn(3), "(Note: event is hidden)")])))
  {
    var first := Event(false, now + 3 * 86400 + 60, None, false, 1, "Rally");
    var dropped := Event(true, now + 60, None, false, 9, "Called off");
    var ongoing := Event(false, now - 60, Some(now + 60), true, 1, "Canvass");
    var es := [first, dropped, ongoing];
    assert es[..2] == [first, dropped];
    assert es[..2][..1] == [first];
    assert [first][..0] == [];
    assert DaysUntil(first.start, now) == 3;
    var row1 := Row("Rally", 0, StartsIn(3), "");
    var st1 := State(Some(StartsIn(3)), 1, [row1]);
    assert ProcessEvents(Initial, [first], now) == Ok(st1);
    assert dropped.cancelled;
    assert ProcessEvents(Initial, es[..2], now) == Ok(st1);
    assert !ongoing.cancelled;
    assert NextStatus(st1.status, ongoing, now) == Some(StartsIn(3));
    var row2 := Row("Canvass", 0, StartsIn(3), "(Note: event is hidden)");
    assert ProcessEvents(Initial, es, now) == Ok(State(Some(StartsIn(3)), 2, [row1] + [row2]));
    assert [row1] + [row2] == [row1, row2];
    assert OnePage(es)(FirstPage) == Page(1, 1, es);
  }
}
