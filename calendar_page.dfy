/**
 * The calendar page: the month on display, always the first instant of a
 * month, and the events starting in that month, in start order.
 */
module CalendarPage {
  import opened Types
  import opened Seqs
  import opened Dates
  import opened Events

  /** The event starts in the same year and month as `month`; an event without a start never does. */
  predicate StartsIn(e: Event, month: Instant)
  {
    e.startDate.Some? && YearMonth(e.startDate.value) == YearMonth(month)
  }

  function StartsInMonth(month: Instant): Event -> bool
  {
    e => StartsIn(e, month)
  }

  /** `monthlyEvents`. */
  function MonthlyEvents(events: seq<Event>, displayMonth: Instant): seq<Event>
  {
    if |events| == 0 then []
    else SortBy(Filter(events, StartsInMonth(displayMonth)), StartKey)
  }

  /**
   * The month's list holds the events starting in the displayed year and
   * month, each as often as in the input, in non-decreasing start order;
   * events starting at the same instant keep their input order.
   */
  lemma MonthlyEventsSpec(events: seq<Event>, displayMonth: Instant, e: Event)
    ensures multiset(MonthlyEvents(events, displayMonth)) == multiset(Filter(events, StartsInMonth(displayMonth)))
    ensures e in MonthlyEvents(events, displayMonth)
            <==> e in events && e.startDate.Some? && YearMonth(e.startDate.value) == YearMonth(displayMonth)
    ensures SortedBy(MonthlyEvents(events, displayMonth), StartKey)
    ensures forall k :: WithKey(MonthlyEvents(events, displayMonth), StartKey, k)
                     == WithKey(Filter(events, StartsInMonth(displayMonth)), StartKey, k)
  {
    var selected := Filter(events, StartsInMonth(displayMonth));
    var m := MonthlyEvents(events, displayMonth);
    FilterMembership(events, StartsInMonth(displayMonth));
    if |events| == 0 {
      assert selected == [];
    } else {
      SortBySorted(selected, StartKey);
      forall k ensures WithKey(m, StartKey, k) == WithKey(selected, StartKey, k) {
        SortByStable(selected, StartKey, k);
      }
    }
    assert e in m <==> e in multiset(m);
    assert e in selected <==> e in multiset(selected);
  }

  lemma MonthlyEventsEmpty(displayMonth: Instant)
    ensures MonthlyEvents([], displayMonth) == []
  {
  }

  /** `eventStartDates`: one entry per event, in event order; `None` for an event without a start. */
  function EventStartDates(events: seq<Event>): (r: seq<Option<Instant>>)
    ensures |r| == |events|
    ensures forall i :: 0 <= i < |r| ==> r[i] == events[i].startDate
  {
    seq(|events|, i requires 0 <= i < |events| => events[i].startDate)
  }

  /** The page's month state. */
  class CalendarState {
    var currentDisplayMonth: Instant

    /** The month is stored normalised to its first instant. */
    ghost predicate Valid()
      reads this
    {
      StartOfMonth(currentDisplayMonth) == currentDisplayMonth
    }

    /** Starts on the month of the clock reading `now`. */
    constructor (now: Instant)
      ensures Valid()
      ensures currentDisplayMonth == StartOfMonth(now)
      ensures YearMonth(currentDisplayMonth) == YearMonth(now)
    {
      currentDisplayMonth := StartOfMonth(now);
      StartOfMonthIdempotent(now);
      StartOfMonthSpec(now);
    }

    /** `handleMonthChange`: the first instant of the chosen month. */
    method HandleMonthChange(month: Instant)
      modifies this
      ensures Valid()
      ensures currentDisplayMonth == StartOfMonth(month)
      ensures YearMonth(currentDisplayMonth) == YearMonth(month)
      ensures currentDisplayMonth <= month
    {
      StartOfMonthIdempotent(month);
      StartOfMonthSpec(month);
      currentDisplayMonth := StartOfMonth(month);
    }
  }
}
