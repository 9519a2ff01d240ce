/**
 * The deadline engine of the `useDeadlines` hook: every event with a start
 * date expands into six procedural deadlines at fixed day offsets; the
 * incomplete ones that are not yet past are kept, sorted by date, and each
 * one that falls on today's calendar day raises a notification.
 */
module Deadlines {
  import opened Types
  import opened Dates
  import opened Seqs

  /** Days from the event's start to the deadline. */
  function OffsetDays(k: DeadlineType): int
  {
    match k
    case Docente => -30
    case Discenti => -25
    case Avvio => -10
    case GiornoEventoRegistri => 0
    case PostEventoFeedback => 1
    case PostEventoModelloL => 2
  }

  /** The `completed_tasks` tag that marks the deadline as done. */
  function DoneTag(k: DeadlineType): string
  {
    match k
    case Docente => "richiesta_docenti_fatta"
    case Discenti => "richiesta_discenti_fatta"
    case Avvio => "avvio_corso_fatto"
    case GiornoEventoRegistri => "registri_gestiti"
    case PostEventoFeedback => "feedback_raccolto"
    case PostEventoModelloL => "modello_l_generato"
  }

  /** The text before the quoted title in the deadline's message. */
  function MessageLead(k: DeadlineType): string
  {
    match k
    case Docente => "Redigere richiesta docenti per \""
    case Discenti => "Creare richiesta discenti per \""
    case Avvio => "Preparare Avvio Corso per \""
    case GiornoEventoRegistri => "Gestire registri per \""
    case PostEventoFeedback => "Raccogliere feedback per \""
    case PostEventoModelloL => "Generare Modello L per \""
  }

  /** The tag is in the event's list of completed tasks; an event without a list has none. */
  predicate HasTask(tasks: Option<seq<string>>, tag: string)
  {
    tasks.Some? && tag in tasks.value
  }

  /** The deadline of kind `k` for an event that has a start date. */
  function DeadlineOf(e: Event, k: DeadlineType): Deadline
    requires e.startDate.Some?
  {
    Deadline(k, AddDays(e.startDate.value, OffsetDays(k)), MessageLead(k) + e.title + "\"",
             e.id, HasTask(e.completedTasks, DoneTag(k)), e.title)
  }

  /** The deadlines of one event: the six kinds in the order the hook pushes them, or none without a start date. */
  function EventDeadlines(e: Event): seq<Deadline>
  {
    if e.startDate.None? then []
    else [DeadlineOf(e, Docente), DeadlineOf(e, Discenti), DeadlineOf(e, Avvio),
          DeadlineOf(e, GiornoEventoRegistri), DeadlineOf(e, PostEventoFeedback), DeadlineOf(e, PostEventoModelloL)]
  }

  /**
   * `calculateDeadlinesForEvent`: six `push` calls onto a local array, after
   * the early return for an event without a start date.
   */
  method CalculateDeadlinesForEvent(event: Event) returns (eventDeadlines: seq<Deadline>)
    ensures eventDeadlines == EventDeadlines(event)
  {
    eventDeadlines := [];
    if event.startDate.None? {
      return [];
    }
    var startDate := event.startDate.value;
    var tasks := event.completedTasks;

    eventDeadlines := eventDeadlines + [Deadline(Docente, SubDays(startDate, 30),
      MessageLead(Docente) + event.title + "\"", event.id, HasTask(tasks, DoneTag(Docente)), event.title)];
    eventDeadlines := eventDeadlines + [Deadline(Discenti, SubDays(startDate, 25),
      MessageLead(Discenti) + event.title + "\"", event.id, HasTask(tasks, DoneTag(Discenti)), event.title)];
    eventDeadlines := eventDeadlines + [Deadline(Avvio, SubDays(startDate, 10),
      MessageLead(Avvio) + event.title + "\"", event.id, HasTask(tasks, DoneTag(Avvio)), event.title)];
    eventDeadlines := eventDeadlines + [Deadline(GiornoEventoRegistri, startDate,
      MessageLead(GiornoEventoRegistri) + event.title + "\"", event.id,
      HasTask(tasks, DoneTag(GiornoEventoRegistri)), event.title)];
    eventDeadlines := eventDeadlines + [Deadline(PostEventoFeedback, AddDays(startDate, 1),
      MessageLead(PostEventoFeedback) + event.title + "\"", event.id,
      HasTask(tasks, DoneTag(PostEventoFeedback)), event.title)];
    eventDeadlines := eventDeadlines + [Deadline(PostEventoModelloL, AddDays(startDate, 2),
      MessageLead(PostEventoModelloL) + event.title + "\"", event.id,
      HasTask(tasks, DoneTag(PostEventoModelloL)), event.title)];
  }

  /**
   * The six deadlines of an event with start date `s`: their kinds, in push
   * order, and their dates, 30, 25 and 10 days before the start, on it, and
   * 1 and 2 days after it.
   */
  lemma EventDeadlinesDates(e: Event)
    requires e.startDate.Some?
    ensures var ds := EventDeadlines(e); var s := e.startDate.value;
      && |ds| == 6
      && ds[0].kind == Docente && ds[0].date == SubDays(s, 30)
      && ds[1].kind == Discenti && ds[1].date == SubDays(s, 25)
      && ds[2].kind == Avvio && ds[2].date == SubDays(s, 10)
      && ds[3].kind == GiornoEventoRegistri && ds[3].date == s
      && ds[4].kind == PostEventoFeedback && ds[4].date == AddDays(s, 1)
      && ds[5].kind == PostEventoModelloL && ds[5].date == AddDays(s, 2)
  {
  }

  /** Each deadline is done exactly when its own tag is in the event's `completed_tasks`. */
  lemma EventDeadlinesDone(e: Event)
    requires e.startDate.Some?
    ensures var ds := EventDeadlines(e);
      && |ds| == 6
      && ds[0].completed == HasTask(e.completedTasks, "richiesta_docenti_fatta")
      && ds[1].completed == HasTask(e.completedTasks, "richiesta_discenti_fatta")
      && ds[2].completed == HasTask(e.completedTasks, "avvio_corso_fatto")
      && ds[3].completed == HasTask(e.completedTasks, "registri_gestiti")
      && ds[4].completed == HasTask(e.completedTasks, "feedback_raccolto")
      && ds[5].completed == HasTask(e.completedTasks, "modello_l_generato")
  {
  }

  /** Every deadline names its event, carries its title, and quotes that title in its message. */
  lemma EventDeadlinesMessages(e: Event)
    requires e.startDate.Some?
    ensures var ds := EventDeadlines(e);
      forall i :: 0 <= i < |ds| ==>
        ds[i].eventId == e.id && ds[i].eventTitle == e.title
        && ds[i].message == MessageLead(ds[i].kind) + e.title + "\""
  {
    DeadlineOfNames(e, Docente);
    DeadlineOfNames(e, Discenti);
    DeadlineOfNames(e, Avvio);
    DeadlineOfNames(e, GiornoEventoRegistri);
    DeadlineOfNames(e, PostEventoFeedback);
    DeadlineOfNames(e, PostEventoModelloL);
  }

  lemma DeadlineOfNames(e: Event, k: DeadlineType)
    requires e.startDate.Some?
    ensures DeadlineOf(e, k).kind == k && DeadlineOf(e, k).eventId == e.id && DeadlineOf(e, k).eventTitle == e.title
    ensures DeadlineOf(e, k).message == MessageLead(k) + e.title + "\""
  {
  }

  /** Without a `completed_tasks` list no deadline is done. */
  lemma NoTasksNothingDone(e: Event)
    requires e.completedTasks.None?
    ensures forall d :: d in EventDeadlines(e) ==> !d.completed
  {
  }

  /** The deadlines of every event, in event order (a flat map over the events). */
  function AllDeadlines(events: seq<Event>): seq<Deadline>
    decreases |events|
  {
    if events == [] then []
    else AllDeadlines(events[..|events| - 1]) + EventDeadlines(events[|events| - 1])
  }

  predicate HasStart(e: Event)
  {
    e.startDate.Some?
  }

  /** Six deadlines for each event that has a start date, none for the others. */
  lemma {:induction false} AllDeadlinesCount(events: seq<Event>)
    ensures |AllDeadlines(events)| == 6 * |Filter(events, HasStart)|
    decreases |events|
  {
    if events != [] {
      var init, last := events[..|events| - 1], events[|events| - 1];
      assert events == init + [last];
      AllDeadlinesCount(init);
      FilterAppend(init, [last], HasStart);
      EventDeadlinesCount(last);
      assert |AllDeadlines(events)| == |AllDeadlines(init)| + |EventDeadlines(last)|;
    }
  }

  lemma EventDeadlinesCount(e: Event)
    ensures |EventDeadlines(e)| == 6 * |Filter([e], HasStart)|
  {
    assert [e][1..] == [];
  }

  /** Still to do and not yet past: the filter at the heart of the hook's effect. */
  predicate Pending(d: Deadline, now: Instant)
  {
    !d.completed && d.date >= now
  }

  /** The filter of the effect, as the predicate handed to `filter`. */
  function PendingAt(now: Instant): Deadline -> bool
  {
    d => Pending(d, now)
  }

  function DateKey(d: Deadline): int
  {
    d.date
  }

  /**
   * The list the effect stores with `setDeadlines`: pending deadlines of all
   * events, stably sorted by date.
   */
  function Upcoming(events: seq<Event>, now: Instant): seq<Deadline>
  {
    if |events| == 0 then []
    else SortBy(Filter(AllDeadlines(events), PendingAt(now)), DateKey)
  }

  /**
   * The upcoming list is the pending deadlines, each as often as it is derived,
   * in non-decreasing date order; deadlines on the same instant keep the order
   * in which they were derived.
   */
  lemma UpcomingSpec(events: seq<Event>, now: Instant)
    ensures multiset(Upcoming(events, now)) == multiset(Filter(AllDeadlines(events), PendingAt(now)))
    ensures SortedBy(Upcoming(events, now), DateKey)
    ensures forall k :: WithKey(Upcoming(events, now), DateKey, k)
                     == WithKey(Filter(AllDeadlines(events), PendingAt(now)), DateKey, k)
  {
    var pending := Filter(AllDeadlines(events), PendingAt(now));
    if |events| == 0 {
      assert AllDeadlines(events) == [];
    } else {
      SortBySorted(pending, DateKey);
      forall k ensures WithKey(Upcoming(events, now), DateKey, k) == WithKey(pending, DateKey, k) {
        SortByStable(pending, DateKey, k);
      }
    }
  }

  /** A deadline is upcoming exactly when it is derived, not done, and not before now. */
  lemma UpcomingMembership(events: seq<Event>, now: Instant, d: Deadline)
    ensures d in Upcoming(events, now) <==> d in AllDeadlines(events) && !d.completed && d.date >= now
  {
    var pending := Filter(AllDeadlines(events), PendingAt(now));
    UpcomingSpec(events, now);
    FilterMembership(AllDeadlines(events), PendingAt(now));
    assert d in Upcoming(events, now) <==> d in multiset(Upcoming(events, now));
    assert d in pending <==> d in multiset(pending);
  }

  /** At most six upcoming deadlines per event with a start date. */
  lemma UpcomingBound(events: seq<Event>, now: Instant)
    ensures |Upcoming(events, now)| <= 6 * |Filter(events, HasStart)|
  {
    UpcomingSpec(events, now);
    AllDeadlinesCount(events);
    assert |Upcoming(events, now)| == |multiset(Upcoming(events, now))|;
  }

  const TodayPrefix: string := "SCADENZA OGGI: "

  /** The notification condition: on today's calendar day and not done. */
  predicate DueToday(d: Deadline, now: Instant)
  {
    IsSameDay(d.date, now) && !d.completed
  }

  function DueAt(now: Instant): Deadline -> bool
  {
    d => DueToday(d, now)
  }

  /** Pending and on today's calendar day. */
  function PendingTodayAt(now: Instant): Deadline -> bool
  {
    d => Pending(d, now) && IsSameDay(d.date, now)
  }

  /** The notifications for a list: one per not-done deadline on today's calendar day, in list order. */
  function TodayNotifications(ds: seq<Deadline>, now: Instant): (r: seq<string>)
    ensures |r| == |Filter(ds, DueAt(now))|
  {
    var due := Filter(ds, DueAt(now));
    seq(|due|, i requires 0 <= i < |due| => TodayPrefix + due[i].message)
  }

  /** The `forEach` that raises the same-day notifications. */
  method Notify(upcoming: seq<Deadline>, today: Instant) returns (notifications: seq<string>)
    ensures notifications == TodayNotifications(upcoming, today)
  {
    notifications := [];
    for i := 0 to |upcoming|
      invariant notifications == TodayNotifications(upcoming[..i], today)
    {
      var deadline := upcoming[i];
      assert upcoming[..i + 1] == upcoming[..i] + [deadline];
      FilterAppend(upcoming[..i], [deadline], DueAt(today));
      if IsSameDay(deadline.date, today) && !deadline.completed {
        notifications := notifications + [TodayPrefix + deadline.message];
      }
    }
    assert upcoming[..|upcoming|] == upcoming;
  }

  /** Keeping the pending deadlines and then those due today keeps those pending today. */
  lemma {:induction false} PendingThenDue(ds: seq<Deadline>, now: Instant)
    ensures Filter(Filter(ds, PendingAt(now)), DueAt(now)) == Filter(ds, PendingTodayAt(now))
    decreases |ds|
  {
    if ds != [] {
      PendingThenDue(ds[1..], now);
    }
  }

  /**
   * One notification for every derived deadline that is not done, not yet
   * past, and on today's calendar day -- and no other.
   */
  lemma NotificationCount(events: seq<Event>, now: Instant)
    ensures |TodayNotifications(Upcoming(events, now), now)|
         == |Filter(AllDeadlines(events), PendingTodayAt(now))|
  {
    var all := AllDeadlines(events);
    var pending := Filter(all, PendingAt(now));
    if |events| == 0 {
      assert all == [];
    } else {
      var up := Upcoming(events, now);
      assert up == SortBy(pending, DateKey);
      assert |TodayNotifications(up, now)| == |Filter(up, DueAt(now))|;
      FilterSizeByMultiset(up, pending, DueAt(now));
      PendingThenDue(all, now);
    }
  }

  /** Every notification names a derived deadline that is due today and not yet past. */
  lemma NotificationsAreDueToday(events: seq<Event>, now: Instant, i: int)
    requires 0 <= i < |TodayNotifications(Upcoming(events, now), now)|
    ensures i < |Filter(Upcoming(events, now), DueAt(now))|
    ensures TodayNotifications(Upcoming(events, now), now)[i]
            == TodayPrefix + Filter(Upcoming(events, now), DueAt(now))[i].message
    ensures exists d :: d in AllDeadlines(events) && Pending(d, now) && IsSameDay(d.date, now)
                     && TodayNotifications(Upcoming(events, now), now)[i] == TodayPrefix + d.message
  {
    var up := Upcoming(events, now);
    var due := Filter(up, DueAt(now));
    var d := due[i];
    FilterMembership(up, DueAt(now));
    UpcomingMembership(events, now, d);
  }

  /**
   * As written, the filter compares instants: once the day has begun, a
   * deadline dated earlier that day -- the registers deadline of an event
   * starting at midnight, say -- is dropped, and no notification is raised
   * for the event although one of its deadlines falls on today.
   */
  lemma TodaysDeadlineDropped(e: Event, now: Instant)
    requires e.startDate == Some(DayNumber(now) * MsPerDay) && e.completedTasks.None?
    requires TimeOfDay(now) > 0
    ensures DeadlineOf(e, GiornoEventoRegistri) in AllDeadlines([e])
    ensures DueToday(DeadlineOf(e, GiornoEventoRegistri), now)
    ensures DeadlineOf(e, GiornoEventoRegistri) !in Upcoming([e], now)
    ensures TodayNotifications(Upcoming([e], now), now) == []
  {
    var ds := EventDeadlines(e);
    OnlyEventDeadlines(e);
    MidnightStartDeadlines(e, now);
    UpcomingMembership([e], now, DeadlineOf(e, GiornoEventoRegistri));
    FilterNone(ds, PendingTodayAt(now));
    NotificationCount([e], now);
  }

  /**
   * For an event starting at midnight of a day already begun: its registers
   * deadline falls on today but is past, and no deadline is both pending and
   * on today.
   */
  lemma MidnightStartDeadlines(e: Event, now: Instant)
    requires e.startDate == Some(DayNumber(now) * MsPerDay) && e.completedTasks.None?
    requires TimeOfDay(now) > 0
    ensures DueToday(DeadlineOf(e, GiornoEventoRegistri), now)
    ensures !Pending(DeadlineOf(e, GiornoEventoRegistri), now)
    ensures forall i :: 0 <= i < |EventDeadlines(e)| ==> !PendingTodayAt(now)(EventDeadlines(e)[i])
  {
    var s := e.startDate.value;
    var ds := EventDeadlines(e);
    EventDeadlinesDates(e);
    MidnightDays(s, now);
    assert ds[3] == DeadlineOf(e, GiornoEventoRegistri);
    NonePendingToday(ds, now);
  }

  /** Six deadlines, all on other days but the fourth, which is past, include none pending today. */
  lemma NonePendingToday(ds: seq<Deadline>, now: Instant)
    requires |ds| == 6 && ds[3].date < now
    requires DayNumber(ds[0].date) != DayNumber(now) && DayNumber(ds[1].date) != DayNumber(now)
    requires DayNumber(ds[2].date) != DayNumber(now) && DayNumber(ds[4].date) != DayNumber(now)
    requires DayNumber(ds[5].date) != DayNumber(now)
    ensures forall i :: 0 <= i < |ds| ==> !PendingTodayAt(now)(ds[i])
  {
    forall i | 0 <= i < |ds| ensures !PendingTodayAt(now)(ds[i]) {
      assert i == 3 || DayNumber(ds[i].date) != DayNumber(now);
    }
  }

  /** The day numbers of the six offsets from midnight of the day of `now`, which has begun. */
  lemma MidnightDays(s: Instant, now: Instant)
    requires s == DayNumber(now) * MsPerDay && TimeOfDay(now) > 0
    ensures s < now && DayNumber(s) == DayNumber(now)
    ensures DayNumber(SubDays(s, 30)) == DayNumber(now) - 30
    ensures DayNumber(SubDays(s, 25)) == DayNumber(now) - 25
    ensures DayNumber(SubDays(s, 10)) == DayNumber(now) - 10
    ensures DayNumber(AddDays(s, 1)) == DayNumber(now) + 1
    ensures DayNumber(AddDays(s, 2)) == DayNumber(now) + 2
  {
    ShiftByDays(0, DayNumber(now));
    AddDaysSpec(s, 1);
    AddDaysSpec(s, 2);
    AddDaysSpec(s, 30);
    AddDaysSpec(s, 25);
    AddDaysSpec(s, 10);
  }

  /** Still to do and due today or later: the filter compared by calendar day. */
  predicate PendingByDay(d: Deadline, now: Instant)
  {
    !d.completed && DayNumber(d.date) >= DayNumber(now)
  }

  function PendingByDayAt(now: Instant): Deadline -> bool
  {
    d => PendingByDay(d, now)
  }

  /** The upcoming list the filter evidently intends: pending by calendar day, stably sorted by date. */
  function UpcomingByDay(events: seq<Event>, now: Instant): seq<Deadline>
  {
    if |events| == 0 then []
    else SortBy(Filter(AllDeadlines(events), PendingByDayAt(now)), DateKey)
  }

  /**
   * A deadline is upcoming by day exactly when it is derived, not done, and
   * not on an earlier calendar day; the list is in date order.
   */
  lemma UpcomingByDaySpec(events: seq<Event>, now: Instant, d: Deadline)
    ensures d in UpcomingByDay(events, now)
            <==> d in AllDeadlines(events) && !d.completed && DayNumber(d.date) >= DayNumber(now)
    ensures SortedBy(UpcomingByDay(events, now), DateKey)
  {
    var all := AllDeadlines(events);
    var pending := Filter(all, PendingByDayAt(now));
    FilterMembership(all, PendingByDayAt(now));
    if |events| == 0 {
      assert all == [];
    } else {
      var up := UpcomingByDay(events, now);
      SortBySorted(pending, DateKey);
      assert d in up <==> d in multiset(up);
      assert d in pending <==> d in multiset(pending);
    }
  }

  /** Keeping the deadlines pending by day and then those due today keeps all those due today. */
  lemma {:induction false} PendingByDayThenDue(ds: seq<Deadline>, now: Instant)
    ensures Filter(Filter(ds, PendingByDayAt(now)), DueAt(now)) == Filter(ds, DueAt(now))
    decreases |ds|
  {
    if ds != [] {
      PendingByDayThenDue(ds[1..], now);
    }
  }

  /** With the day comparison, every derived deadline due today raises its notification. */
  lemma IntendedNotificationCount(events: seq<Event>, now: Instant)
    ensures |TodayNotifications(UpcomingByDay(events, now), now)| == |Filter(AllDeadlines(events), DueAt(now))|
  {
    var all := AllDeadlines(events);
    var pending := Filter(all, PendingByDayAt(now));
    if |events| == 0 {
      assert all == [];
    } else {
      var up := UpcomingByDay(events, now);
      FilterSizeByMultiset(up, pending, DueAt(now));
      PendingByDayThenDue(all, now);
    }
  }

  /** With the day comparison, every derived deadline due today is listed and notified. */
  lemma DueTodayKept(events: seq<Event>, now: Instant, d: Deadline)
    requires d in AllDeadlines(events) && DueToday(d, now)
    ensures d in UpcomingByDay(events, now)
    ensures TodayPrefix + d.message in TodayNotifications(UpcomingByDay(events, now), now)
  {
    var up := UpcomingByDay(events, now);
    UpcomingByDaySpec(events, now, d);
    FilterMembership(up, DueAt(now));
    var due := Filter(up, DueAt(now));
    var k :| 0 <= k < |due| && due[k] == d;
    assert TodayNotifications(up, now)[k] == TodayPrefix + d.message;
  }

  /** With the day comparison, the registers deadline of the same event is kept and notified. */
  lemma TodaysDeadlineKept(e: Event, now: Instant)
    requires e.startDate == Some(DayNumber(now) * MsPerDay) && e.completedTasks.None?
    requires TimeOfDay(now) > 0
    ensures DeadlineOf(e, GiornoEventoRegistri) in UpcomingByDay([e], now)
    ensures TodayPrefix + DeadlineOf(e, GiornoEventoRegistri).message in TodayNotifications(UpcomingByDay([e], now), now)
  {
    var d := DeadlineOf(e, GiornoEventoRegistri);
    OnlyEventDeadlines(e);
    MidnightStartDeadlines(e, now);
    DueTodayKept([e], now, d);
  }

  /** The deadlines of a one-event list are that event's, the registers deadline among them. */
  lemma OnlyEventDeadlines(e: Event)
    requires e.startDate.Some?
    ensures AllDeadlines([e]) == EventDeadlines(e)
    ensures DeadlineOf(e, GiornoEventoRegistri) in AllDeadlines([e])
  {
    assert [e][..0] == [];
    assert EventDeadlines(e)[3] == DeadlineOf(e, GiornoEventoRegistri);
  }

  /**
   * The state of the hook: `deadlines`, recomputed from scratch whenever the
   * event list changes.
   */
  class DeadlinesHook {
    var deadlines: seq<Deadline>

    constructor ()
      ensures deadlines == []
    {
      deadlines := [];
    }

    /** The effect on `[events]`; `today` is the clock reading, the result the notifications raised. */
    method OnEventsChanged(events: seq<Event>, today: Instant) returns (notifications: seq<string>)
      modifies this
      ensures deadlines == Upcoming(events, today)
      ensures notifications == TodayNotifications(deadlines, today)
    {
      if |events| == 0 {
        deadlines := [];
        notifications := [];
        return;
      }
      var allDeadlines: seq<Deadline> := [];
      for i := 0 to |events|
        invariant allDeadlines == AllDeadlines(events[..i])
      {
        assert events[..i + 1][..i] == events[..i];
        var eventDeadlines := CalculateDeadlinesForEvent(events[i]);
        allDeadlines := allDeadlines + eventDeadlines;
      }
      assert events[..|events|] == events;
      var upcoming := SortBy(Filter(allDeadlines, PendingAt(today)), DateKey);
      deadlines := upcoming;
      notifications := Notify(upcoming, today);
    }
  }
}
