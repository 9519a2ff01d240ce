/**
 * The dashboard page: the progress bar of each active event, the list of
 * active events, the urgent-deadline panel showing the first six upcoming
 * deadlines, and the "mark as completed" button, which only simulates an
 * update.
 */
module Dashboard {
  import opened Types
  import opened Seqs
  import opened Deadlines

  /** The five `completed_tasks` tags the progress bar counts. */
  const ProgressTags: seq<string> :=
    ["richiesta_docenti_fatta", "richiesta_discenti_fatta", "avvio_corso_fatto", "registri_gestiti", "feedback_raccolto"]

  /** The tags of the list that appear in `completed_tasks`. */
  function PresentTags(tags: seq<string>, tasks: Option<seq<string>>): (r: seq<string>)
    ensures |r| <= |tags|
    decreases |tags|
  {
    if tags == [] then []
    else (if HasTask(tasks, tags[0]) then [tags[0]] else []) + PresentTags(tags[1..], tasks)
  }

  /** A tag is found exactly when it is in the list and in `completed_tasks`. */
  lemma {:induction false} PresentTagsSpec(tags: seq<string>, tasks: Option<seq<string>>, t: string)
    ensures t in PresentTags(tags, tasks) <==> t in tags && HasTask(tasks, t)
    decreases |tags|
  {
    if tags != [] {
      PresentTagsSpec(tags[1..], tasks, t);
      assert tags == [tags[0]] + tags[1..];
    }
  }

  /** The progress percentage: twenty points per recognised tag present. */
  function Progress(tasks: Option<seq<string>>): int
  {
    20 * |PresentTags(ProgressTags, tasks)|
  }

  /** `getEventProgress`: a counter bumped by five independent checks. */
  method GetEventProgress(event: Event) returns (progress: int)
    ensures progress == Progress(event.completedTasks)
  {
    var tasks := event.completedTasks;
    var completedTasks := 0;
    if HasTask(tasks, "richiesta_docenti_fatta") { completedTasks := completedTasks + 1; }
    if HasTask(tasks, "richiesta_discenti_fatta") { completedTasks := completedTasks + 1; }
    if HasTask(tasks, "avvio_corso_fatto") { completedTasks := completedTasks + 1; }
    if HasTask(tasks, "registri_gestiti") { completedTasks := completedTasks + 1; }
    if HasTask(tasks, "feedback_raccolto") { completedTasks := completedTasks + 1; }
    progress := completedTasks * 20;
  }

  /** Progress is one of 0, 20, 40, 60, 80 and 100. */
  lemma ProgressRange(tasks: Option<seq<string>>)
    ensures 0 <= Progress(tasks) <= 100 && Progress(tasks) % 20 == 0
  {
  }

  /** Every recognised tag present gives 100; no list at all gives 0. */
  lemma ProgressExtremes(tasks: seq<string>)
    requires forall i :: 0 <= i < |ProgressTags| ==> ProgressTags[i] in tasks
    ensures Progress(Some(tasks)) == 100
    ensures Progress(None) == 0
  {
    assert HasTask(Some(tasks), ProgressTags[0]);
    assert HasTask(Some(tasks), ProgressTags[1]);
    assert HasTask(Some(tasks), ProgressTags[2]);
    assert HasTask(Some(tasks), ProgressTags[3]);
    assert HasTask(Some(tasks), ProgressTags[4]);
  }

  lemma {:induction false} PresentTagsMonotone(tags: seq<string>, small: Option<seq<string>>, large: Option<seq<string>>)
    requires forall t :: HasTask(small, t) ==> HasTask(large, t)
    ensures |PresentTags(tags, small)| <= |PresentTags(tags, large)|
    decreases |tags|
  {
    if tags != [] {
      PresentTagsMonotone(tags[1..], small, large);
    }
  }

  /** Marking more tasks done never lowers the progress. */
  lemma ProgressMonotone(small: Option<seq<string>>, large: Option<seq<string>>)
    requires forall t :: HasTask(small, t) ==> HasTask(large, t)
    ensures Progress(small) <= Progress(large)
  {
    PresentTagsMonotone(ProgressTags, small, large);
  }

  lemma {:induction false} PresentTagsIgnores(tags: seq<string>, tasks: seq<string>, t: string)
    requires t in tasks || t !in tags
    ensures PresentTags(tags, Some(tasks + [t])) == PresentTags(tags, Some(tasks))
    decreases |tags|
  {
    if tags != [] {
      PresentTagsIgnores(tags[1..], tasks, t);
    }
  }

  /**
   * A tag outside the five, such as `modello_l_generato`, and a tag already
   * present both leave the progress where it was.
   */
  lemma ProgressIgnores(tasks: seq<string>, t: string)
    requires t in tasks || t !in ProgressTags
    ensures Progress(Some(tasks + [t])) == Progress(Some(tasks))
  {
    PresentTagsIgnores(ProgressTags, tasks, t);
  }

  lemma ModelloLDoesNotCount(tasks: seq<string>)
    ensures Progress(Some(tasks + ["modello_l_generato"])) == Progress(Some(tasks))
  {
    ProgressIgnores(tasks, "modello_l_generato");
  }

  predicate IsActive(e: Event)
  {
    e.status != Archiviato
  }

  /** `activeEvents`: every event that is not archived. */
  function ActiveEvents(events: seq<Event>): seq<Event>
  {
    Filter(events, IsActive)
  }

  /**
   * An event is listed exactly when it is in the input and not archived;
   * the list of a concatenation is the concatenation of the lists, so the
   * input order is kept.
   */
  lemma ActiveEventsSpec(events: seq<Event>, more: seq<Event>, e: Event)
    ensures e in ActiveEvents(events) <==> e in events && e.status != Archiviato
    ensures ActiveEvents(events + more) == ActiveEvents(events) + ActiveEvents(more)
  {
    FilterMembership(events, IsActive);
    FilterAppend(events, more, IsActive);
  }

  /** A list without archived events is shown whole. */
  lemma ActiveEventsNoArchived(events: seq<Event>)
    requires forall i :: 0 <= i < |events| ==> events[i].status != Archiviato
    ensures ActiveEvents(events) == events
  {
    FilterAll(events, IsActive);
  }

  /** The first six deadlines, or all of them when there are fewer. */
  function Shown(deadlines: seq<Deadline>): seq<Deadline>
  {
    if |deadlines| <= 6 then deadlines else deadlines[..6]
  }

  /**
   * The panel shows a prefix of the upcoming deadlines, at most six and all
   * of them when there are fewer, and each one shown is due no later than
   * any upcoming deadline left out.
   */
  lemma ShownAreEarliest(events: seq<Event>, now: Instant)
    ensures var up := Upcoming(events, now); var shown := Shown(up);
            && |shown| == (if |up| < 6 then |up| else 6)
            && shown == up[..|shown|]
            && forall i, j :: 0 <= i < |shown| <= j < |up| ==> shown[i].date <= up[j].date
  {
    var up := Upcoming(events, now);
    if |events| == 0 {
    } else {
      SortBySorted(Filter(AllDeadlines(events), PendingAt(now)), DateKey);
      assert SortedBy(up, DateKey);
    }
  }

  /**
   * `handleMarkAsCompleted`: the list of tasks it would save, or `None` when
   * the event is unknown. Nothing is stored: the page's state is untouched.
   */
  function MarkAsCompleted(events: seq<Event>, eventId: string, taskType: string): (r: Option<seq<string>>)
  {
    match FindEvent(events, eventId)
    case None => None
    case Some(event) =>
      Some((if event.completedTasks.Some? then event.completedTasks.value else []) + [taskType])
  }

  /** An unknown event gives nothing; a known one gives its task list with the new tag appended. */
  lemma MarkAsCompletedSpec(events: seq<Event>, eventId: string, taskType: string)
    ensures MarkAsCompleted(events, eventId, taskType).None?
            <==> forall i :: 0 <= i < |events| ==> events[i].id != eventId
    ensures MarkAsCompleted(events, eventId, taskType).Some? ==>
              var ts := MarkAsCompleted(events, eventId, taskType).value;
              |ts| > 0 && ts[|ts| - 1] == taskType
              && exists i :: 0 <= i < |events| && events[i].id == eventId
                             && (forall j :: 0 <= j < i ==> events[j].id != eventId)
                             && ts[..|ts| - 1] == (if events[i].completedTasks.Some? then events[i].completedTasks.value else [])
  {
    FindEventSpec(events, eventId);
    if FindEvent(events, eventId).Some? {
      var ts := MarkAsCompleted(events, eventId, taskType).value;
      var e := FindEvent(events, eventId).value;
      var i :| 0 <= i < |events| && events[i] == e && events[i].id == eventId
               && forall j :: 0 <= j < i ==> events[j].id != eventId;
      assert ts[..|ts| - 1] == (if e.completedTasks.Some? then e.completedTasks.value else []);
    }
  }

  /** The tag the deadline panel's button passes. */
  function ButtonTag(kind: DeadlineType): string
  {
    kind.Name() + "_fatta"
  }

  /** The button's tag is none of the six tags the deadline engine checks. */
  lemma ButtonTagNeverChecked(kind: DeadlineType, other: DeadlineType)
    ensures ButtonTag(kind) != DoneTag(other)
  {
  }

  /**
   * So even if the simulated update were saved, no deadline of the event
   * would turn completed.
   */
  lemma MarkingChangesNoDeadline(e: Event, kind: DeadlineType)
    ensures var tasks := (if e.completedTasks.Some? then e.completedTasks.value else []) + [ButtonTag(kind)];
            EventDeadlines(e.(completedTasks := Some(tasks))) == EventDeadlines(e)
  {
    var tasks := (if e.completedTasks.Some? then e.completedTasks.value else []) + [ButtonTag(kind)];
    var e' := e.(completedTasks := Some(tasks));
    forall k ensures HasTask(e'.completedTasks, DoneTag(k)) == HasTask(e.completedTasks, DoneTag(k)) {
      ButtonTagNeverChecked(kind, k);
    }
    if e.startDate.Some? {
      forall k ensures DeadlineOf(e', k) == DeadlineOf(e, k) {
        assert HasTask(e'.completedTasks, DoneTag(k)) == HasTask(e.completedTasks, DoneTag(k));
      }
    }
  }

  /**
   * The tag the button evidently means to pass: the one the deadline engine
   * checks for that kind.
   */
  function IntendedButtonTag(kind: DeadlineType): string
  {
    DoneTag(kind)
  }

  /**
   * With the intended tag, saving the simulated update would turn exactly
   * the marked deadline completed and leave the other five as they were.
   */
  lemma IntendedMarkingCompletes(e: Event, kind: DeadlineType, other: DeadlineType)
    requires e.startDate.Some?
    ensures var tasks := (if e.completedTasks.Some? then e.completedTasks.value else []) + [IntendedButtonTag(kind)];
            var e' := e.(completedTasks := Some(tasks));
            && DeadlineOf(e', kind).completed
            && DeadlineOf(e', kind).(completed := false) == DeadlineOf(e, kind).(completed := false)
            && (DoneTag(other) != DoneTag(kind) ==> DeadlineOf(e', other) == DeadlineOf(e, other))
  {
    var tasks := (if e.completedTasks.Some? then e.completedTasks.value else []) + [IntendedButtonTag(kind)];
    assert tasks[|tasks| - 1] == DoneTag(kind);
  }
}
