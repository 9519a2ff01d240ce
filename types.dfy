/**
 * The records the dashboard works on (events, procedural deadlines and the
 * per-department headcounts), plus the small wrappers every hook shares:
 * optional values, toast messages and the possible answers of the
 * authentication service.
 *
 * Dates are instants counted in milliseconds of local wall-clock time; the
 * calendar arithmetic on them lives in module Dates.
 */
module Types {

  datatype Option<+T> = None | Some(value: T)

  /** A moment in local wall-clock time, in milliseconds since the epoch. */
  type Instant = int

  /** The three values of an event's `status` column. */
  datatype EventStatus = InPreparazione | Completato | Archiviato
  {
    function Name(): string
    {
      match this
      case InPreparazione => "in_preparazione"
      case Completato => "completato"
      case Archiviato => "archiviato"
    }
  }

  /** A training course, as stored in the `events` table. */
  datatype Event = Event(
    id: string,
    title: string,
    description: Option<string>,
    startDate: Option<Instant>,   // None: the start_date text is missing or empty
    endDate: Instant,
    location: Option<string>,
    teachers: seq<string>,
    students: seq<string>,
    status: EventStatus,
    userId: string,
    createdAt: Instant,
    completedTasks: Option<seq<string>>)

  /** The six kinds of procedural deadline. */
  datatype DeadlineType =
    | Docente
    | Discenti
    | Avvio
    | GiornoEventoRegistri
    | PostEventoFeedback
    | PostEventoModelloL
  {
    /** The string literal the dashboard uses for this kind. */
    function Name(): string
    {
      match this
      case Docente => "docente"
      case Discenti => "discenti"
      case Avvio => "avvio"
      case GiornoEventoRegistri => "giorno_evento_registri"
      case PostEventoFeedback => "post_evento_feedback"
      case PostEventoModelloL => "post_evento_modello_l"
    }
  }

  /** A derived reminder; never stored. */
  datatype Deadline = Deadline(
    kind: DeadlineType,
    date: Instant,
    message: string,
    eventId: string,
    completed: bool,
    eventTitle: string)

  /** One row of the `department_attendees` table (the `absent` figure is derived at display time). */
  datatype DepartmentAttendee = DepartmentAttendee(
    eventId: string,
    departmentName: string,
    officers: int,
    inspectors: int,
    superintendents: int,
    militari: int,
    expected: int,
    actual: int,
    userId: string)

  /** A user-visible toast. */
  datatype Toast = Success(text: string) | Error(text: string) | Loading(text: string)

  /** What the auth client's `getUser` answers: a user, nobody, or a thrown failure. */
  datatype AuthAnswer = User(id: string) | NoUser | AuthFailure(message: string)

  /** The first event with the given id, if any. */
  function FindEvent(events: seq<Event>, id: string): Option<Event>
    decreases |events|
  {
    if events == [] then None
    else if events[0].id == id then Some(events[0])
    else FindEvent(events[1..], id)
  }

  /** The lookup answers the first event carrying the id, and nothing when none does. */
  lemma {:induction false} FindEventSpec(events: seq<Event>, id: string)
    ensures FindEvent(events, id).None? <==> forall i :: 0 <= i < |events| ==> events[i].id != id
    ensures FindEvent(events, id).Some? ==>
              exists i :: 0 <= i < |events| && events[i] == FindEvent(events, id).value && events[i].id == id
                          && forall j :: 0 <= j < i ==> events[j].id != id
    decreases |events|
  {
    if events != [] && events[0].id != id {
      var tail := events[1..];
      FindEventSpec(tail, id);
      if FindEvent(tail, id).Some? {
        var i :| 0 <= i < |tail| && tail[i] == FindEvent(tail, id).value && tail[i].id == id
                 && forall j :: 0 <= j < i ==> tail[j].id != id;
        assert events[i + 1] == tail[i];
        forall j | 0 <= j < i + 1 ensures events[j].id != id {
          if j > 0 {
            assert events[j] == tail[j - 1];
          }
        }
      }
    }
  }
}
