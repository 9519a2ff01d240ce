/**
 * The `useEvents` hook: the signed-in user's events, read from the `events`
 * table ordered by start date, plus the insert and the status update that
 * write to it, and the reaction to the authentication service's events.
 *
 * The table is a list of rows in insertion order; what the authentication
 * service and the table answer are parameters.
 */
module Events {
  import opened Types
  import opened Seqs

  predicate OwnedBy(e: Event, userId: string)
  {
    e.userId == userId
  }

  function OwnedByUser(userId: string): Event -> bool
  {
    e => OwnedBy(e, userId)
  }

  predicate Dated(e: Event)
  {
    e.startDate.Some?
  }

  predicate Undated(e: Event)
  {
    e.startDate.None?
  }

  function StartKey(e: Event): int
  {
    if e.startDate.Some? then e.startDate.value else 0
  }

  /**
   * The select on `user_id`, ordered by `start_date` ascending: the dated
   * rows by start, then the rows without a start date (PostgreSQL puts
   * nulls last in an ascending order).
   */
  function Query(rows: seq<Event>, userId: string): seq<Event>
  {
    var owned := Filter(rows, OwnedByUser(userId));
    SortBy(Filter(owned, Dated), StartKey) + Filter(owned, Undated)
  }

  lemma {:induction false} DatedUndatedMultiset(s: seq<Event>)
    ensures multiset(Filter(s, Dated)) + multiset(Filter(s, Undated)) == multiset(s)
    decreases |s|
  {
    if s != [] {
      DatedUndatedMultiset(s[1..]);
      assert s == [s[0]] + s[1..];
    }
  }

  /** The fetched list holds the user's rows, each as often as it is stored. */
  lemma QueryMultiset(rows: seq<Event>, userId: string)
    ensures multiset(Query(rows, userId)) == multiset(Filter(rows, OwnedByUser(userId)))
  {
    var owned := Filter(rows, OwnedByUser(userId));
    DatedUndatedMultiset(owned);
  }

  /** A row is fetched exactly when it is stored and belongs to the user. */
  lemma QueryMembership(rows: seq<Event>, userId: string, e: Event)
    ensures e in Query(rows, userId) <==> e in rows && e.userId == userId
  {
    var owned := Filter(rows, OwnedByUser(userId));
    var q := Query(rows, userId);
    QueryMultiset(rows, userId);
    FilterMembership(rows, OwnedByUser(userId));
    assert e in q <==> e in multiset(q);
    assert e in owned <==> e in multiset(owned);
  }

  /** A sorted dated part followed by an undated part is in start-date order. */
  lemma DatedFirst(dated: seq<Event>, undated: seq<Event>)
    requires SortedBy(dated, StartKey)
    requires forall i :: 0 <= i < |dated| ==> dated[i].startDate.Some?
    requires forall i :: 0 <= i < |undated| ==> undated[i].startDate.None?
    ensures var q := dated + undated;
            forall i, j :: 0 <= i < j < |q| && q[j].startDate.Some? ==>
              q[i].startDate.Some? && q[i].startDate.value <= q[j].startDate.value
  {
    var q := dated + undated;
    forall j | |dated| <= j < |q| ensures q[j].startDate.None? {
      assert q[j] == undated[j - |dated|];
    }
    forall i, j | 0 <= i < j < |q| && q[j].startDate.Some?
      ensures q[i].startDate.Some? && q[i].startDate.value <= q[j].startDate.value
    {
      assert q[i] == dated[i] && q[j] == dated[j];
    }
  }

  /** No row with a start date comes after a later-starting one or after a row without a start date. */
  lemma QueryOrder(rows: seq<Event>, userId: string)
    ensures var q := Query(rows, userId);
            forall i, j :: 0 <= i < j < |q| && q[j].startDate.Some? ==>
              q[i].startDate.Some? && q[i].startDate.value <= q[j].startDate.value
  {
    var owned := Filter(rows, OwnedByUser(userId));
    var dated := SortBy(Filter(owned, Dated), StartKey);
    var undated := Filter(owned, Undated);
    SortBySorted(Filter(owned, Dated), StartKey);
    forall i | 0 <= i < |dated| ensures dated[i].startDate.Some? {
      assert dated[i] in multiset(dated);
      assert dated[i] in Filter(owned, Dated);
    }
    forall i | 0 <= i < |undated| ensures undated[i].startDate.None? {
      assert undated[i] in undated;
    }
    DatedFirst(dated, undated);
  }

  /** What the new-event form hands to `addEvent`. */
  datatype NewEventData = NewEventData(
    title: string,
    description: string,
    startDate: Instant,
    endDate: Instant,
    location: string,
    teachers: seq<string>,
    students: seq<string>)

  /** The row the insert creates; `id` and `created_at` come from the table. */
  function NewRow(data: NewEventData, userId: string, id: string, createdAt: Instant): (r: Event)
    ensures r.status == InPreparazione && r.userId == userId && r.id == id
    ensures r.title == data.title && r.startDate == Some(data.startDate) && r.endDate == data.endDate
    ensures r.teachers == data.teachers && r.students == data.students
  {
    Event(id, data.title, Some(data.description), Some(data.startDate), data.endDate,
          Some(data.location), data.teachers, data.students, InPreparazione, userId, createdAt, None)
  }

  /** The table after the status update of the row with the given id. */
  function SetStatus(rows: seq<Event>, id: string, status: EventStatus): (r: seq<Event>)
    ensures |r| == |rows|
    ensures forall i :: 0 <= i < |r| ==> r[i] == (if rows[i].id == id then rows[i].(status := status) else rows[i])
  {
    seq(|rows|, i requires 0 <= i < |rows| => if rows[i].id == id then rows[i].(status := status) else rows[i])
  }

  /** No two rows share an id. */
  predicate UniqueIds(rows: seq<Event>)
  {
    forall i, j :: 0 <= i < j < |rows| ==> rows[i].id != rows[j].id
  }

  /**
   * The status update touches only the status, and only of the row with the
   * id: every id stays where it was, so ids stay unique.
   */
  lemma SetStatusSpec(rows: seq<Event>, id: string, status: EventStatus)
    requires UniqueIds(rows)
    ensures UniqueIds(SetStatus(rows, id, status))
    ensures forall i :: 0 <= i < |rows| && rows[i].id == id ==>
              SetStatus(rows, id, status)[i].status == status
              && SetStatus(rows, id, status)[i].(status := rows[i].status) == rows[i]
    ensures forall i :: 0 <= i < |rows| && rows[i].id != id ==> SetStatus(rows, id, status)[i] == rows[i]
  {
  }

  const LoadErrorPrefix: string := "Errore nel caricamento eventi: "
  const SaveErrorPrefix: string := "Errore nel salvataggio evento: "
  const NoUserMessage: string := "Utente non autenticato."
  const CreatedMessage: string := "Evento creato con successo!"
  const StatusUpdatedMessage: string := "Stato evento aggiornato!"
  const StatusErrorPrefix: string := "Errore aggiornamento stato: "
  /** The failure PostgREST reports when `.single()` finds no row. */
  const NoRowMessage: string := "JSON object requested, multiple (or no) rows returned"

  /** The events the authentication service announces. */
  datatype AuthEvent = SignedIn | InitialSession | SignedOut | OtherAuthEvent(name: string)

  /** The message of whichever call failed first. */
  function FailureMessage(auth: AuthAnswer, failure: Option<string>): string
  {
    match auth
    case AuthFailure(m) => m
    case _ => if failure.Some? then failure.value else ""
  }

  class EventsHook {
    var events: seq<Event>
    var loading: bool
    /** The `events` table. */
    var rows: seq<Event>

    ghost predicate Valid()
      reads this
    {
      UniqueIds(rows)
    }

    constructor (rows: seq<Event>)
      requires UniqueIds(rows)
      ensures Valid() && this.rows == rows && events == [] && !loading
    {
      this.rows := rows;
      events := [];
      loading := false;
    }

    /** `fetchEvents`: `auth` is what `getUser` answers, `queryError` a failure of the select. */
    method FetchEvents(auth: AuthAnswer, queryError: Option<string>) returns (toasts: seq<Toast>)
      modifies this
      ensures rows == old(rows) && !loading
      ensures auth.NoUser? ==> events == [] && toasts == []
      ensures auth.User? && queryError.None? ==> events == Query(rows, auth.id) && toasts == []
      ensures auth.AuthFailure? || (auth.User? && queryError.Some?) ==>
                events == [] && toasts == [Error(LoadErrorPrefix + FailureMessage(auth, queryError))]
    {
      toasts := [];
      loading := true;
      match auth {
        case NoUser =>
          events := [];
          loading := false;
          return;
        case AuthFailure(m) =>
          toasts := [Error(LoadErrorPrefix + m)];
          events := [];
        case User(uid) =>
          if queryError.Some? {
            toasts := [Error(LoadErrorPrefix + queryError.value)];
            events := [];
          } else {
            events := Query(rows, uid);
          }
      }
      loading := false;
    }

    /**
     * `addEvent`: `insertError` is a failure of the insert, `freshId` and
     * `createdAt` what the table fills in. The read-back after a successful
     * insert sees the same user and no failure.
     */
    method AddEvent(data: NewEventData, auth: AuthAnswer, insertError: Option<string>, freshId: string, createdAt: Instant)
      returns (result: Option<Event>, toasts: seq<Toast>)
      requires Valid()
      requires forall i :: 0 <= i < |rows| ==> rows[i].id != freshId
      modifies this
      ensures Valid() && !loading
      ensures auth.NoUser? ==>
                result == None && rows == old(rows) && events == old(events) && toasts == [Error(NoUserMessage)]
      ensures auth.AuthFailure? || (auth.User? && insertError.Some?) ==>
                result == None && rows == old(rows) && events == old(events)
                && toasts == [Error(SaveErrorPrefix + FailureMessage(auth, insertError))]
      ensures auth.User? && insertError.None? ==>
                result == Some(NewRow(data, auth.id, freshId, createdAt))
                && rows == old(rows) + [NewRow(data, auth.id, freshId, createdAt)]
                && events == Query(rows, auth.id)
                && toasts == [Success(CreatedMessage)]
    {
      toasts := [];
      loading := true;
      match auth {
        case NoUser =>
          toasts := [Error(NoUserMessage)];
          result := None;
        case AuthFailure(m) =>
          toasts := [Error(SaveErrorPrefix + m)];
          result := None;
        case User(uid) =>
          if insertError.Some? {
            toasts := [Error(SaveErrorPrefix + insertError.value)];
            result := None;
          } else {
            var row := NewRow(data, uid, freshId, createdAt);
            rows := rows + [row];
            toasts := [Success(CreatedMessage)];
            var more := FetchEvents(auth, None);
            toasts := toasts + more;
            result := Some(row);
          }
      }
      loading := false;
    }

    /**
     * `updateEventStatus`: `failure` is a failure of the update; an id that
     * matches no row fails too, since `.single()` wants exactly one. The
     * read-back sees `auth` and no failure.
     */
    method UpdateEventStatus(eventId: string, status: EventStatus, auth: AuthAnswer, failure: Option<string>)
      returns (result: Option<Event>, toasts: seq<Toast>)
      requires Valid()
      modifies this
      ensures Valid() && !loading
      ensures failure.Some? || FindEvent(old(rows), eventId).None? ==>
                result == None && rows == old(rows) && events == old(events)
                && toasts == [Error(StatusErrorPrefix + (if failure.Some? then failure.value else NoRowMessage))]
      ensures failure.None? && FindEvent(old(rows), eventId).Some? ==>
                rows == SetStatus(old(rows), eventId, status)
                && result == Some(FindEvent(old(rows), eventId).value.(status := status))
                && result == FindEvent(rows, eventId)
                && toasts == [Success(StatusUpdatedMessage)]
                              + (if auth.AuthFailure? then [Error(LoadErrorPrefix + auth.message)] else [])
                && (auth.User? ==> events == Query(rows, auth.id))
                && (auth.NoUser? || auth.AuthFailure? ==> events == [])
    {
      loading := true;
      var found := FindEvent(rows, eventId);
      if failure.Some? || found.None? {
        toasts := [Error(StatusErrorPrefix + (if failure.Some? then failure.value else NoRowMessage))];
        result := None;
      } else {
        SetStatusSpec(rows, eventId, status);
        FindEventSetStatus(rows, eventId, status);
        rows := SetStatus(rows, eventId, status);
        toasts := [Success(StatusUpdatedMessage)];
        var more := FetchEvents(auth, None);
        toasts := toasts + more;
        result := Some(found.value.(status := status));
      }
      loading := false;
    }

    /** The `onAuthStateChange` callback; `hasSession` says whether a session came with the event. */
    method OnAuthStateChange(event: AuthEvent, hasSession: bool, auth: AuthAnswer, queryError: Option<string>)
      returns (toasts: seq<Toast>)
      modifies this
      ensures rows == old(rows)
      ensures (event.SignedIn? || event.InitialSession?) && hasSession ==>
                !loading
                && (auth.User? && queryError.None? ==> events == Query(rows, auth.id))
                && (auth.NoUser? || auth.AuthFailure? || queryError.Some? ==> events == [])
                && toasts == (if auth.AuthFailure? || (auth.User? && queryError.Some?)
                              then [Error(LoadErrorPrefix + FailureMessage(auth, queryError))] else [])
      ensures (event.SignedIn? || event.InitialSession?) && !hasSession ==>
                events == [] && loading == old(loading) && toasts == []
      ensures event.SignedOut? ==> events == [] && loading == old(loading) && toasts == []
      ensures event.OtherAuthEvent? ==> events == old(events) && loading == old(loading) && toasts == []
    {
      toasts := [];
      if event == SignedIn || event == InitialSession {
        if hasSession {
          toasts := FetchEvents(auth, queryError);
        } else {
          events := [];
        }
      } else if event == SignedOut {
        events := [];
      }
    }

    /** The initial `getSession` check: fetch with a session, clear without. */
    method InitialCheck(hasSession: bool, auth: AuthAnswer, queryError: Option<string>) returns (toasts: seq<Toast>)
      modifies this
      ensures rows == old(rows)
      ensures hasSession ==>
                !loading
                && (auth.User? && queryError.None? ==> events == Query(rows, auth.id))
                && (auth.NoUser? || auth.AuthFailure? || queryError.Some? ==> events == [])
                && toasts == (if auth.AuthFailure? || (auth.User? && queryError.Some?)
                              then [Error(LoadErrorPrefix + FailureMessage(auth, queryError))] else [])
      ensures !hasSession ==> events == [] && loading == old(loading) && toasts == []
    {
      toasts := [];
      if hasSession {
        toasts := FetchEvents(auth, queryError);
      } else {
        events := [];
      }
    }
  }

  /** After the update, looking the id up finds the updated row. */
  lemma {:induction false} FindEventSetStatus(rows: seq<Event>, id: string, status: EventStatus)
    ensures FindEvent(SetStatus(rows, id, status), id)
         == (if FindEvent(rows, id).Some? then Some(FindEvent(rows, id).value.(status := status)) else None)
    decreases |rows|
  {
    if rows != [] {
      FindEventSetStatus(rows[1..], id, status);
      assert SetStatus(rows, id, status)[1..] == SetStatus(rows[1..], id, status);
    }
  }
}
