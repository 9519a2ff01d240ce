/**
 * The per-department headcount roster of one event: a fixed catalogue of ten
 * departments, rows persisted sparsely in the `department_attendees` table,
 * merged into a complete roster in catalogue order, edited field by field
 * and saved back by an upsert keyed on (event, department, user).
 *
 * The table is modelled as a map from that key to the row; the answers of
 * the authentication service and the failures of the table are parameters.
 */
module DepartmentAttendees {
  import opened Types

  /** The ten departments every roster lists, in display order. */
  const Catalog: seq<string> := [
    "Comando Regionale",
    "Provinciale Roma",
    "Provinciale Latina",
    "Provinciale Frosinone",
    "Provinciale Rieti",
    "Provinciale Viterbo",
    "ROAN",
    "ReTLA Lazio",
    "CAR",
    "Altri Reparti"
  ]

  lemma CatalogDistinct()
    ensures |Catalog| == 10
    ensures forall i, j :: 0 <= i < j < |Catalog| ==> Catalog[i] != Catalog[j]
  {
  }

  /** The sum of the four role counts. */
  function Expected(a: DepartmentAttendee): (r: int)
    ensures a.officers >= 0 && a.inspectors >= 0 && a.superintendents >= 0 && a.militari >= 0 ==> r >= 0
    ensures a.officers == 0 && a.inspectors == 0 && a.superintendents == 0 && a.militari == 0 ==> r == 0
  {
    a.officers + a.inspectors + a.superintendents + a.militari
  }

  /** The row's `expected` figure is the sum of its four role counts. */
  predicate Consistent(a: DepartmentAttendee)
  {
    a.expected == Expected(a)
  }

  predicate AllConsistent(roster: seq<DepartmentAttendee>)
  {
    forall i :: 0 <= i < |roster| ==> Consistent(roster[i])
  }

  /** A department with nobody registered yet. */
  function ZeroRow(eventId: string, userId: string, name: string): (r: DepartmentAttendee)
    ensures r.eventId == eventId && r.userId == userId && r.departmentName == name
    ensures Consistent(r) && r.expected == 0 && r.actual == 0
  {
    DepartmentAttendee(eventId, name, 0, 0, 0, 0, 0, 0, userId)
  }

  /** The all-zero roster, one row per catalogue department. */
  function InitRoster(eventId: string, userId: string): (r: seq<DepartmentAttendee>)
    ensures |r| == |Catalog|
    ensures forall i :: 0 <= i < |r| ==> r[i] == ZeroRow(eventId, userId, Catalog[i])
  {
    seq(|Catalog|, i requires 0 <= i < |Catalog| => ZeroRow(eventId, userId, Catalog[i]))
  }

  /** A row as the hook stores and saves it: owned by the given event and user, `expected` recomputed. */
  function Normalize(a: DepartmentAttendee, eventId: string, userId: string): (r: DepartmentAttendee)
    ensures r.eventId == eventId && r.userId == userId && Consistent(r)
    ensures r.departmentName == a.departmentName && r.actual == a.actual
    ensures r.officers == a.officers && r.inspectors == a.inspectors
    ensures r.superintendents == a.superintendents && r.militari == a.militari
  {
    a.(eventId := eventId, userId := userId, expected := Expected(a))
  }

  /** The row a `Map` built from `rows` by department name answers for `name`: the last one so named. */
  function LastNamed(rows: seq<DepartmentAttendee>, name: string): Option<DepartmentAttendee>
    decreases |rows|
  {
    if rows == [] then None
    else if rows[|rows| - 1].departmentName == name then Some(rows[|rows| - 1])
    else LastNamed(rows[..|rows| - 1], name)
  }

  /** `LastNamed` finds nothing exactly when no row has the name, and otherwise the last row that has it. */
  lemma LastNamedSpec(rows: seq<DepartmentAttendee>, name: string)
    ensures LastNamed(rows, name).None? <==> forall j :: 0 <= j < |rows| ==> rows[j].departmentName != name
    ensures LastNamed(rows, name).Some? ==>
              exists j :: 0 <= j < |rows| && rows[j] == LastNamed(rows, name).value
                          && rows[j].departmentName == name
                          && forall k :: j < k < |rows| ==> rows[k].departmentName != name
  {
    LastNamedNone(rows, name);
    if LastNamed(rows, name).Some? {
      var j := LastNamedAt(rows, name);
    }
  }

  lemma {:induction false} LastNamedNone(rows: seq<DepartmentAttendee>, name: string)
    ensures LastNamed(rows, name).None? <==> forall j :: 0 <= j < |rows| ==> rows[j].departmentName != name
    decreases |rows|
  {
    if rows != [] {
      var n := |rows| - 1;
      if rows[n].departmentName != name {
        var init := rows[..n];
        LastNamedNone(init, name);
        assert forall j :: 0 <= j < n ==> rows[j] == init[j];
      }
    }
  }

  /** The position of the row `LastNamed` finds: it has the name and no later row does. */
  lemma {:induction false} LastNamedAt(rows: seq<DepartmentAttendee>, name: string) returns (j: int)
    requires LastNamed(rows, name).Some?
    ensures 0 <= j < |rows| && rows[j] == LastNamed(rows, name).value && rows[j].departmentName == name
    ensures forall k :: j < k < |rows| ==> rows[k].departmentName != name
    decreases |rows|
  {
    var n := |rows| - 1;
    if rows[n].departmentName == name {
      j := n;
    } else {
      var init := rows[..n];
      j := LastNamedAt(init, name);
      assert rows[j] == init[j];
    }
  }

  /** When exactly one row carries the name, that row is the one found. */
  lemma LastNamedUnique(rows: seq<DepartmentAttendee>, i: int)
    requires 0 <= i < |rows|
    requires forall j :: 0 <= j < |rows| && j != i ==> rows[j].departmentName != rows[i].departmentName
    ensures LastNamed(rows, rows[i].departmentName) == Some(rows[i])
  {
    LastNamedSpec(rows, rows[i].departmentName);
  }

  /** One department of the merged roster: its persisted row normalised, or a zero row. */
  function MergeRow(eventId: string, userId: string, rows: seq<DepartmentAttendee>, name: string): DepartmentAttendee
  {
    match LastNamed(rows, name)
    case Some(existing) => Normalize(existing, eventId, userId)
    case None => ZeroRow(eventId, userId, name)
  }

  /** The catalogue-ordered roster built from the rows the table answered. */
  function MergeRoster(eventId: string, userId: string, rows: seq<DepartmentAttendee>): (r: seq<DepartmentAttendee>)
    ensures |r| == |Catalog|
    ensures forall i :: 0 <= i < |r| ==> r[i] == MergeRow(eventId, userId, rows, Catalog[i])
  {
    seq(|Catalog|, i requires 0 <= i < |Catalog| => MergeRow(eventId, userId, rows, Catalog[i]))
  }

  /** Every catalogue department exactly once, in order. */
  predicate CatalogShaped(roster: seq<DepartmentAttendee>)
  {
    |roster| == |Catalog| && forall i :: 0 <= i < |roster| ==> roster[i].departmentName == Catalog[i]
  }

  /**
   * The merged roster lists the catalogue in order, owned by the event and
   * the user, with consistent `expected` figures; each department takes the
   * last persisted row of its name, or zeros when there is none.
   */
  lemma MergeRosterSpec(eventId: string, userId: string, rows: seq<DepartmentAttendee>, i: int)
    requires 0 <= i < |Catalog|
    ensures CatalogShaped(MergeRoster(eventId, userId, rows))
    ensures AllConsistent(MergeRoster(eventId, userId, rows))
    ensures MergeRoster(eventId, userId, rows)[i].eventId == eventId
    ensures MergeRoster(eventId, userId, rows)[i].userId == userId
    ensures (forall j :: 0 <= j < |rows| ==> rows[j].departmentName != Catalog[i]) ==>
              MergeRoster(eventId, userId, rows)[i] == ZeroRow(eventId, userId, Catalog[i])
    ensures forall j :: 0 <= j < |rows| && rows[j].departmentName == Catalog[i]
                        && (forall k :: j < k < |rows| ==> rows[k].departmentName != Catalog[i]) ==>
              MergeRoster(eventId, userId, rows)[i] == Normalize(rows[j], eventId, userId)
  {
    var r := MergeRoster(eventId, userId, rows);
    forall k | 0 <= k < |r| ensures r[k].departmentName == Catalog[k] && Consistent(r[k]) {
      LastNamedSpec(rows, Catalog[k]);
    }
    LastNamedSpec(rows, Catalog[i]);
    forall j | 0 <= j < |rows| && rows[j].departmentName == Catalog[i]
               && (forall k :: j < k < |rows| ==> rows[k].departmentName != Catalog[i])
      ensures r[i] == Normalize(rows[j], eventId, userId)
    {
      var j' :| 0 <= j' < |rows| && rows[j'] == LastNamed(rows, Catalog[i]).value
                && rows[j'].departmentName == Catalog[i]
                && forall k :: j' < k < |rows| ==> rows[k].departmentName != Catalog[i];
      assert j' == j;
    }
  }

  /** Rows naming no catalogue department change nothing: the roster is the zero roster. */
  lemma MergeForeign(eventId: string, userId: string, rows: seq<DepartmentAttendee>)
    requires forall j :: 0 <= j < |rows| ==> rows[j].departmentName !in Catalog
    ensures MergeRoster(eventId, userId, rows) == InitRoster(eventId, userId)
  {
    forall i | 0 <= i < |Catalog| ensures LastNamed(rows, Catalog[i]) == None {
      LastNamedSpec(rows, Catalog[i]);
    }
  }

  lemma MergeEmpty(eventId: string, userId: string)
    ensures MergeRoster(eventId, userId, []) == InitRoster(eventId, userId)
  {
    MergeForeign(eventId, userId, []);
  }

  /** The editable columns of a row. */
  datatype Field = Officers | Inspectors | Superintendents | Militari | Actual

  function GetField(a: DepartmentAttendee, f: Field): int
  {
    match f
    case Officers => a.officers
    case Inspectors => a.inspectors
    case Superintendents => a.superintendents
    case Militari => a.militari
    case Actual => a.actual
  }

  function SetField(a: DepartmentAttendee, f: Field, v: int): (r: DepartmentAttendee)
    ensures GetField(r, f) == v
    ensures forall g :: g != f ==> GetField(r, g) == GetField(a, g)
    ensures r.eventId == a.eventId && r.departmentName == a.departmentName
    ensures r.userId == a.userId && r.expected == a.expected
  {
    match f
    case Officers => a.(officers := v)
    case Inspectors => a.(inspectors := v)
    case Superintendents => a.(superintendents := v)
    case Militari => a.(militari := v)
    case Actual => a.(actual := v)
  }

  function Max0(v: int): int
  {
    if v < 0 then 0 else v
  }

  /** The `map` callback of `updateAttendeeField`. */
  function UpdateRow(a: DepartmentAttendee, name: string, f: Field, v: int): DepartmentAttendee
  {
    if a.departmentName == name then
      var updated := SetField(a, f, Max0(v));
      updated.(expected := Expected(updated))
    else a
  }

  function UpdateRoster(roster: seq<DepartmentAttendee>, name: string, f: Field, v: int): (r: seq<DepartmentAttendee>)
    ensures |r| == |roster|
  {
    seq(|roster|, i requires 0 <= i < |roster| => UpdateRow(roster[i], name, f, v))
  }

  /**
   * An edit keeps the length and the order; every row of the named department
   * gets the field clamped at zero, the other columns kept and `expected`
   * recomputed; every other row is left as it was.
   */
  lemma UpdateRosterSpec(roster: seq<DepartmentAttendee>, name: string, f: Field, v: int, i: int)
    requires 0 <= i < |roster|
    ensures var r := UpdateRoster(roster, name, f, v);
            if roster[i].departmentName == name then
              GetField(r[i], f) == (if v < 0 then 0 else v)
              && GetField(r[i], f) >= 0
              && (forall g :: g != f ==> GetField(r[i], g) == GetField(roster[i], g))
              && r[i].departmentName == name
              && r[i].eventId == roster[i].eventId && r[i].userId == roster[i].userId
              && Consistent(r[i])
            else r[i] == roster[i]
  {
  }

  /** Edits keep every `expected` figure equal to its row's sum. */
  lemma UpdateKeepsConsistent(roster: seq<DepartmentAttendee>, name: string, f: Field, v: int)
    requires AllConsistent(roster)
    ensures AllConsistent(UpdateRoster(roster, name, f, v))
  {
    var r := UpdateRoster(roster, name, f, v);
    forall i | 0 <= i < |r| ensures Consistent(r[i]) {
      UpdateRosterSpec(roster, name, f, v, i);
    }
  }

  /** Edits keep the list of departments, so a catalogue-shaped roster stays one. */
  lemma UpdateKeepsShape(roster: seq<DepartmentAttendee>, name: string, f: Field, v: int)
    requires CatalogShaped(roster)
    ensures CatalogShaped(UpdateRoster(roster, name, f, v))
  {
    var r := UpdateRoster(roster, name, f, v);
    forall i | 0 <= i < |r| ensures r[i].departmentName == Catalog[i] {
      UpdateRosterSpec(roster, name, f, v, i);
    }
  }

  /** The conflict key of the upsert. */
  datatype AttendeeKey = AttendeeKey(eventId: string, departmentName: string, userId: string)

  function KeyOf(a: DepartmentAttendee): AttendeeKey
  {
    AttendeeKey(a.eventId, a.departmentName, a.userId)
  }

  type Store = map<AttendeeKey, DepartmentAttendee>

  /** Every stored row sits under its own key. */
  predicate WellKeyed(store: Store)
  {
    forall k :: k in store ==> KeyOf(store[k]) == k
  }

  /** The rows sent to the upsert. */
  function Payload(roster: seq<DepartmentAttendee>, eventId: string, userId: string): (r: seq<DepartmentAttendee>)
    ensures |r| == |roster|
    ensures forall i :: 0 <= i < |r| ==> r[i] == Normalize(roster[i], eventId, userId)
  {
    seq(|roster|, i requires 0 <= i < |roster| => Normalize(roster[i], eventId, userId))
  }

  /** The upsert: row by row, a row replaces whatever is stored under its key. */
  function UpsertAll(store: Store, rows: seq<DepartmentAttendee>): Store
    decreases |rows|
  {
    if rows == [] then store
    else UpsertAll(store[KeyOf(rows[0]) := rows[0]], rows[1..])
  }

  /** The upsert overrides the store with the map of the rows alone. */
  lemma {:induction false} UpsertAllOverride(store: Store, rows: seq<DepartmentAttendee>)
    ensures UpsertAll(store, rows) == store + UpsertAll(map[], rows)
    decreases |rows|
  {
    if rows != [] {
      var k, a := KeyOf(rows[0]), rows[0];
      UpsertAllOverride(store[k := a], rows[1..]);
      UpsertAllOverride(map[k := a], rows[1..]);
      var u := UpsertAll(map[], rows[1..]);
      assert store[k := a] + u == store + (map[k := a] + u);
    }
  }

  /** Upserting the same rows twice stores what upserting them once does. */
  lemma UpsertAllIdempotent(store: Store, rows: seq<DepartmentAttendee>)
    ensures UpsertAll(UpsertAll(store, rows), rows) == UpsertAll(store, rows)
  {
    var u := UpsertAll(map[], rows);
    UpsertAllOverride(store, rows);
    UpsertAllOverride(store + u, rows);
    assert (store + u) + u == store + u;
  }

  /** The upsert keeps the store well keyed. */
  lemma {:induction false} UpsertAllKeyed(store: Store, rows: seq<DepartmentAttendee>)
    requires WellKeyed(store)
    ensures WellKeyed(UpsertAll(store, rows))
    decreases |rows|
  {
    if rows != [] {
      UpsertAllKeyed(store[KeyOf(rows[0]) := rows[0]], rows[1..]);
    }
  }

  /** Keys that no row carries keep their stored row, or stay absent. */
  lemma {:induction false} UpsertAllOutside(store: Store, rows: seq<DepartmentAttendee>, k: AttendeeKey)
    requires forall i :: 0 <= i < |rows| ==> KeyOf(rows[i]) != k
    ensures k in UpsertAll(store, rows) <==> k in store
    ensures k in store ==> UpsertAll(store, rows)[k] == store[k]
    decreases |rows|
  {
    if rows != [] {
      UpsertAllOutside(store[KeyOf(rows[0]) := rows[0]], rows[1..], k);
    }
  }

  /** With pairwise distinct keys, every row ends up stored under its key. */
  lemma {:induction false} UpsertAllStores(store: Store, rows: seq<DepartmentAttendee>, i: int)
    requires 0 <= i < |rows|
    requires forall j, l :: 0 <= j < l < |rows| ==> KeyOf(rows[j]) != KeyOf(rows[l])
    ensures KeyOf(rows[i]) in UpsertAll(store, rows)
    ensures UpsertAll(store, rows)[KeyOf(rows[i])] == rows[i]
    decreases |rows|
  {
    var s' := store[KeyOf(rows[0]) := rows[0]];
    if i == 0 {
      UpsertAllOutside(s', rows[1..], KeyOf(rows[0]));
    } else {
      UpsertAllStores(s', rows[1..], i - 1);
    }
  }

  /** The stored row of each catalogue department for one event and user, if any. */
  function Lookups(store: Store, eventId: string, userId: string): (r: seq<Option<DepartmentAttendee>>)
    ensures |r| == |Catalog|
    ensures forall i :: 0 <= i < |r| ==>
              r[i] == (var k := AttendeeKey(eventId, Catalog[i], userId); if k in store then Some(store[k]) else None)
  {
    seq(|Catalog|, i requires 0 <= i < |Catalog| =>
      var k := AttendeeKey(eventId, Catalog[i], userId);
      if k in store then Some(store[k]) else None)
  }

  /** The present values, in order. */
  function Present(xs: seq<Option<DepartmentAttendee>>): (r: seq<DepartmentAttendee>)
    ensures |r| <= |xs|
    decreases |xs|
  {
    if xs == [] then []
    else (if xs[0].Some? then [xs[0].value] else []) + Present(xs[1..])
  }

  lemma {:induction false} PresentAll(xs: seq<Option<DepartmentAttendee>>)
    requires forall i :: 0 <= i < |xs| ==> xs[i].Some?
    ensures |Present(xs)| == |xs|
    ensures forall i :: 0 <= i < |xs| ==> Present(xs)[i] == xs[i].value
    decreases |xs|
  {
    if xs != [] {
      PresentAll(xs[1..]);
    }
  }

  /** The select on (event_id, user_id), restricted to catalogue departments, in catalogue order. */
  function StoreRows(store: Store, eventId: string, userId: string): seq<DepartmentAttendee>
  {
    Present(Lookups(store, eventId, userId))
  }

  /** Normalising twice is normalising once. */
  lemma NormalizeIdempotent(a: DepartmentAttendee, eventId: string, userId: string)
    ensures Normalize(Normalize(a, eventId, userId), eventId, userId) == Normalize(a, eventId, userId)
  {
  }

  /**
   * Saving a catalogue-shaped roster and reading it back gives the roster as
   * saved: the same rows, owned by the event and the user, with consistent
   * `expected` figures.
   */
  lemma SaveRoundTrip(store: Store, roster: seq<DepartmentAttendee>, eventId: string, userId: string)
    requires CatalogShaped(roster)
    ensures MergeRoster(eventId, userId, StoreRows(UpsertAll(store, Payload(roster, eventId, userId)), eventId, userId))
         == Payload(roster, eventId, userId)
  {
    StoredPayload(store, roster, eventId, userId);
    MergePayload(roster, eventId, userId);
  }

  /** After the upsert, the event's and the user's rows read back in catalogue order are the payload. */
  lemma StoredPayload(store: Store, roster: seq<DepartmentAttendee>, eventId: string, userId: string)
    requires CatalogShaped(roster)
    ensures StoreRows(UpsertAll(store, Payload(roster, eventId, userId)), eventId, userId)
         == Payload(roster, eventId, userId)
  {
    var p := Payload(roster, eventId, userId);
    var s := UpsertAll(store, p);
    CatalogDistinct();
    forall i | 0 <= i < |Catalog| ensures AttendeeKey(eventId, Catalog[i], userId) in s
                                   && s[AttendeeKey(eventId, Catalog[i], userId)] == p[i] {
      assert KeyOf(p[i]) == AttendeeKey(eventId, Catalog[i], userId);
      UpsertAllStores(store, p, i);
    }
    PresentAll(Lookups(s, eventId, userId));
  }

  /** Merging the payload back onto the catalogue gives the payload itself. */
  lemma MergePayload(roster: seq<DepartmentAttendee>, eventId: string, userId: string)
    requires CatalogShaped(roster)
    ensures MergeRoster(eventId, userId, Payload(roster, eventId, userId)) == Payload(roster, eventId, userId)
  {
    var p := Payload(roster, eventId, userId);
    var m := MergeRoster(eventId, userId, p);
    forall i | 0 <= i < |Catalog| ensures m[i] == p[i] {
      LastNamedUnique(p, i);
      NormalizeIdempotent(roster[i], eventId, userId);
    }
  }

  /** Saved rows are consistent: every row the upsert stores has `expected` equal to its sum. */
  lemma {:induction false} UpsertConsistent(store: Store, rows: seq<DepartmentAttendee>, k: AttendeeKey)
    requires AllConsistent(rows)
    requires k in UpsertAll(store, rows)
    ensures (k in store && UpsertAll(store, rows)[k] == store[k]) || Consistent(UpsertAll(store, rows)[k])
    decreases |rows|
  {
    if rows != [] {
      var s' := store[KeyOf(rows[0]) := rows[0]];
      UpsertConsistent(s', rows[1..], k);
    }
  }

  lemma PayloadConsistent(roster: seq<DepartmentAttendee>, eventId: string, userId: string)
    ensures AllConsistent(Payload(roster, eventId, userId))
  {
  }

  const LoadErrorPrefix: string := "Errore caricamento discenti per reparto: "
  const SaveErrorPrefix: string := "Errore salvataggio discenti per reparto: "
  const SaveNoUserMessage: string := "Utente non autenticato per salvare i discenti."
  const SaveSuccessMessage: string := "Dati discenti per reparto salvati con successo!"

  /**
   * The state of the hook for one event (`""` standing for a missing
   * event id), together with the table it reads and writes.
   */
  class DepartmentAttendeesHook {
    const eventId: string
    var attendees: seq<DepartmentAttendee>
    var loading: bool
    var initialDataLoaded: bool
    var store: Store

    ghost predicate Valid()
      reads this
    {
      WellKeyed(store)
    }

    constructor (eventId: string, store: Store)
      requires WellKeyed(store)
      ensures Valid()
      ensures this.eventId == eventId && this.store == store
      ensures attendees == [] && !loading && !initialDataLoaded
    {
      this.eventId := eventId;
      this.store := store;
      attendees := [];
      loading := false;
      initialDataLoaded := false;
    }

    /** `initializeAttendees`: the zero roster, unless there is no event. */
    method InitializeAttendees(currentUserId: string)
      modifies this
      ensures eventId == "" ==> attendees == old(attendees)
      ensures eventId != "" ==> attendees == InitRoster(eventId, currentUserId)
      ensures loading == old(loading) && initialDataLoaded == old(initialDataLoaded) && store == old(store)
    {
      if eventId == "" {
        return;
      }
      attendees := InitRoster(eventId, currentUserId);
    }

    /**
     * `fetchAttendees`. `auth` is what the first `getUser` answers,
     * `queryError` a failure of the select, `retryAuth` what the `getUser`
     * in the error handler answers. The result lists the toasts shown.
     */
    method Fetch(auth: AuthAnswer, queryError: Option<string>, retryAuth: AuthAnswer) returns (toasts: seq<Toast>)
      modifies this
      ensures store == old(store)
      ensures eventId == "" ==>
                attendees == old(attendees) && loading == old(loading)
                && initialDataLoaded == old(initialDataLoaded) && toasts == []
      ensures eventId != "" ==> !loading
      ensures eventId != "" && auth.NoUser? ==> attendees == [] && initialDataLoaded && toasts == []
      ensures eventId != "" && auth.User? && queryError.None? ==>
                attendees == MergeRoster(eventId, auth.id, StoreRows(store, eventId, auth.id))
                && initialDataLoaded && toasts == []
      ensures eventId != "" && (auth.AuthFailure? || (auth.User? && queryError.Some?)) ==>
                toasts == [Error(LoadErrorPrefix + FailureMessage(auth, queryError))]
                && (retryAuth.User? ==> attendees == InitRoster(eventId, retryAuth.id) && initialDataLoaded)
                && (retryAuth.NoUser? ==> attendees == old(attendees) && initialDataLoaded)
                && (retryAuth.AuthFailure? ==> attendees == old(attendees) && initialDataLoaded == old(initialDataLoaded))
    {
      toasts := [];
      if eventId == "" {
        return;
      }
      loading := true;
      var failed := false;
      match auth {
        case NoUser =>
          attendees := [];
          initialDataLoaded := true;
        case AuthFailure(_) =>
          failed := true;
        case User(uid) =>
          if queryError.Some? {
            failed := true;
          } else {
            var data := StoreRows(store, eventId, uid);
            if |data| > 0 {
              attendees := MergeRoster(eventId, uid, data);
            } else {
              InitializeAttendees(uid);
              MergeEmpty(eventId, uid);
            }
            initialDataLoaded := true;
          }
      }
      if failed {
        toasts := [Error(LoadErrorPrefix + FailureMessage(auth, queryError))];
        match retryAuth {
          case User(uid) =>
            InitializeAttendees(uid);
            initialDataLoaded := true;
          case NoUser =>
            initialDataLoaded := true;
          case AuthFailure(_) =>
        }
      }
      loading := false;
    }

    /**
     * `saveAttendees`. `auth` is what `getUser` answers and `upsertError` a
     * failure of the upsert; the read-back after a successful save sees the
     * same user and no failure.
     */
    method Save(auth: AuthAnswer, upsertError: Option<string>) returns (toasts: seq<Toast>)
      requires Valid()
      modifies this
      ensures Valid()
      ensures eventId == "" || |old(attendees)| == 0 ==>
                attendees == old(attendees) && store == old(store) && loading == old(loading)
                && initialDataLoaded == old(initialDataLoaded) && toasts == []
      ensures eventId != "" && |old(attendees)| > 0 ==> !loading
      ensures eventId != "" && |old(attendees)| > 0 && auth.NoUser? ==>
                attendees == old(attendees) && store == old(store)
                && initialDataLoaded == old(initialDataLoaded) && toasts == [Error(SaveNoUserMessage)]
      ensures eventId != "" && |old(attendees)| > 0 && (auth.AuthFailure? || (auth.User? && upsertError.Some?)) ==>
                attendees == old(attendees) && store == old(store)
                && initialDataLoaded == old(initialDataLoaded)
                && toasts == [Error(SaveErrorPrefix + FailureMessage(auth, upsertError))]
      ensures eventId != "" && |old(attendees)| > 0 && auth.User? && upsertError.None? ==>
                store == UpsertAll(old(store), Payload(old(attendees), eventId, auth.id))
                && attendees == MergeRoster(eventId, auth.id, StoreRows(store, eventId, auth.id))
                && initialDataLoaded && toasts == [Success(SaveSuccessMessage)]
                && (CatalogShaped(old(attendees)) ==> attendees == Payload(old(attendees), eventId, auth.id))
    {
      toasts := [];
      if eventId == "" || |attendees| == 0 {
        return;
      }
      loading := true;
      match auth {
        case NoUser =>
          toasts := [Error(SaveNoUserMessage)];
        case AuthFailure(m) =>
          toasts := [Error(SaveErrorPrefix + m)];
        case User(uid) =>
          if upsertError.Some? {
            toasts := [Error(SaveErrorPrefix + upsertError.value)];
          } else {
            var upsertData := Payload(attendees, eventId, uid);
            ghost var roster := attendees;
            UpsertAllKeyed(store, upsertData);
            store := UpsertAll(store, upsertData);
            toasts := [Success(SaveSuccessMessage)];
            var more := Fetch(auth, None, auth);
            toasts := toasts + more;
            if CatalogShaped(roster) {
              SaveRoundTrip(old(store), roster, eventId, uid);
            }
          }
      }
      loading := false;
    }

    /** `updateAttendeeField`: the edit applied to the roster, nothing else touched. */
    method UpdateAttendeeField(departmentName: string, field: Field, value: int)
      modifies this
      ensures attendees == UpdateRoster(old(attendees), departmentName, field, value)
      ensures store == old(store) && loading == old(loading) && initialDataLoaded == old(initialDataLoaded)
    {
      attendees := UpdateRoster(attendees, departmentName, field, value);
    }

    /** One run of the effect on `[eventId, initialDataLoaded]`. */
    method OnChange(auth: AuthAnswer, queryError: Option<string>, retryAuth: AuthAnswer) returns (toasts: seq<Toast>)
      modifies this
      ensures store == old(store)
      ensures eventId == "" ==> attendees == [] && !initialDataLoaded && loading == old(loading) && toasts == []
      ensures eventId != "" && old(initialDataLoaded) ==>
                attendees == old(attendees) && initialDataLoaded && loading == old(loading) && toasts == []
      ensures eventId != "" && !old(initialDataLoaded) ==> !loading
      ensures eventId != "" && !old(initialDataLoaded) && auth.User? && queryError.None? ==>
                attendees == MergeRoster(eventId, auth.id, StoreRows(store, eventId, auth.id))
                && initialDataLoaded && toasts == []
      ensures eventId != "" && !old(initialDataLoaded) && auth.NoUser? ==>
                attendees == [] && initialDataLoaded && toasts == []
    {
      toasts := [];
      if eventId != "" && !initialDataLoaded {
        toasts := Fetch(auth, queryError, retryAuth);
      } else if eventId == "" {
        attendees := [];
        initialDataLoaded := false;
      }
    }
  }

  /** The message of whichever call failed first. */
  function FailureMessage(auth: AuthAnswer, failure: Option<string>): string
  {
    match auth
    case AuthFailure(m) => m
    case _ => if failure.Some? then failure.value else ""
  }
}
