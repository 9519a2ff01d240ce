# Training-course dashboard: a Dafny model of its core

This project models the core of a dashboard for managing training courses.
It covers events, procedural deadlines and per-department headcounts, kept in
a Supabase backend and shown by React pages. The model covers seven parts:

- **`useEvents`** (module `Events`, class `EventsHook`): the user's events,
  read from the `events` table ordered by start date. It also models the
  insert, the status update and the reaction to authentication events. The
  table is a list of rows. What the authentication service and the table
  answer (a user, nobody, a failure) are parameters of each method.
- **`useDeadlines`** (module `Deadlines`, class `DeadlinesHook`): each
  event with a start date expands into six deadlines, at 30, 25 and 10 days
  before the start, on the start day, and 1 and 2 days after it. Each
  deadline is done when its tag is in the event's `completed_tasks`. The
  hook keeps the deadlines that are neither done nor past, sorted stably by
  date, and raises a notification for each one that falls on today.
- **The dashboard page** (module `Dashboard`): the five-step progress
  percentage, the list of active (not archived) events, the panel of the
  first six deadlines, and the simulated "mark as completed" button.
- **`useDepartmentAttendees`** (module `DepartmentAttendees`, class
  `DepartmentAttendeesHook`): a ten-department catalogue. Stored rows are
  merged into a complete roster in catalogue order, edited field by field
  with clamping at zero and the `expected` figure recomputed, and saved by
  an upsert keyed on (event, department, user). The table is a map from
  that key to the row.
- **The event detail page** (module `EventDetail`): the lookup of the shown
  event, `parseInt` of what the user typed in a count field, the derived
  `absent` column and the footer totals.
- **The new-event form** (module `NewEvent`): field updates, the two checks
  made on submit, and the parsing of the teacher list (comma separated) and
  the student list (one per line).
- **The calendar page** (module `CalendarPage`): the displayed month, kept
  normalised to its first instant, and the events starting in that month,
  in start order.

The shared modules are:

- `Types`: the records.
- `Seqs`: JavaScript's `filter` and `map`, and a stable sort by an integer key.
- `Text`: `trim` and `split`.
- `Dates`: `addDays`, `subDays`, `isSameDay`, `getYear`, `getMonth` and
  `startOfMonth`. One instant is an integer count of milliseconds of local
  wall-clock time. The proleptic Gregorian calendar is computed from the day
  number through 400-year eras.

Clock readings, identifiers generated by the backend and every backend
answer are parameters. Toasts are returned as lists of values, not
displayed.

The deadline filter at src/hooks/useDeadlines.ts:89 compares instants,
although its comment says it keeps future and today's deadlines. So a
deadline dated earlier today is dropped. The hook's model (`Upcoming`)
filters by instant, as the code does. The day comparison is modelled beside
it, as a finding (see "## Findings").

How the model reads the backend's order: the fetched events are sorted by
`start_date` ascending, and PostgreSQL puts empty start dates last. So
dated rows come in start order, then undated rows.

## Model

| member | source | states |
|---|---|---|
| `Types.FindEventSpec` | src/pages/EventDetailPage.tsx:33 | The lookup gives nothing exactly when no event carries the id. Otherwise it gives the first event that carries it. |
| `Seqs.Filter` | src/pages/Index.tsx:49 | The result is never longer than the input, and every element kept satisfies the predicate. |
| `Seqs.FilterAppend` | src/hooks/useDeadlines.ts:88-89 | Filtering a concatenation gives the concatenation of the two filtered parts. |
| `Seqs.FilterMembership` | src/pages/Index.tsx:49 | An element is kept exactly when it is in the input and satisfies the predicate. |
| `Seqs.FilterMultiset` | src/hooks/useDeadlines.ts:88-89 | The kept elements, counted with multiplicity, are those of the input that satisfy the predicate. |
| `Seqs.FilterAll` | src/pages/Index.tsx:49 | A list all of whose elements satisfy the predicate is kept whole. |
| `Seqs.FilterNone` | src/pages/Index.tsx:49 | A list none of whose elements satisfies the predicate gives the empty list. |
| `Seqs.FilterCongruent` | src/hooks/useDeadlines.ts:88-89 | Two predicates that agree on the list's elements filter it alike. |
| `Seqs.FilterFilter` | src/hooks/useDeadlines.ts:88-99 | Filtering twice is filtering once by the conjunction. |
| `Seqs.FilterMonotone` | src/hooks/useDeadlines.ts:88-99 | A weaker predicate keeps at least as many elements. |
| `Seqs.FilterSizeByMultiset` | src/hooks/useDeadlines.ts:88-99 | Lists with equal multisets keep the same number of elements under any predicate. |
| `Seqs.InsertBy` | src/hooks/useDeadlines.ts:90 | Inserting adds exactly one element to the multiset of the list. |
| `Seqs.SortBy` | src/hooks/useDeadlines.ts:90 | The sort is a permutation of its input. |
| `Seqs.InsertBySorted` | src/hooks/useDeadlines.ts:90 | Inserting into a sorted list keeps it sorted. |
| `Seqs.SortBySorted` | src/hooks/useDeadlines.ts:90 | The sort's result is in non-decreasing key order. |
| `Seqs.InsertByStable` | src/hooks/useDeadlines.ts:90 | Among the elements with any one key, an inserted element comes first, before the equal-key elements already in the sorted list. |
| `Seqs.SortByStable` | src/hooks/useDeadlines.ts:90 | The sort is stable: for every key, the elements with that key keep their input order. |
| `Text.TrimSpec` | src/pages/NewEvent.tsx:48-49 | The trimmed string is a contiguous piece of the input. Everything cut off at either end is white space, and the result neither starts nor ends with white space. |
| `Text.TrimNoop` | src/pages/NewEvent.tsx:48-49 | A string with no white space at either end is its own trim. |
| `Text.Split` | src/pages/NewEvent.tsx:48-49 | Splitting gives at least one piece, and no piece contains the separator. |
| `Text.JoinSplit` | src/pages/NewEvent.tsx:48-49 | Joining the pieces of a split with the separator gives back the input. |
| `Text.SplitJoin` | src/pages/NewEvent.tsx:48-49 | Pieces free of the separator, joined and split again, give back the same pieces. |
| `Text.SplitFree` | src/pages/NewEvent.tsx:48-49 | A string without the separator is a single piece. |
| `Text.SplitAround` | src/pages/NewEvent.tsx:48-49 | Splitting `a + sep + b` gives the pieces of `a` followed by those of `b`. |
| `Dates.TimeOfDay` | src/hooks/useDeadlines.ts:96 | The time of day lies within one day's milliseconds. |
| `Dates.AddDaysSpec` | src/hooks/useDeadlines.ts:18-68 | Adding or subtracting `n` days moves the calendar day by exactly `n` and keeps the time of day. |
| `Dates.YearOfEraSpec` | src/pages/CalendarPage.tsx:27-28 | A day of a 400-year era splits into a year of the era (0 to 399) and a day of that year (0 to 365), which add back up to the day. |
| `Dates.YearOfEraInverse` | src/pages/CalendarPage.tsx:27-28 | The split recovers the year and the day of the year from the day of the era. |
| `Dates.CivilFromDaysRange` | src/pages/CalendarPage.tsx:27-28 | Every day number has a month from 1 to 12 and a day of the month from 1 up. |
| `Dates.DaysCivilDays` | src/pages/CalendarPage.tsx:27-28 | Converting a day number to its date and back gives the same day number. |
| `Dates.CivilDaysCivil` | src/pages/CalendarPage.tsx:42 | Converting the first of any month to its day number and back gives the same date. |
| `Dates.StartOfMonthSpec` | src/pages/CalendarPage.tsx:42 | The start of the month is midnight of the first day, in the same year and month as the input, and no later than it. |
| `Dates.StartOfMonthIdempotent` | src/pages/CalendarPage.tsx:16 | Normalising a month twice gives the same result as normalising it once. |
| `Dates.EpochSample` | src/pages/CalendarPage.tsx:27-28 | Day 0 is 1 January 1970. |
| `Dates.MarchSample` | src/pages/CalendarPage.tsx:27-28 | Day 19813 is 31 March 2024. |
| `Dates.LeapDaySample` | src/pages/CalendarPage.tsx:27-28 | Day 19782 is the leap day 29 February 2024. |
| `Deadlines.CalculateDeadlinesForEvent` | src/hooks/useDeadlines.ts:9-77 | The six pushes give exactly the event's deadline list. The list is empty when the event has no start date. |
| `Deadlines.EventDeadlinesDates` | src/hooks/useDeadlines.ts:16-73 | The kinds come in push order, dated 30, 25 and 10 days before the start, on the start, and 1 and 2 days after it. |
| `Deadlines.EventDeadlinesDone` | src/hooks/useDeadlines.ts:21-71 | Each deadline is done exactly when its own literal tag is in `completed_tasks`. |
| `Deadlines.EventDeadlinesMessages` | src/hooks/useDeadlines.ts:19-72 | Each deadline carries the event's id and title, and its message quotes the title after the kind's lead text. |
| `Deadlines.NoTasksNothingDone` | src/hooks/useDeadlines.ts:21 | Without a task list, no deadline is done. |
| `Deadlines.AllDeadlinesCount` | src/hooks/useDeadlines.ts:85 | The flat map yields six deadlines for each event with a start date, and none for the others. |
| `Deadlines.EventDeadlinesCount` | src/hooks/useDeadlines.ts:11 | One event yields six deadlines if it has a start date and none otherwise. |
| `Deadlines.UpcomingSpec` | src/hooks/useDeadlines.ts:88-90 | The upcoming list is a permutation of the pending deadlines, in non-decreasing date order. For every date, ties keep the order they were derived in. |
| `Deadlines.UpcomingMembership` | src/hooks/useDeadlines.ts:89 | A deadline is upcoming exactly when it is derived, not done, and not before now. |
| `Deadlines.UpcomingBound` | src/hooks/useDeadlines.ts:85-90 | There are at most six upcoming deadlines per event with a start date. |
| `Deadlines.TodayNotifications` | src/hooks/useDeadlines.ts:95-99 | There is one notification for each deadline of the list that is not done and falls on today. |
| `Deadlines.Notify` | src/hooks/useDeadlines.ts:95-99 | The loop over the upcoming list raises exactly the same-day notifications, in list order. |
| `Deadlines.NotificationCount` | src/hooks/useDeadlines.ts:88-99 | The number of notifications equals the number of derived deadlines that are not done, not past, and on today. |
| `Deadlines.NotificationsAreDueToday` | src/hooks/useDeadlines.ts:95-99 | The i-th notification is the prefix plus the message of the i-th upcoming deadline that falls on today, and that deadline is derived from the events, pending and dated today. |
| `Deadlines.TodaysDeadlineDropped` | src/hooks/useDeadlines.ts:88-99 | As written: for an event starting at midnight of a day that has already begun, the registers deadline falls on today but is filtered out as past, and no notification is raised. |
| `Deadlines.UpcomingByDaySpec` | src/hooks/useDeadlines.ts:88-90 | Corrected filter: a deadline is kept exactly when it is derived, not done, and not on an earlier calendar day. The list is in date order. |
| `Deadlines.IntendedNotificationCount` | src/hooks/useDeadlines.ts:88-99 | Corrected filter: every derived deadline that is not done and falls on today raises its notification. |
| `Deadlines.DueTodayKept` | src/hooks/useDeadlines.ts:88-99 | Corrected filter: every derived deadline due today is listed, and its notification is raised. |
| `Deadlines.TodaysDeadlineKept` | src/hooks/useDeadlines.ts:88-99 | Corrected filter: in the same scenario, the registers deadline is kept and its notification is raised. |
| `Deadlines.DeadlinesHook.constructor` | src/hooks/useDeadlines.ts:7 | The hook starts with no deadlines. |
| `Deadlines.DeadlinesHook.OnEventsChanged` | src/hooks/useDeadlines.ts:79-101 | The effect stores the upcoming list (empty for no events) and raises the same-day notifications for it. |
| `Dashboard.PresentTags` | src/pages/Index.tsx:19-23 | At most as many tags are found as were looked for. |
| `Dashboard.PresentTagsSpec` | src/pages/Index.tsx:19-23 | A tag is found exactly when it is one of the tags looked for and `completed_tasks` includes it. |
| `Dashboard.GetEventProgress` | src/pages/Index.tsx:16-25 | The five checks give the progress: 20 points per recognised tag present. |
| `Dashboard.ProgressRange` | src/pages/Index.tsx:16-25 | Progress is one of 0, 20, 40, 60, 80 and 100. |
| `Dashboard.ProgressExtremes` | src/pages/Index.tsx:16-25 | All five tags give 100, and no task list gives 0. |
| `Dashboard.ProgressMonotone` | src/pages/Index.tsx:16-25 | Completing more tasks never lowers the progress. |
| `Dashboard.ProgressIgnores` | src/pages/Index.tsx:16-25 | A tag outside the five, or one already present, leaves the progress unchanged. |
| `Dashboard.ModelloLDoesNotCount` | src/pages/Index.tsx:17-23 | The sixth deadline's tag, `modello_l_generato`, does not move the progress. |
| `Dashboard.ActiveEventsSpec` | src/pages/Index.tsx:49 | An event is active exactly when it is listed and not archived, and the input order is kept. |
| `Dashboard.ActiveEventsNoArchived` | src/pages/Index.tsx:49 | Without archived events, the list is shown whole. |
| `Dashboard.ShownAreEarliest` | src/pages/Index.tsx:88 | The panel shows a prefix of the upcoming list: six deadlines, or all of them when there are fewer. Each shown deadline is due no later than any deadline left out. |
| `Dashboard.MarkAsCompletedSpec` | src/pages/Index.tsx:31-42 | An unknown event gives nothing. A known event gives the task list of the first event with that id, with the new tag appended, and nothing is stored. |
| `Dashboard.ButtonTagNeverChecked` | src/pages/Index.tsx:106 | The tag the button passes is none of the tags the deadline engine checks. |
| `Dashboard.MarkingChangesNoDeadline` | src/pages/Index.tsx:106 | Even if saved, the button's tag would leave every deadline of the event unchanged. |
| `Dashboard.IntendedMarkingCompletes` | src/pages/Index.tsx:106 | With the deadline's own tag, saving would complete the marked deadline and leave the others unchanged. |
| `DepartmentAttendees.CatalogDistinct` | src/hooks/useDepartmentAttendees.ts:6-17 | The catalogue lists ten distinct departments. |
| `DepartmentAttendees.Expected` | src/hooks/useDepartmentAttendees.ts:24-31 | The sum of the four role counts is non-negative when they are, and zero when they all are. |
| `DepartmentAttendees.InitRoster` | src/hooks/useDepartmentAttendees.ts:35-50 | The initial roster has one zero row per catalogue department, in catalogue order, owned by the event and the user. |
| `DepartmentAttendees.Normalize` | src/hooks/useDepartmentAttendees.ts:78 | A normalised row takes the event and the user, gets its `expected` recomputed, and keeps its other columns. |
| `DepartmentAttendees.NormalizeIdempotent` | src/hooks/useDepartmentAttendees.ts:114-119 | Normalising twice gives the same row as normalising once. |
| `DepartmentAttendees.LastNamedSpec` | src/hooks/useDepartmentAttendees.ts:74-76 | A lookup by name in the `Map` built from the rows finds nothing exactly when no row has the name. Otherwise it finds the last row that has it. |
| `DepartmentAttendees.LastNamedUnique` | src/hooks/useDepartmentAttendees.ts:74-76 | When one row carries the name, the lookup finds that row. |
| `DepartmentAttendees.MergeRoster` | src/hooks/useDepartmentAttendees.ts:75-87 | The merged roster has one entry per catalogue department, each taken from the lookup or zeroed. |
| `DepartmentAttendees.MergeRosterSpec` | src/hooks/useDepartmentAttendees.ts:73-88 | The merged roster lists the catalogue in order, owned by the event and the user, with consistent `expected` figures. A department takes its last stored row, normalised, or zeros when there is none. |
| `DepartmentAttendees.MergeForeign` | src/hooks/useDepartmentAttendees.ts:73-91 | Rows naming no catalogue department give the zero roster, the same as no rows. |
| `DepartmentAttendees.MergeEmpty` | src/hooks/useDepartmentAttendees.ts:89-91 | Merging no rows gives the initial roster. |
| `DepartmentAttendees.SetField` | src/hooks/useDepartmentAttendees.ts:143 | Only the chosen column changes. |
| `DepartmentAttendees.UpdateRoster` | src/hooks/useDepartmentAttendees.ts:140-150 | An edit keeps the roster's length. |
| `DepartmentAttendees.UpdateRosterSpec` | src/hooks/useDepartmentAttendees.ts:139-151 | Rows of the named department get the field clamped at zero, the other columns kept and `expected` recomputed. Every other row is unchanged. |
| `DepartmentAttendees.UpdateKeepsConsistent` | src/hooks/useDepartmentAttendees.ts:143-145 | Edits keep every `expected` equal to its row's sum. |
| `DepartmentAttendees.UpdateKeepsShape` | src/hooks/useDepartmentAttendees.ts:140-150 | Edits keep the catalogue's departments in order. |
| `DepartmentAttendees.Payload` | src/hooks/useDepartmentAttendees.ts:114-119 | Each row sent to the upsert is its roster row normalised for the event and the user. |
| `DepartmentAttendees.PayloadConsistent` | src/hooks/useDepartmentAttendees.ts:118 | Every payload row has a consistent `expected` figure. |
| `DepartmentAttendees.UpsertAllOverride` | src/hooks/useDepartmentAttendees.ts:121-126 | The upsert overrides the table with the rows' own key-to-row map. |
| `DepartmentAttendees.UpsertAllIdempotent` | src/hooks/useDepartmentAttendees.ts:121-126 | Upserting the same rows twice gives the same table as upserting them once. |
| `DepartmentAttendees.UpsertAllKeyed` | src/hooks/useDepartmentAttendees.ts:124 | The upsert keeps every row stored under its own conflict key. |
| `DepartmentAttendees.UpsertAllOutside` | src/hooks/useDepartmentAttendees.ts:124 | Keys that no row carries keep their stored row, or stay absent. |
| `DepartmentAttendees.UpsertAllStores` | src/hooks/useDepartmentAttendees.ts:121-126 | With distinct keys, every row ends up stored under its key. |
| `DepartmentAttendees.UpsertConsistent` | src/hooks/useDepartmentAttendees.ts:118-126 | Each stored row is either as it was or a consistent row of the upsert. |
| `DepartmentAttendees.StoredPayload` | src/hooks/useDepartmentAttendees.ts:121-130 | After the upsert, the event's and the user's rows, read back in catalogue order, are the payload. |
| `DepartmentAttendees.MergePayload` | src/hooks/useDepartmentAttendees.ts:73-88 | Merging the payload back onto the catalogue gives the payload. |
| `DepartmentAttendees.SaveRoundTrip` | src/hooks/useDepartmentAttendees.ts:104-137 | Saving a catalogue-shaped roster and reading it back gives the roster as saved. |
| `DepartmentAttendees.DepartmentAttendeesHook.constructor` | src/hooks/useDepartmentAttendees.ts:20-22 | The hook starts with no rows, not loading and not loaded. |
| `DepartmentAttendees.DepartmentAttendeesHook.InitializeAttendees` | src/hooks/useDepartmentAttendees.ts:33-52 | Without an event, nothing happens. Otherwise the roster becomes the zero roster. |
| `DepartmentAttendees.DepartmentAttendeesHook.Fetch` | src/hooks/useDepartmentAttendees.ts:54-102 | Without an event, nothing happens. Nobody signed in clears the roster. A successful select gives the merged roster, and an empty or irrelevant result gives the zero roster. A failure shows the error toast, then falls back to the zero roster for the user found by the second lookup. Loading ends false in every case. |
| `DepartmentAttendees.DepartmentAttendeesHook.Save` | src/hooks/useDepartmentAttendees.ts:104-137 | With no event or an empty roster, nothing happens. Nobody signed in, or a failure, gives an error toast and changes nothing. A success upserts the payload, shows the success toast and reads the roster back, which for a catalogue-shaped roster is the saved payload. |
| `DepartmentAttendees.DepartmentAttendeesHook.UpdateAttendeeField` | src/hooks/useDepartmentAttendees.ts:139-151 | The roster becomes the edited roster, and nothing else changes. |
| `DepartmentAttendees.DepartmentAttendeesHook.OnChange` | src/hooks/useDepartmentAttendees.ts:154-161 | Without an event, the roster is cleared and marked not loaded. With an event, data already loaded is left alone; otherwise a fetch runs. |
| `EventDetail.DigitValue` | src/pages/EventDetailPage.tsx:43 | A decimal digit denotes a value below ten. |
| `EventDetail.LeadingNumber` | src/pages/EventDetailPage.tsx:43 | There is no number exactly when the text does not start with a digit. |
| `EventDetail.ToDecimal` | src/pages/EventDetailPage.tsx:43 | The decimal spelling of a number is a non-empty run of digits. |
| `EventDetail.DecimalOfToDecimal` | src/pages/EventDetailPage.tsx:43 | The digits of a number's spelling denote the number. |
| `EventDetail.ParseIntOfDecimal` | src/pages/EventDetailPage.tsx:43 | `parseInt` reads back a number's decimal spelling and ignores any non-digit that follows. |
| `EventDetail.ParseIntOfNegative` | src/pages/EventDetailPage.tsx:43 | The same holds after a minus sign, giving the negated number. |
| `EventDetail.ParseIntNoDigits` | src/pages/EventDetailPage.tsx:43-44 | Text without a digit gives no number. |
| `EventDetail.AttendeeChange` | src/pages/EventDetailPage.tsx:42-49 | A parsed number is forwarded, the empty field forwards zero, and any other text forwards nothing. |
| `EventDetail.HandleAttendeeChange` | src/pages/EventDetailPage.tsx:42-49 | The handler applies exactly that change to the hook's roster and touches nothing else. |
| `EventDetail.TypedNumberStored` | src/pages/EventDetailPage.tsx:42-49 | Typing a number's spelling stores that number in the department's row. |
| `EventDetail.NegativeInputStoresZero` | src/pages/EventDetailPage.tsx:43-45 | A negative entry is parsed, then clamped to zero. |
| `EventDetail.EmptyInputStoresZero` | src/pages/EventDetailPage.tsx:46-47 | Emptying a field stores zero. |
| `EventDetail.TextInputIgnored` | src/pages/EventDetailPage.tsx:44-48 | Non-empty text without a digit leaves the roster unchanged. |
| `EventDetail.Absent` | src/pages/EventDetailPage.tsx:56 | The absent figure is expected minus actual, floored at zero. |
| `EventDetail.WithAbsent` | src/pages/EventDetailPage.tsx:53-58 | Each displayed row is its roster row together with its absent figure, in roster order. |
| `EventDetail.ComputeTotals` | src/pages/EventDetailPage.tsx:60-74 | The reduce gives the column sums over every row, and zeros for no rows. |
| `EventDetail.AbsentTotalBounds` | src/pages/EventDetailPage.tsx:60-74 | The absent total is never negative, and never below the expected total minus the actual total. |
| `EventDetail.ExpectedTotalIsSum` | src/pages/EventDetailPage.tsx:60-74 | With consistent rows, the expected total is the sum of the four role totals. |
| `EventDetail.EventDetailState.constructor` | src/pages/EventDetailPage.tsx:21 | The page starts with no event. |
| `EventDetail.EventDetailState.OnEventsChanged` | src/pages/EventDetailPage.tsx:31-40 | With a route id and a non-empty list, the shown event is the one found, and an error toast is shown exactly when none is found. Otherwise nothing changes. |
| `Events.QueryMultiset` | src/hooks/useEvents.ts:22-26 | The fetched list holds the user's rows, each as often as it is stored. |
| `Events.QueryMembership` | src/hooks/useEvents.ts:22-26 | A row is fetched exactly when it is stored and belongs to the user. |
| `Events.QueryOrder` | src/hooks/useEvents.ts:26 | No row with a start date comes after a later-starting row, or after a row without a start date. |
| `Events.NewRow` | src/hooks/useEvents.ts:53-59 | The inserted row carries the form data and the user, and its status is `in_preparazione`. |
| `Events.SetStatus` | src/hooks/useEvents.ts:79-84 | The update changes the status of the rows with the id and leaves the others as they were. |
| `Events.SetStatusSpec` | src/hooks/useEvents.ts:79-84 | Only the status of the matching row changes, so ids stay unique. |
| `Events.FindEventSetStatus` | src/hooks/useEvents.ts:79-89 | After the update, looking the id up finds the updated row. |
| `Events.EventsHook.constructor` | src/hooks/useEvents.ts:7-8 | The hook starts with no events and not loading. |
| `Events.EventsHook.FetchEvents` | src/hooks/useEvents.ts:10-42 | Nobody signed in clears the list. A success stores the ordered select. A failure clears the list and shows the error toast. Loading ends false. |
| `Events.EventsHook.AddEvent` | src/hooks/useEvents.ts:44-74 | Nobody signed in, or a failure, gives an error toast, no result and an unchanged table. A success appends the new row, refetches and returns the row. |
| `Events.EventsHook.UpdateEventStatus` | src/hooks/useEvents.ts:76-96 | A failure, or an id matching no row, gives an error toast and changes nothing. A success updates the row's status, refetches and returns the updated row. |
| `Events.EventsHook.OnAuthStateChange` | src/hooks/useEvents.ts:101-111 | A sign-in or initial session with a session fetches: the user's events are loaded, or the list is cleared, with the load-error toast exactly when `getUser` or the select fails. One without a session clears the list, a sign-out clears it, and any other event changes nothing. |
| `Events.EventsHook.InitialCheck` | src/hooks/useEvents.ts:114-121 | An existing session fetches: the user's events are loaded, or the list is cleared, with the load-error toast exactly when `getUser` or the select fails. No session clears the list with no toast. |
| `NewEvent.WithFormField` | src/pages/NewEvent.tsx:27-30 | Only the named field takes the typed value. |
| `NewEvent.ValidateSpec` | src/pages/NewEvent.tsx:33-40 | An empty title is reported first. Otherwise an incomplete range is reported. The form passes exactly when the title is non-empty and both ends of the range are set. |
| `NewEvent.BlankTitlePasses` | src/pages/NewEvent.tsx:33 | A title of blanks only passes the check. |
| `NewEvent.ParseListClean` | src/pages/NewEvent.tsx:48-49 | No list element is empty, contains the separator, or starts or ends with white space. |
| `NewEvent.TrimKeepsChars` | src/pages/NewEvent.tsx:48-49 | Every character of a trimmed name comes from the input. |
| `NewEvent.ParseListAround` | src/pages/NewEvent.tsx:48-49 | The list keeps the input order: the names before a separator come first. |
| `NewEvent.ParseListJoin` | src/pages/NewEvent.tsx:48-49 | Clean names joined by the separator are parsed back into the same list. |
| `NewEvent.ParseListEmpty` | src/pages/NewEvent.tsx:48-49 | An empty field gives an empty list. |
| `NewEvent.SubmittedData` | src/pages/NewEvent.tsx:42-50 | The submitted data carries the form's text fields, both ends of the range, and the parsed teacher and student lists. |
| `NewEvent.NewEventPage.constructor` | src/pages/NewEvent.tsx:18-25 | The form starts with empty fields and no range. |
| `NewEvent.NewEventPage.HandleInputChange` | src/pages/NewEvent.tsx:27-30 | Only the named field changes. |
| `NewEvent.NewEventPage.HandleSubmit` | src/pages/NewEvent.tsx:32-56 | A failed check shows its error and touches nothing. Otherwise the built data goes to `addEvent`, and the page navigates exactly when the insert succeeds. Then the new row is appended, the user's events are refetched and the creation toast is shown. Without a user the page shows the not-signed-in error, and on a failure the save error, with the table unchanged. Loading ends false. |
| `CalendarPage.MonthlyEventsSpec` | src/pages/CalendarPage.tsx:21-32 | The month's list holds the events starting in the displayed year and month, with multiplicity and in non-decreasing start order. Ties keep their input order. |
| `CalendarPage.MonthlyEventsEmpty` | src/pages/CalendarPage.tsx:22 | No events give an empty list. |
| `CalendarPage.EventStartDates` | src/pages/CalendarPage.tsx:35-38 | There is one start date per event, in event order. |
| `CalendarPage.CalendarState.constructor` | src/pages/CalendarPage.tsx:16 | The page starts on the normalised current month. |
| `CalendarPage.CalendarState.HandleMonthChange` | src/pages/CalendarPage.tsx:41-43 | The chosen month is stored as its first instant, in the same year and month, and no later than the chosen instant. |

## Findings

| source | as written | input that shows it | evidently intended | confidence | as-written member | corrected member |
|---|---|---|---|---|---|---|
| src/hooks/useDeadlines.ts:89 | The filter keeps a deadline only if its instant is not before the current instant. A deadline dated earlier today, at midnight say, is therefore dropped, and the same-day notification of lines 95-99 never fires for it. | An event starting at midnight of today, looked at after midnight: its registers deadline is due today but is neither listed nor notified. | Compare by calendar day, as the comment on line 89 ("future or today's") says, so that today's deadlines stay listed and are notified. | medium; not executed | `Deadlines.TodaysDeadlineDropped` | `Deadlines.IntendedNotificationCount` |
| src/pages/Index.tsx:106 | The button marks a deadline with its kind followed by `_fatta`, e.g. `docente_fatta`. The deadline engine (src/hooks/useDeadlines.ts:21-71) checks other tags, e.g. `richiesta_docenti_fatta`. | Any deadline, e.g. kind `docente`: its tag `docente_fatta` is never checked, so even a saved update would leave it not done. | Pass the tag the deadline engine checks for that kind. | medium; not executed (the update is still only simulated) | `Dashboard.MarkingChangesNoDeadline` | `Dashboard.IntendedMarkingCompletes` |

## Left out

- Time zones and daylight saving: an instant is a count of milliseconds of local wall-clock time, so every day lasts exactly 24 hours.
- ISO-8601 text: parsing `start_date` with `parseISO` and producing text with `toISOString` are not modelled. A start date is an optional instant; a missing or empty text is `None`.
- Floating point: the progress is computed in integers (`completed * 20`), which equals `completed / 5 * 100` for 0 to 5 tasks.
- `parseInt` reads ASCII digits only and works on unbounded integers. It leaves out the loss of precision above 2^53.
- Null columns: the `|| 0` fallbacks for missing counts are not modelled; every numeric column holds an integer.
- The attendee row's `id` column is generated by the backend and is not modelled.
- Asynchrony: the interleaving of awaits, React's batching of state updates and effect timing are not modelled. Each method runs to completion. The refetch after a save, an insert or an update reads the model's own table, with the same user and no failure.
- `getDaysRemaining` and all rendering (cards, colour classes, loading and not-found screens, navigation buttons) are left out as display logic.
- Toasts are returned as lists of values instead of being displayed; console logging is left out.
- `Events.Query`: ties among equal start dates keep insertion order. The backend does not promise any order for ties.
- Duplicate keys within one upsert payload are not considered: the payload of a catalogue-shaped roster has distinct keys.
- Rows of departments outside the catalogue: the read-back in `StoreRows` skips them. The merge drops them in any case, so the resulting roster is the same.
- The text of the error for an update that matches no row is taken to be PostgREST's `.single()` message.
- Inserted events have no `completed_tasks` (`None`); the description and location are stored as given.
- The calendar's `selectedDate` state takes no part in any computation and is left out.
- The cleanup of the authentication subscription, and the backend's row-level security, are not modelled.
- `DepartmentAttendees.DepartmentAttendeesHook.OnChange` is stated only for the successful and the no-user fetch. The failure cases are those of `Fetch`.
