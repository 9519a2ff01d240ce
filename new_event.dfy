/**
 * The new-event form: its five text fields, the date range picked in the
 * calendar, the checks run on submit, and the parsing of the teacher list
 * (comma separated) and the student list (one per line).
 */
module NewEvent {
  import opened Types
  import opened Seqs
  import opened Text
  import opened Events

  /** The form's text fields, as typed. */
  datatype FormData = FormData(
    title: string,
    description: string,
    location: string,
    teachersRaw: string,
    studentsRaw: string)

  /** The `name` attributes of the form's inputs. */
  datatype FormField = Title | Description | Location | TeachersRaw | StudentsRaw

  function GetFormField(form: FormData, name: FormField): string
  {
    match name
    case Title => form.title
    case Description => form.description
    case Location => form.location
    case TeachersRaw => form.teachersRaw
    case StudentsRaw => form.studentsRaw
  }

  /** The form with the named field replaced by the typed value. */
  function WithFormField(form: FormData, name: FormField, value: string): (r: FormData)
    ensures GetFormField(r, name) == value
    ensures forall other :: other != name ==> GetFormField(r, other) == GetFormField(form, other)
  {
    match name
    case Title => form.(title := value)
    case Description => form.(description := value)
    case Location => form.(location := value)
    case TeachersRaw => form.(teachersRaw := value)
    case StudentsRaw => form.(studentsRaw := value)
  }

  /** The range picked in the calendar; either end may still be missing. */
  datatype DateRange = DateRange(from: Option<Instant>, to: Option<Instant>)

  const TitleMessage: string := "Il titolo del corso è obbligatorio."
  const RangeMessage: string := "Seleziona un intervallo di date valido."

  predicate RangeComplete(range: Option<DateRange>)
  {
    range.Some? && range.value.from.Some? && range.value.to.Some?
  }

  /** The error `handleSubmit` reports, or `None` when the form may be submitted. */
  function Validate(form: FormData, range: Option<DateRange>): Option<string>
  {
    if form.title == "" then Some(TitleMessage)
    else if !RangeComplete(range) then Some(RangeMessage)
    else None
  }

  /**
   * The title is checked first: an empty title is reported whatever the
   * range; a non-empty one, even of blanks only, passes, and then only a
   * missing end of the range is reported.
   */
  lemma ValidateSpec(form: FormData, range: Option<DateRange>)
    ensures form.title == "" ==> Validate(form, range) == Some(TitleMessage)
    ensures form.title != "" ==> (Validate(form, range) == Some(RangeMessage) <==> !RangeComplete(range))
    ensures Validate(form, range) == None <==> form.title != "" && RangeComplete(range)
  {
  }

  lemma BlankTitlePasses(form: FormData, from: Instant, to: Instant)
    requires form.title == "   "
    ensures Validate(form, Some(DateRange(Some(from), Some(to)))) == None
  {
  }

  predicate NonEmpty(s: string)
  {
    s != []
  }

  /** Every piece trimmed, in order. */
  function TrimAll(pieces: seq<string>): seq<string>
  {
    Map(pieces, Trim)
  }

  /** The pieces between separators, each trimmed, the empty ones dropped. */
  function ParseList(raw: string, sep: char): seq<string>
  {
    Filter(TrimAll(Split(raw, sep)), NonEmpty)
  }

  /** Every character of the trimmed string comes from the input. */
  lemma TrimKeepsChars(s: string, c: char)
    requires c in Trim(s)
    ensures c in s
  {
    TrimSpec(s);
    var i, r := TrimOffset(s), Trim(s);
    var k :| 0 <= k < |r| && r[k] == c;
    assert s[i + k] == c;
  }

  /** A list element as the parser leaves it: not empty, no separator, no white space at either end. */
  predicate CleanName(x: string, sep: char)
  {
    x != [] && sep !in x && !IsSpace(x[0]) && !IsSpace(x[|x| - 1])
  }

  /** A trimmed piece without the separator is clean unless it is empty. */
  lemma TrimmedPieceClean(piece: string, sep: char)
    requires sep !in piece
    ensures Trim(piece) != [] ==> CleanName(Trim(piece), sep)
  {
    TrimSpec(piece);
    if sep in Trim(piece) {
      TrimKeepsChars(piece, sep);
    }
  }

  /** Every piece of the split, trimmed, is clean unless it is empty. */
  lemma TrimmedPiecesClean(raw: string, sep: char)
    ensures forall y :: y in TrimAll(Split(raw, sep)) ==> y == [] || CleanName(y, sep)
  {
    var pieces := Split(raw, sep);
    var trimmed := TrimAll(pieces);
    forall k | 0 <= k < |trimmed| ensures trimmed[k] == [] || CleanName(trimmed[k], sep) {
      TrimmedPieceClean(pieces[k], sep);
    }
  }

  /** No element of the list is empty, contains the separator, or starts or ends with white space. */
  lemma ParseListClean(raw: string, sep: char, x: string)
    requires x in ParseList(raw, sep)
    ensures CleanName(x, sep)
  {
    FilterMembership(TrimAll(Split(raw, sep)), NonEmpty);
    TrimmedPiecesClean(raw, sep);
  }

  lemma TrimAllAppend(a: seq<string>, b: seq<string>)
    ensures TrimAll(a + b) == TrimAll(a) + TrimAll(b)
  {
    MapAppend(a, b, Trim);
  }

  /**
   * The list keeps the input order: the elements before a separator come
   * first, then those after it.
   */
  lemma ParseListAround(a: string, b: string, sep: char)
    ensures ParseList(a + [sep] + b, sep) == ParseList(a, sep) + ParseList(b, sep)
  {
    SplitAround(a, b, sep);
    TrimAllAppend(Split(a, sep), Split(b, sep));
    FilterAppend(TrimAll(Split(a, sep)), TrimAll(Split(b, sep)), NonEmpty);
  }

  /** Clean names joined by the separator are read back as the same list. */
  lemma ParseListJoin(names: seq<string>, sep: char)
    requires |names| >= 1
    requires forall i :: 0 <= i < |names| ==> CleanName(names[i], sep)
    ensures ParseList(Join(names, sep), sep) == names
  {
    SplitJoin(names, sep);
    TrimAllClean(names, sep);
    FilterAll(names, NonEmpty);
  }

  lemma TrimAllClean(names: seq<string>, sep: char)
    requires forall i :: 0 <= i < |names| ==> CleanName(names[i], sep)
    ensures TrimAll(names) == names
  {
    forall i | 0 <= i < |names| ensures Trim(names[i]) == names[i] {
      TrimNoop(names[i]);
    }
  }

  lemma ParseListEmpty(sep: char)
    ensures ParseList("", sep) == []
  {
    assert Split("", sep) == [""];
    TrimNoop("");
  }

  /** Teachers are separated by commas. */
  function Teachers(form: FormData): seq<string>
  {
    ParseList(form.teachersRaw, ',')
  }

  /** Students are one per line. */
  function Students(form: FormData): seq<string>
  {
    ParseList(form.studentsRaw, '\n')
  }

  /** `newEventData`, built once the checks have passed. */
  function SubmittedData(form: FormData, range: Option<DateRange>): (r: NewEventData)
    requires RangeComplete(range)
    ensures r.title == form.title && r.description == form.description && r.location == form.location
    ensures r.startDate == range.value.from.value && r.endDate == range.value.to.value
    ensures r.teachers == Teachers(form) && r.students == Students(form)
  {
    NewEventData(form.title, form.description, range.value.from.value, range.value.to.value,
                 form.location, Teachers(form), Students(form))
  }

  /** The page's state: the form and the picked range. */
  class NewEventPage {
    var formData: FormData
    var dateRange: Option<DateRange>

    constructor ()
      ensures formData == FormData("", "", "", "", "") && dateRange == None
    {
      formData := FormData("", "", "", "", "");
      dateRange := None;
    }

    /** `handleInputChange`: only the named field takes the new value. */
    method HandleInputChange(name: FormField, value: string)
      modifies this
      ensures formData == WithFormField(old(formData), name, value)
      ensures dateRange == old(dateRange)
    {
      formData := WithFormField(formData, name, value);
    }

    /**
     * `handleSubmit`: the checks, then `addEvent` with the built data; the
     * page navigates to the dashboard exactly when `addEvent` answers an
     * event.
     */
    method HandleSubmit(hook: EventsHook, auth: AuthAnswer, insertError: Option<string>, freshId: string, createdAt: Instant)
      returns (toasts: seq<Toast>, navigated: bool)
      requires hook.Valid()
      requires forall i :: 0 <= i < |hook.rows| ==> hook.rows[i].id != freshId
      modifies hook
      ensures hook.Valid()
      ensures Validate(formData, dateRange).Some? ==>
                toasts == [Error(Validate(formData, dateRange).value)] && !navigated
                && hook.rows == old(hook.rows) && hook.events == old(hook.events) && hook.loading == old(hook.loading)
      ensures Validate(formData, dateRange).None? ==>
                (navigated <==> auth.User? && insertError.None?)
                && (navigated ==> hook.rows == old(hook.rows) + [NewRow(SubmittedData(formData, dateRange), auth.id, freshId, createdAt)])
                && (!navigated ==> hook.rows == old(hook.rows) && hook.events == old(hook.events))
                && (navigated ==> hook.events == Query(hook.rows, auth.id) && toasts == [Success(CreatedMessage)])
                && (auth.NoUser? ==> toasts == [Error(NoUserMessage)])
                && (auth.AuthFailure? || (auth.User? && insertError.Some?) ==>
                      toasts == [Error(SaveErrorPrefix + FailureMessage(auth, insertError))])
                && !hook.loading
    {
      var error := Validate(formData, dateRange);
      if error.Some? {
        toasts := [Error(error.value)];
        navigated := false;
        return;
      }
      var newEventData := SubmittedData(formData, dateRange);
      var result;
      result, toasts := hook.AddEvent(newEventData, auth, insertError, freshId, createdAt);
      navigated := result.Some?;
    }
  }
}
