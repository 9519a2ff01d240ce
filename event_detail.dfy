/**
 * The event detail page: the lookup of the displayed event by its route id,
 * the text-field handler that turns what the user typed into a headcount,
 * and the roster table with its derived `absent` column and column totals.
 */
module EventDetail {
  import opened Types
  import opened DepartmentAttendees
  import opened Text

  // ---------------------------------------------------------------------
  // parseInt(value, 10): leading white space, an optional sign, ASCII digits
  // ---------------------------------------------------------------------

  predicate IsDigit(c: char)
  {
    '0' <= c <= '9'
  }

  function DigitValue(c: char): (r: nat)
    requires IsDigit(c)
    ensures r < 10
  {
    (c as int) - ('0' as int)
  }

  function DigitChar(d: nat): (c: char)
    requires d < 10
    ensures IsDigit(c) && DigitValue(c) == d
  {
    (('0' as int) + d) as char
  }

  /** The longest prefix of decimal digits. */
  function DigitPrefix(s: string): (r: string)
    ensures |r| <= |s| && r == s[..|r|]
    ensures forall i :: 0 <= i < |r| ==> IsDigit(r[i])
    ensures |r| < |s| ==> !IsDigit(s[|r|])
    decreases |s|
  {
    if s != [] && IsDigit(s[0]) then [s[0]] + DigitPrefix(s[1..]) else []
  }

  /** The number a string of decimal digits denotes. */
  function DecimalValue(ds: string): (r: nat)
    requires forall i :: 0 <= i < |ds| ==> IsDigit(ds[i])
    decreases |ds|
  {
    if ds == [] then 0
    else 10 * DecimalValue(ds[..|ds| - 1]) + DigitValue(ds[|ds| - 1])
  }

  /** The number the leading run of digits denotes, or `None` when there is no digit. */
  function LeadingNumber(body: string): (r: Option<nat>)
    ensures r.None? <==> body == [] || !IsDigit(body[0])
  {
    var ds := DigitPrefix(body);
    if ds == [] then None else Some(DecimalValue(ds))
  }

  /**
   * `parseInt(s, 10)`: leading white space skipped, an optional sign, then
   * the longest run of digits; `None` stands for `NaN`, the answer when
   * there is no digit.
   */
  function ParseInt(s: string): Option<int>
  {
    var t := TrimStart(s);
    var negative := t != [] && t[0] == '-';
    var body := if t != [] && (t[0] == '-' || t[0] == '+') then t[1..] else t;
    match LeadingNumber(body)
    case None => None
    case Some(v) => Some(if negative then -(v as int) else v)
  }

  /** The decimal spelling of a natural number, without leading zeros. */
  function ToDecimal(n: nat): (r: string)
    ensures r != []
    ensures forall i :: 0 <= i < |r| ==> IsDigit(r[i])
    decreases n
  {
    if n < 10 then [DigitChar(n)] else ToDecimal(n / 10) + [DigitChar(n % 10)]
  }

  lemma {:induction false} DecimalOfToDecimal(n: nat)
    ensures DecimalValue(ToDecimal(n)) == n
    decreases n
  {
    if n >= 10 {
      DecimalOfToDecimal(n / 10);
      var r := ToDecimal(n);
      assert r[..|r| - 1] == ToDecimal(n / 10);
    }
  }

  /** A run of digits followed by nothing, or by a non-digit, is read whole. */
  lemma {:induction false} DigitPrefixOfDigits(ds: string, rest: string)
    requires forall i :: 0 <= i < |ds| ==> IsDigit(ds[i])
    requires rest == [] || !IsDigit(rest[0])
    ensures DigitPrefix(ds + rest) == ds
    decreases |ds|
  {
    if ds != [] {
      assert (ds + rest)[1..] == ds[1..] + rest;
      DigitPrefixOfDigits(ds[1..], rest);
    } else {
      assert ds + rest == rest;
    }
  }

  /** The decimal spelling of a number, followed by a non-digit or nothing, reads back as the number. */
  lemma LeadingNumberOfDecimal(n: nat, rest: string)
    requires rest == [] || !IsDigit(rest[0])
    ensures LeadingNumber(ToDecimal(n) + rest) == Some(n)
  {
    DecimalOfToDecimal(n);
    DigitPrefixOfDigits(ToDecimal(n), rest);
  }

  /** A number read from the start of the input, with no white space or sign before it. */
  lemma ParseIntUnsigned(body: string, v: nat)
    requires LeadingNumber(body) == Some(v)
    ensures ParseInt(body) == Some(v)
  {
    TrimStartNoop(body);
  }

  /** A number read after a minus sign is negated. */
  lemma ParseIntMinus(body: string, v: nat)
    requires LeadingNumber(body) == Some(v)
    ensures ParseInt("-" + body) == Some(-(v as int))
  {
    var m := "-" + body;
    TrimStartNoop(m);
    assert m[1..] == body;
  }

  /**
   * `parseInt` reads back what the decimal spelling of a number writes, and
   * ignores whatever non-digit follows.
   */
  lemma ParseIntOfDecimal(n: nat, rest: string)
    requires rest == [] || !IsDigit(rest[0])
    ensures ParseInt(ToDecimal(n) + rest) == Some(n)
  {
    LeadingNumberOfDecimal(n, rest);
    ParseIntUnsigned(ToDecimal(n) + rest, n);
  }

  /** The same with a minus sign in front. */
  lemma ParseIntOfNegative(n: nat, rest: string)
    requires rest == [] || !IsDigit(rest[0])
    ensures ParseInt("-" + (ToDecimal(n) + rest)) == Some(-(n as int))
  {
    LeadingNumberOfDecimal(n, rest);
    ParseIntMinus(ToDecimal(n) + rest, n);
  }

  /** Without a digit after the white space and the sign there is no number. */
  lemma ParseIntNoDigits(s: string)
    requires forall i :: 0 <= i < |s| ==> !IsDigit(s[i])
    ensures ParseInt(s) == None
  {
    var t := TrimStart(s);
    assert t == s[|s| - |t|..];
    if |t| >= 2 {
      assert t[1] == s[|s| - |t| + 1] && !IsDigit(t[1]);
    }
    if t != [] {
      assert t[0] == s[|s| - |t|] && !IsDigit(t[0]);
    }
  }

  // ---------------------------------------------------------------------
  // handleAttendeeChange
  // ---------------------------------------------------------------------

  /** What a keystroke in a count field asks of the roster. */
  datatype Change = SetTo(value: int) | NoChange

  /** A number forwards itself, the empty field forwards zero, anything else nothing. */
  function AttendeeChange(value: string): (r: Change)
    ensures ParseInt(value).Some? ==> r == SetTo(ParseInt(value).value)
    ensures value == "" ==> r == SetTo(0)
    ensures r == NoChange <==> ParseInt(value).None? && value != ""
  {
    match ParseInt(value)
    case Some(n) => SetTo(n)
    case None => if value == "" then SetTo(0) else NoChange
  }

  /** The roster after the handler ran on `value`. */
  function ApplyChange(roster: seq<DepartmentAttendee>, name: string, f: Field, value: string): seq<DepartmentAttendee>
  {
    match AttendeeChange(value)
    case SetTo(n) => UpdateRoster(roster, name, f, n)
    case NoChange => roster
  }

  /** `handleAttendeeChange`: parse, then hand the number to the hook's updater. */
  method HandleAttendeeChange(hook: DepartmentAttendeesHook, departmentName: string, field: Field, value: string)
    modifies hook
    ensures hook.attendees == ApplyChange(old(hook.attendees), departmentName, field, value)
    ensures hook.store == old(hook.store) && hook.loading == old(hook.loading)
    ensures hook.initialDataLoaded == old(hook.initialDataLoaded)
  {
    var numericValue := ParseInt(value);
    if numericValue.Some? {
      hook.UpdateAttendeeField(departmentName, field, numericValue.value);
    } else if value == "" {
      hook.UpdateAttendeeField(departmentName, field, 0);
    }
  }

  /** Typing a number's decimal spelling stores that number in every row of the department. */
  lemma TypedNumberStored(roster: seq<DepartmentAttendee>, name: string, f: Field, n: nat, i: int)
    requires 0 <= i < |roster| && roster[i].departmentName == name
    ensures GetField(ApplyChange(roster, name, f, ToDecimal(n))[i], f) == n
  {
    ParseIntOfDecimal(n, "");
    assert ToDecimal(n) + "" == ToDecimal(n);
    UpdateRosterSpec(roster, name, f, n, i);
  }

  /** A negative entry such as "-5" is parsed, then clamped: the field stores zero. */
  lemma NegativeInputStoresZero(roster: seq<DepartmentAttendee>, name: string, f: Field, n: nat, i: int)
    requires 0 <= i < |roster| && roster[i].departmentName == name
    ensures GetField(ApplyChange(roster, name, f, "-" + ToDecimal(n))[i], f) == 0
  {
    assert ParseInt("-" + ToDecimal(n)) == Some(-(n as int)) by {
      ParseIntOfNegative(n, "");
      assert ToDecimal(n) + "" == ToDecimal(n);
    }
    UpdateRosterSpec(roster, name, f, -(n as int), i);
  }

  /** Emptying a field stores zero. */
  lemma EmptyInputStoresZero(roster: seq<DepartmentAttendee>, name: string, f: Field, i: int)
    requires 0 <= i < |roster| && roster[i].departmentName == name
    ensures GetField(ApplyChange(roster, name, f, "")[i], f) == 0
  {
    UpdateRosterSpec(roster, name, f, 0, i);
  }

  /** Text with no digit in it, other than the empty string, leaves the roster alone. */
  lemma TextInputIgnored(roster: seq<DepartmentAttendee>, name: string, f: Field, value: string)
    requires value != "" && forall i :: 0 <= i < |value| ==> !IsDigit(value[i])
    ensures ApplyChange(roster, name, f, value) == roster
  {
    ParseIntNoDigits(value);
  }

  // ---------------------------------------------------------------------
  // The roster table: absent column and totals
  // ---------------------------------------------------------------------

  /** A roster row as displayed, with its derived `absent` figure. */
  datatype AttendeeView = AttendeeView(row: DepartmentAttendee, absent: int)

  function Absent(a: DepartmentAttendee): (r: int)
    ensures r >= 0 && r >= a.expected - a.actual
    ensures a.actual >= a.expected ==> r == 0
    ensures a.actual <= a.expected ==> r == a.expected - a.actual
  {
    Max0(a.expected - a.actual)
  }

  /** `attendeesWithCalculatedAbsent`. */
  function WithAbsent(roster: seq<DepartmentAttendee>): (r: seq<AttendeeView>)
    ensures |r| == |roster|
    ensures forall i :: 0 <= i < |r| ==> r[i].row == roster[i] && r[i].absent == Absent(roster[i])
  {
    seq(|roster|, i requires 0 <= i < |roster| => AttendeeView(roster[i], Absent(roster[i])))
  }

  /** The seven summed columns of the table footer. */
  datatype Column = Officers | Inspectors | Superintendents | Militari | Expected | Actual | Absent

  function ColumnOf(v: AttendeeView, c: Column): int
  {
    match c
    case Officers() => v.row.officers
    case Inspectors() => v.row.inspectors
    case Superintendents() => v.row.superintendents
    case Militari() => v.row.militari
    case Expected() => v.row.expected
    case Actual() => v.row.actual
    case Absent() => v.absent
  }

  /** The sum of one column over the rows. */
  function ColumnSum(view: seq<AttendeeView>, c: Column): int
    decreases |view|
  {
    if view == [] then 0 else ColumnSum(view[..|view| - 1], c) + ColumnOf(view[|view| - 1], c)
  }

  datatype Totals = Totals(
    officers: int, inspectors: int, superintendents: int, militari: int,
    expected: int, actual: int, absent: int)

  /** The footer the reduce produces: every column summed over every row. */
  function TotalsOf(view: seq<AttendeeView>): Totals
  {
    Totals(ColumnSum(view, Column.Officers), ColumnSum(view, Column.Inspectors), ColumnSum(view, Column.Superintendents),
           ColumnSum(view, Column.Militari), ColumnSum(view, Column.Expected), ColumnSum(view, Column.Actual),
           ColumnSum(view, Column.Absent))
  }

  /** `totals`: a reduce adding each row into the accumulator field by field. */
  method ComputeTotals(view: seq<AttendeeView>) returns (acc: Totals)
    ensures acc == TotalsOf(view)
    ensures view == [] ==> acc == Totals(0, 0, 0, 0, 0, 0, 0)
  {
    acc := Totals(0, 0, 0, 0, 0, 0, 0);
    for i := 0 to |view|
      invariant acc == TotalsOf(view[..i])
    {
      var curr := view[i];
      assert view[..i + 1][..i] == view[..i];
      acc := acc.(officers := acc.officers + curr.row.officers);
      acc := acc.(inspectors := acc.inspectors + curr.row.inspectors);
      acc := acc.(superintendents := acc.superintendents + curr.row.superintendents);
      acc := acc.(militari := acc.militari + curr.row.militari);
      acc := acc.(expected := acc.expected + curr.row.expected);
      acc := acc.(actual := acc.actual + curr.row.actual);
      acc := acc.(absent := acc.absent + curr.absent);
    }
    assert view[..|view|] == view;
  }

  /** The total absent figure is never negative and never below expected minus actual. */
  lemma {:induction false} AbsentTotalBounds(roster: seq<DepartmentAttendee>)
    ensures ColumnSum(WithAbsent(roster), Column.Absent) >= 0
    ensures ColumnSum(WithAbsent(roster), Column.Absent)
         >= ColumnSum(WithAbsent(roster), Column.Expected) - ColumnSum(WithAbsent(roster), Column.Actual)
    decreases |roster|
  {
    if roster != [] {
      var n := |roster| - 1;
      AbsentTotalBounds(roster[..n]);
      assert WithAbsent(roster)[..n] == WithAbsent(roster[..n]);
    }
  }

  /** With consistent rows, the expected total is the sum of the four role totals. */
  lemma {:induction false} ExpectedTotalIsSum(roster: seq<DepartmentAttendee>)
    requires AllConsistent(roster)
    ensures var v := WithAbsent(roster);
            (ColumnSum(v, Column.Expected)
             == ColumnSum(v, Column.Officers) + ColumnSum(v, Column.Inspectors)
                + ColumnSum(v, Column.Superintendents) + ColumnSum(v, Column.Militari))
    decreases |roster|
  {
    if roster != [] {
      var n := |roster| - 1;
      assert Consistent(roster[n]);
      ExpectedTotalIsSum(roster[..n]);
      assert WithAbsent(roster)[..n] == WithAbsent(roster[..n]);
    }
  }

  // ---------------------------------------------------------------------
  // The displayed event
  // ---------------------------------------------------------------------

  const NotFoundMessage: string := "Evento non trovato."

  /** The page's `event` state. */
  class EventDetailState {
    var event: Option<Event>

    constructor ()
      ensures event == None
    {
      event := None;
    }

    /**
     * The effect on `[eventId, events]`: once there is a route id and a
     * non-empty list, the event shown is the one found, with an error toast
     * when there is none.
     */
    method OnEventsChanged(eventId: string, events: seq<Event>) returns (toasts: seq<Toast>)
      modifies this
      ensures eventId != "" && |events| > 0 ==> event == FindEvent(events, eventId)
      ensures eventId != "" && |events| > 0 ==> (toasts == [] <==> FindEvent(events, eventId).Some?)
      ensures eventId != "" && |events| > 0 && FindEvent(events, eventId).None? ==> toasts == [Error(NotFoundMessage)]
      ensures eventId == "" || |events| == 0 ==> event == old(event) && toasts == []
    {
      toasts := [];
      if eventId != "" && |events| > 0 {
        var currentEvent := FindEvent(events, eventId);
        event := currentEvent;
        if currentEvent.None? {
          toasts := [Error(NotFoundMessage)];
        }
      }
    }
  }
}
