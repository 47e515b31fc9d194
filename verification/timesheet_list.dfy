/** The timesheet list route: its action (delete or edit a row of the
    timesheets table) and the page logic over the loaded listing (employee
    filter, pagination, calendar events, employee-name options). */
module TimesheetList {
  import opened Optional
  import opened Http
  import opened Text
  import opened Numerals
  import opened Calendar
  import opened Seqs
  import opened Collation
  import opened Paging
  import TimesheetCreate

  /** A stored row of the timesheets table (its id is the table key). */
  datatype Timesheet = Timesheet(employeeId: Option<string>, startTime: string, endTime: string, summary: Option<string>)

  type Table = map<nat, Timesheet>

  const InvalidIntent := "Invalid intent"

  /** The row a submitted `id` addresses: SQLite compares the text with the
      integer key, so only a decimal numeral names a row. */
  function RowKey(id: Option<string>): Option<nat> {
    if id.Some? then ParseDecimal(id.value) else None
  }

  /** `(value as string)?.replace("T", " ") + ":00"`: an absent value
      becomes "undefined:00". */
  function EditedTime(v: Option<string>): string {
    match v
    case None => "undefined:00"
    case Some(s) => TimesheetCreate.FormatDateTime(s)
  }

  /** The row the edit intent writes. */
  function EditedRow(form: FormData): Timesheet {
    Timesheet(Get(form, "employee_id"), EditedTime(Get(form, "start_time")),
              EditedTime(Get(form, "end_time")), Get(form, "summary"))
  }

  datatype Result = Result(response: Response, table: Table)

  /** The action, dispatching on the `intent` field. */
  function Act(table: Table, form: FormData): (r: Result)
    ensures Get(form, "intent") == Some("delete") ==>
              && r.response == Redirect("/timesheets")
              && r.table.Keys == table.Keys - (if RowKey(Get(form, "id")).Some? then {RowKey(Get(form, "id")).value} else {})
              && forall k | k in r.table :: r.table[k] == table[k]
    ensures Get(form, "intent") == Some("edit") ==>
              && r.response == Redirect("/timesheets")
              && r.table.Keys == table.Keys
              && forall k | k in r.table ::
                   r.table[k] == (if Some(k) == RowKey(Get(form, "id")) then EditedRow(form) else table[k])
    ensures Get(form, "intent") != Some("delete") && Get(form, "intent") != Some("edit") ==>
              r == Result(Plain(400, InvalidIntent), table)
  {
    var intent := Get(form, "intent");
    var key := RowKey(Get(form, "id"));
    if intent == Some("delete") then
      Result(Redirect("/timesheets"), if key.Some? then table - {key.value} else table)
    else if intent == Some("edit") then
      Result(Redirect("/timesheets"),
             if key.Some? && key.value in table then table[key.value := EditedRow(form)] else table)
    else
      Result(Plain(400, InvalidIntent), table)
  }

  /** The edit intent stores the row even when its start is not before its
      end: this action performs no time-range check. */
  lemma EditSkipsTimeCheck(table: Table, form: FormData, id: nat)
    requires Get(form, "intent") == Some("edit") && Get(form, "id") == Some(Decimal(id)) && id in table
    ensures Act(table, form).table[id] == EditedRow(form)
  {
    DecimalRoundTrip(id);
  }

  /** Deleting by the id the page renders removes exactly that row. */
  lemma DeleteRemovesRow(table: Table, form: FormData, id: nat)
    requires Get(form, "intent") == Some("delete") && Get(form, "id") == Some(Decimal(id))
    ensures Act(table, form).table == table - {id}
  {
    DecimalRoundTrip(id);
  }

  /** A row of the listing query: a timesheet joined with its employee's name. */
  datatype Listing = Listing(id: nat, employeeId: int, fullName: string,
                             startTime: string, endTime: string, summary: Option<string>)

  /** The employee filter: "" keeps everything, a name keeps that employee's
      timesheets, in their original order. */
  function FilterByEmployee(rows: seq<Listing>, name: string): (r: seq<Listing>)
    ensures name == "" ==> r == rows
    ensures forall k | 0 <= k < |r| :: r[k] in rows && (name == "" || r[k].fullName == name)
    ensures forall k | 0 <= k < |rows| && (name == "" || rows[k].fullName == name) :: rows[k] in r
    ensures IsSubsequence(r, rows)
  {
    Filter(rows, (t: Listing) => if name != "" then t.fullName == name else true)
  }

  /** `timeStr.split(":").slice(0, 2).join(":")`. */
  function FormatTime(s: string): string {
    Join(FirstTwo(Split(s, ':')), ":")
  }

  /** `fields.slice(0, 2)`. */
  function FirstTwo(fields: seq<string>): seq<string> {
    fields[..Min(2, |fields|)]
  }

  /** Text without ':' is displayed unchanged. */
  lemma FormatTimeNoColon(s: string)
    requires ':' !in s
    ensures FormatTime(s) == s
  {
    SplitWithout(s, ':');
  }

  /** Text with exactly one ':' is displayed unchanged. */
  lemma FormatTimeOneColon(s: string, i: int)
    requires 0 <= i < |s| && s[i] == ':' && ':' !in s[..i] && ':' !in s[i + 1..]
    ensures FormatTime(s) == s
  {
    var rest := s[i + 1..];
    SplitAt(s, ':', i);
    SplitWithout(rest, ':');
    assert FirstTwo([s[..i]] + [rest]) == [s[..i], rest];
    JoinCons(s[..i], [rest], ":");
    assert s == s[..i] + [':'] + rest;
  }

  /** Text with two or more ':' is cut just before its second ':'. */
  lemma FormatTimeTwoColons(s: string, i: int, j: int)
    requires 0 <= i < j < |s| && s[i] == ':' && s[j] == ':'
    requires ':' !in s[..i] && ':' !in s[i + 1..j]
    ensures FormatTime(s) == s[..j]
  {
    var first, second, after := s[..i], s[i + 1..j], s[j + 1..];
    assert s == first + [':'] + second + [':'] + after;
    SplitTwoConcat(first, second, ':', after);
    JoinFirstTwo(first, second, Split(after, ':'));
    assert s[..j] == first + [':'] + second;
  }

  lemma JoinFirstTwo(a: string, b: string, tail: seq<string>)
    ensures Join(FirstTwo([a, b] + tail), ":") == a + ":" + b
  {
    assert FirstTwo([a, b] + tail) == [a] + [b];
    JoinCons(a, [b], ":");
  }

  /** Displaying a stored time undoes the storage normalisation: for a
      submitted value with exactly one ':' the display is the value with its
      first 'T' turned into a space. */
  lemma {:induction false} FormatTimeAfterFormatDateTime(dt: string, i: int)
    requires 0 <= i < |dt| && dt[i] == ':' && ':' !in dt[..i] && ':' !in dt[i + 1..]
    ensures FormatTime(TimesheetCreate.FormatDateTime(dt)) == ReplaceFirst(dt, 'T', ' ')
  {
    var r := ReplaceFirst(dt, 'T', ' ');
    var stored := TimesheetCreate.FormatDateTime(dt);
    assert stored == r + ":00";
    assert forall k | 0 <= k < |dt| :: stored[k] == ':' <==> dt[k] == ':';
    assert ':' !in stored[..i] by {
      forall k | 0 <= k < i ensures stored[k] != ':' {
        assert dt[..i][k] == dt[k];
      }
    }
    assert ':' !in stored[i + 1..|dt|] by {
      forall k | i + 1 <= k < |dt| ensures stored[k] != ':' {
        assert dt[i + 1..][k - i - 1] == dt[k];
      }
    }
    FormatTimeTwoColons(stored, i, |dt|);
    assert stored[..|dt|] == r;
  }

  /** A date-time submitted as `YYYY-MM-DDTHH:MM`, stored, then displayed,
      reads `YYYY-MM-DD HH:MM`. */
  lemma StoredTimeDisplaysToTheMinute(t: DateTime)
    requires ValidDateTime(t)
    ensures FormatTime(TimesheetCreate.FormatDateTime(FormatLocal(t)))
              == FormatDate(t.date) + " " + Padded(t.hour, 2) + ":" + Padded(t.minute, 2)
  {
    var s := FormatLocal(t);
    FormatLocalShape(t);
    IndexOfIs(s, 'T', 10);
    FormatTimeAfterFormatDateTime(s, 13);
    assert s[10 := ' '] == FormatDate(t.date) + " " + Padded(t.hour, 2) + ":" + Padded(t.minute, 2);
  }

  /** A calendar event of the calendar view. */
  datatype Event = Event(id: string, title: string, start: string, end: string)

  const NoSummary := "No summary"

  function ToEvent(t: Listing): Event {
    var summary := if t.summary.Some? && t.summary.value != "" then t.summary.value else NoSummary;
    Event(Decimal(t.id), t.fullName + " - " + summary, FormatTime(t.startTime), FormatTime(t.endTime))
  }

  /** One event per filtered timesheet, in the same order: its id reads back
      as the row id, so distinct timesheets give distinct events, and its
      title is the employee's name, " - ", then the summary or "No summary". */
  function Events(rows: seq<Listing>): (events: seq<Event>)
    ensures |events| == |rows|
    ensures forall k | 0 <= k < |rows| :: ParseDecimal(events[k].id) == Some(rows[k].id)
    ensures forall k | 0 <= k < |rows| ::
              |rows[k].fullName| + 3 <= |events[k].title| && events[k].title[..|rows[k].fullName| + 3] == rows[k].fullName + " - "
    ensures forall k | 0 <= k < |rows| && rows[k].summary.Some? && rows[k].summary.value != "" ::
              events[k].title[|rows[k].fullName| + 3..] == rows[k].summary.value
    ensures forall k | 0 <= k < |rows| && (rows[k].summary.None? || rows[k].summary.value == "") ::
              events[k].title[|rows[k].fullName| + 3..] == NoSummary
    ensures forall k | 0 <= k < |rows| ::
              events[k].start == FormatTime(rows[k].startTime) && events[k].end == FormatTime(rows[k].endTime)
    ensures (forall i, j | 0 <= i < j < |rows| :: rows[i].id != rows[j].id) ==>
              forall i, j | 0 <= i < j < |rows| :: events[i].id != events[j].id
  {
    var events := seq(|rows|, k requires 0 <= k < |rows| => ToEvent(rows[k]));
    EventIdsReadBack(rows, events);
    EventTitles(rows, events);
    EventIdsDiffer(rows, events);
    events
  }

  lemma EventIdsReadBack(rows: seq<Listing>, events: seq<Event>)
    requires |events| == |rows| && forall k | 0 <= k < |rows| :: events[k] == ToEvent(rows[k])
    ensures forall k | 0 <= k < |rows| :: ParseDecimal(events[k].id) == Some(rows[k].id)
  {
    forall k | 0 <= k < |rows| ensures ParseDecimal(events[k].id) == Some(rows[k].id) {
      EventOf(rows[k]);
    }
  }

  lemma EventTitles(rows: seq<Listing>, events: seq<Event>)
    requires |events| == |rows| && forall k | 0 <= k < |rows| :: events[k] == ToEvent(rows[k])
    ensures forall k | 0 <= k < |rows| ::
              |rows[k].fullName| + 3 <= |events[k].title| && events[k].title[..|rows[k].fullName| + 3] == rows[k].fullName + " - "
    ensures forall k | 0 <= k < |rows| && rows[k].summary.Some? && rows[k].summary.value != "" ::
              events[k].title[|rows[k].fullName| + 3..] == rows[k].summary.value
    ensures forall k | 0 <= k < |rows| && (rows[k].summary.None? || rows[k].summary.value == "") ::
              events[k].title[|rows[k].fullName| + 3..] == NoSummary
  {
    forall k | 0 <= k < |rows|
      ensures |rows[k].fullName| + 3 <= |events[k].title|
      ensures events[k].title[..|rows[k].fullName| + 3] == rows[k].fullName + " - "
      ensures events[k].title[|rows[k].fullName| + 3..] ==
                if rows[k].summary.Some? && rows[k].summary.value != "" then rows[k].summary.value else NoSummary
    {
      EventOf(rows[k]);
    }
  }

  lemma EventIdsDiffer(rows: seq<Listing>, events: seq<Event>)
    requires |events| == |rows| && forall k | 0 <= k < |rows| :: events[k] == ToEvent(rows[k])
    ensures (forall i, j | 0 <= i < j < |rows| :: rows[i].id != rows[j].id) ==>
              forall i, j | 0 <= i < j < |rows| :: events[i].id != events[j].id
  {
    if forall i, j | 0 <= i < j < |rows| :: rows[i].id != rows[j].id {
      forall i, j | 0 <= i < j < |rows| ensures events[i].id != events[j].id {
        DecimalInjective(rows[i].id, rows[j].id);
      }
    }
  }

  lemma EventOf(t: Listing)
    ensures ParseDecimal(ToEvent(t).id) == Some(t.id)
    ensures |t.fullName| + 3 <= |ToEvent(t).title|
    ensures ToEvent(t).title[..|t.fullName| + 3] == t.fullName + " - "
    ensures ToEvent(t).title[|t.fullName| + 3..] ==
              if t.summary.Some? && t.summary.value != "" then t.summary.value else NoSummary
  {
    DecimalRoundTrip(t.id);
  }

  /** `x` is the employee name of some entry of `rows`. */
  predicate NameOf(rows: seq<Listing>, x: string) {
    exists i | 0 <= i < |rows| :: rows[i].fullName == x
  }

  /** The employee drop-down: the distinct non-empty names, ascending, each
      the name of some listed timesheet. */
  function EmployeeOptions(rows: seq<Listing>): (options: seq<string>)
    ensures StrictlySorted(options)
    ensures forall k | 0 <= k < |options| :: options[k] != "" && NameOf(rows, options[k])
    ensures forall k | 0 <= k < |rows| && rows[k].fullName != "" :: rows[k].fullName in options
  {
    var names := seq(|rows|, k requires 0 <= k < |rows| => rows[k].fullName);
    var options := SelectOptions(names);
    assert forall k | 0 <= k < |rows| :: rows[k].fullName == names[k];
    NamesOfOptions(rows, names, options);
    options
  }

  lemma NamesOfOptions(rows: seq<Listing>, names: seq<string>, options: seq<string>)
    requires |names| == |rows| && forall k | 0 <= k < |rows| :: names[k] == rows[k].fullName
    requires forall k | 0 <= k < |options| :: options[k] in names
    ensures forall k | 0 <= k < |options| :: NameOf(rows, options[k])
  {
    forall k | 0 <= k < |options| ensures NameOf(rows, options[k]) {
      var i :| 0 <= i < |names| && names[i] == options[k];
      assert 0 <= i < |rows| && rows[i].fullName == options[k];
    }
  }

  datatype ViewMode = TableView | CalendarView

  /** The page's state. */
  datatype View = View(mode: ViewMode, employeeFilter: string, page: int)

  const InitialView := View(TableView, "", 1)

  datatype Click = ShowTable | ShowCalendar | PickEmployee(name: string) | Previous | Next

  function Filtered(rows: seq<Listing>, v: View): seq<Listing> {
    FilterByEmployee(rows, v.employeeFilter)
  }

  /** The state after a click. Picking an employee sends the page back to 1
      (the effect on `employeeFilter`). */
  function Step(rows: seq<Listing>, v: View, c: Click): View {
    match c
    case ShowTable => v.(mode := TableView)
    case ShowCalendar => v.(mode := CalendarView)
    case PickEmployee(name) => v.(employeeFilter := name, page := 1)
    case Previous => v.(page := PreviousPage(v.page))
    case Next => v.(page := NextPage(v.page, TotalPages(|Filtered(rows, v)|)))
  }

  /** The current page is one of the filtered list's pages. */
  predicate PageValid(rows: seq<Listing>, v: View) {
    InRange(v.page, TotalPages(|Filtered(rows, v)|))
  }

  /** The page starts in range, every click keeps it in range, and picking
      an employee returns to page 1. */
  lemma StepKeepsPageValid(rows: seq<Listing>, v: View, c: Click)
    requires PageValid(rows, v)
    ensures PageValid(rows, InitialView)
    ensures PageValid(rows, Step(rows, v, c))
    ensures c.PickEmployee? ==> Step(rows, v, c).page == 1
  {
    NavigationStaysInRange(v.page, TotalPages(|Filtered(rows, v)|));
  }

  /** The rows shown in the table view. */
  function Visible(rows: seq<Listing>, v: View): (shown: seq<Listing>)
    ensures |shown| <= ItemsPerPage
    ensures PageValid(rows, v) && |Filtered(rows, v)| > 0 ==> |shown| > 0
    ensures v.page >= 1 ==> forall k | 0 <= k < |shown| ::
              (v.page - 1) * ItemsPerPage + k < |Filtered(rows, v)| && shown[k] == Filtered(rows, v)[(v.page - 1) * ItemsPerPage + k]
  {
    Page(Filtered(rows, v), v.page)
  }
}
