/** The new-timesheet route: the server action (time-range check, storage
    normalisation of the date-times, insert) and the page's client-side
    `validateTimes` / `handleSubmit` gate. */
module TimesheetCreate {
  import opened Optional
  import opened Http
  import opened Text
  import opened Calendar
  import opened Numerals

  const TimeMessage := "Start time must be before end time"

  /** `JSON.stringify({ errors: { time_validation: TimeMessage } })`. */
  const TimeErrorBody := "{\"errors\":{\"time_validation\":\"Start time must be before end time\"}}"

  /** `new Date(start) >= new Date(end)`: both texts denote instants and the
      start is not earlier. An Invalid Date makes the comparison false. */
  predicate NotBefore(start: string, end: string) {
    var s := ParseDateTime(start);
    var e := ParseDateTime(end);
    s.Some? && e.Some? && !TimeBefore(s.value, e.value)
  }

  /** The server's check: applied only when both raw values are non-empty. */
  predicate TimeRangeRejected(start: Option<string>, end: Option<string>) {
    Truthy(start) && Truthy(end) && NotBefore(start.value, end.value)
  }

  /** `dt.replace("T", " ") + ":00"`: the storage form of a submitted
      date-time; only the first "T" becomes a space. */
  function FormatDateTime(dt: string): (r: string)
    ensures |r| == |dt| + 3 && r[|dt|..] == ":00"
    ensures forall k | 0 <= k < |dt| :: r[k] == (if k == IndexOf(dt, 'T') then ' ' else dt[k])
  {
    ReplaceFirst(dt, 'T', ' ') + ":00"
  }

  /** A value submitted as `YYYY-MM-DDTHH:MM` is stored as
      `YYYY-MM-DD HH:MM:00`. */
  lemma {:induction false} StoredForm(t: DateTime)
    requires ValidDateTime(t)
    ensures FormatDateTime(FormatLocal(t))
              == FormatDate(t.date) + " " + Padded(t.hour, 2) + ":" + Padded(t.minute, 2) + ":00"
  {
    var dt := FormatLocal(t);
    FormatLocalShape(t);
    IndexOfIs(dt, 'T', 10);
    assert ReplaceFirst(dt, 'T', ' ') == dt[10 := ' '];
    assert dt[10 := ' '] == FormatDate(t.date) + " " + Padded(t.hour, 2) + ":" + Padded(t.minute, 2);
  }

  /** The timesheet row an accepted submission inserts. */
  function RowValues(form: FormData): seq<Option<string>>
    requires Get(form, "start_time").Some? && Get(form, "end_time").Some?
  {
    [ Get(form, "employee_id"),
      Some(FormatDateTime(Get(form, "start_time").value)),
      Some(FormatDateTime(Get(form, "end_time").value)),
      Get(form, "summary") ]
  }

  /** The action. A rejected range answers with the JSON error and inserts
      nothing; an absent time makes `formatDateTime(null)` throw. */
  function Create(form: FormData): (o: Outcome)
    ensures TimeRangeRejected(Get(form, "start_time"), Get(form, "end_time")) ==>
              o == Outcome(Plain(200, TimeErrorBody), [])
    ensures HasInsert(o.effects) <==> o.response == Redirect("/timesheets")
    ensures HasInsert(o.effects) <==>
              && !TimeRangeRejected(Get(form, "start_time"), Get(form, "end_time"))
              && Get(form, "start_time").Some? && Get(form, "end_time").Some?
    ensures HasInsert(o.effects) ==> o.effects == [Insert("timesheets", RowValues(form))]
  {
    var start := Get(form, "start_time");
    var end := Get(form, "end_time");
    if TimeRangeRejected(start, end) then
      Outcome(Plain(200, TimeErrorBody), [])
    else if start.None? || end.None? then
      Outcome(ServerError, [])
    else
      var effects := [Insert("timesheets", RowValues(form))];
      assert IsInsert(effects[0]);
      Outcome(Redirect("/timesheets"), effects)
  }

  /** For times submitted as date-times, a row is inserted exactly when the
      start is strictly earlier than the end; equal instants are refused. */
  lemma {:induction false} InsertIffStartBeforeEnd(form: FormData, start: DateTime, end: DateTime)
    requires ValidDateTime(start) && ValidDateTime(end)
    requires Get(form, "start_time") == Some(FormatLocal(start))
    requires Get(form, "end_time") == Some(FormatLocal(end))
    ensures HasInsert(Create(form).effects) <==> TimeBefore(start, end)
    ensures start == end ==> Create(form) == Outcome(Plain(200, TimeErrorBody), [])
  {
    ParseFormatLocal(start);
    ParseFormatLocal(end);
    assert FormatLocal(start)[10] == 'T' && FormatLocal(end)[10] == 'T';
  }

  /** An empty start or end skips the check: the row is inserted with the
      empty value stored as ":00". */
  lemma EmptyTimeSkipsCheck(form: FormData)
    requires Get(form, "start_time").Some? && Get(form, "end_time").Some?
    requires Get(form, "start_time") == Some("") || Get(form, "end_time") == Some("")
    ensures Create(form).response == Redirect("/timesheets")
    ensures Get(form, "start_time") == Some("") ==> RowValues(form)[1] == Some(":00")
    ensures Get(form, "end_time") == Some("") ==> RowValues(form)[2] == Some(":00")
  {
  }

  /** The page's input state: the two date-time inputs and the message shown. */
  datatype Page = Page(startTime: string, endTime: string, validationError: string)

  const InitialPage := Page("", "", "")

  /** What `validateTimes` returns and the message it leaves set. */
  datatype Validation = Validation(ok: bool, error: string)

  /** `validateTimes(start, end)`. */
  function ValidateTimes(start: string, end: string): (v: Validation)
    ensures v.error == "" <==> v.ok
  {
    if start == "" || end == "" then Validation(true, "")
    else if NotBefore(start, end) then Validation(false, TimeMessage)
    else Validation(true, "")
  }

  /** The client accepts a pair exactly when the server's check would. */
  lemma ClientMatchesServer(start: string, end: string)
    ensures ValidateTimes(start, end).ok <==> !TimeRangeRejected(Some(start), Some(end))
  {
  }

  /** `handleStartTimeChange`. */
  function OnStartChange(p: Page, value: string): Page {
    Page(value, p.endTime, ValidateTimes(value, p.endTime).error)
  }

  /** `handleEndTimeChange`. */
  function OnEndChange(p: Page, value: string): Page {
    Page(p.startTime, value, ValidateTimes(p.startTime, value).error)
  }

  /** The message shown is the one for the current inputs. */
  predicate MessageCurrent(p: Page) {
    p.validationError == ValidateTimes(p.startTime, p.endTime).error
  }

  /** Both change handlers leave the message current, whatever it was before. */
  lemma HandlersKeepMessageCurrent(p: Page, value: string)
    ensures MessageCurrent(InitialPage)
    ensures MessageCurrent(OnStartChange(p, value))
    ensures MessageCurrent(OnEndChange(p, value))
  {
  }

  /** `handleSubmit`: whether the submission is prevented, and the page after
      the validation it runs. */
  datatype Submit = Submit(prevented: bool, page: Page)

  function HandleSubmit(p: Page): (s: Submit)
    ensures s.prevented <==> TimeRangeRejected(Some(p.startTime), Some(p.endTime))
    ensures MessageCurrent(s.page)
    ensures s.page.startTime == p.startTime && s.page.endTime == p.endTime
  {
    var v := ValidateTimes(p.startTime, p.endTime);
    Submit(!v.ok, Page(p.startTime, p.endTime, v.error))
  }

  /** A form the page lets through is never refused by the server's time
      check, and with both times present it is inserted. */
  lemma SubmittedFormPassesServer(p: Page, form: FormData)
    requires !HandleSubmit(p).prevented
    requires Get(form, "start_time") == Some(p.startTime) && Get(form, "end_time") == Some(p.endTime)
    ensures Create(form).response == Redirect("/timesheets")
  {
  }
}
