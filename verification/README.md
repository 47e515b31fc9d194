# Employee and timesheet routes of EMS-Challenge-Karim, in Dafny

This project models four route modules of the employee-management web app:
the two creation forms and the two list pages.

- **New employee** (`employees.new`). The form action runs these steps in
  order:
  1. the under-18 check;
  2. the photo and document uploads;
  3. the employment date-range check;
  4. the required-field scan;
  5. the insert.
- **New timesheet** (`timesheets.new`). The action applies the strict
  start-before-end rule, turns the date-times into their storage form and
  inserts the row. The page's `validateTimes` / `handleSubmit` gate mirrors
  the action's rule on the client.
- **Timesheet list** (`timesheets._index`). Its action has three outcomes:
  - the `delete` intent removes a row;
  - the `edit` intent rewrites a row;
  - any other intent is answered with 400.

  The page has an exact-name employee filter, five-per-page pagination and
  `formatTime`. It also builds calendar events and the sorted list of
  distinct employee names.
- **Employee list** (`employees._index`). The page ANDs three filters:
  - a case-insensitive name search;
  - a department;
  - a salary ceiling, which an unknown salary always passes.

  It also has pagination, a reset to page 1 whenever a filter changes, and
  the sorted list of distinct departments.

Modules:

| module | what it holds |
|---|---|
| `Optional` | `Option<T>`, for `null` and absent form fields |
| `Http` | form data (`FormData = map<string,string>`) and responses. An `Outcome` pairs a response with an effect log (`WriteFile`, `Insert`), so that the order of side effects can be stated |
| `Numerals` | decimal digits: `Date.now()` in file names, zero-padded date fields, `id.toString()`, the integer reading of a submitted id |
| `Text` | JavaScript `trim`, ASCII `toLowerCase`, `includes`, `replace` of one character, `split` / `join` on one character |
| `Seqs` | `Array.prototype.filter`, with its subsequence, membership and multiplicity guarantees |
| `Collation` | `new Set`, `.filter(Boolean)` and `.sort()` for the drop-down options, under the default string order |
| `Calendar` | dates and minute-precision date-times in place of JavaScript `Date`. Only the `YYYY-MM-DD` and `YYYY-MM-DDTHH:MM` texts the date inputs submit are parsed; any other text is an Invalid Date |
| `Paging` | `Math.max(1, Math.ceil(n / 5))`, `slice`, and the clamped Previous/Next buttons |
| `EmployeeCreate`, `TimesheetCreate`, `TimesheetList`, `EmployeeList` | the four routes |

Inputs from the environment are parameters:

- today's date and the two `Date.now()` readings (`EmployeeCreate.Clock`);
- the submitted form;
- the uploaded files' names;
- the loaded table rows.

The timesheets table is a `map<nat, Timesheet>` from id to row.

Two consequences of the code's order of work:

- **Uploads before the later checks.** The employee action writes the uploads
  right after the age check. A submission then rejected for its date range or
  for a missing field has already written its files
  (`EmployeeCreate.LateRejectionsKeepUploads`).
- **Edit has no time check.** The timesheet list's `edit` intent performs no
  start-before-end check (`TimesheetList.EditSkipsTimeCheck`). Absent times
  are stored as the text `undefined:00`.

## Model

| member | source | states |
|---|---|---|
| `Calendar.Under18IffAgeBelow18` | app/routes/employees.new/route.tsx:18-24 | The route's year/month/day-difference test holds exactly when the whole-year age is below 18. Whole-year age is the year difference, less one before this year's birthday. |
| `Calendar.Under18IffBeforeEighteenthBirthday` | app/routes/employees.new/route.tsx:18-24 | The under-age test holds exactly when today is earlier than the 18th birthday. A birth date whose 18th birthday is today passes. |
| `Calendar.ParseDate` | app/routes/employees.new/route.tsx:15 | A date read from text is a real calendar date, and it formats back to that exact text. |
| `Calendar.ParseFormatDate` | app/routes/employees.new/route.tsx:83-84 | Every real date written as `YYYY-MM-DD` reads back as that date. |
| `Calendar.ParseDateTime` | app/routes/timesheets.new/route.tsx:25-26 | A date-time read from text is a real date with hour 0-23 and minute 0-59, and it formats back to that exact text. |
| `Calendar.ParseFormatLocal` | app/routes/timesheets.new/route.tsx:25-26 | Every real date-time written as `YYYY-MM-DDTHH:MM` reads back as that date-time. |
| `EmployeeCreate.AgeCheckIsEighteenthBirthday` | app/routes/employees.new/route.tsx:14-30 | For a birth date submitted as a date, the age check rejects exactly when today is before the 18th birthday. A rejected submission answers with the `date_of_birth` error and performs no file write and no insert. |
| `EmployeeCreate.UnreadableBirthDatePasses` | app/routes/employees.new/route.tsx:15-26 | A birth date that is not a date (an Invalid Date) is not rejected by the age check. |
| `EmployeeCreate.AbsentBirthDateCaughtByScan` | app/routes/employees.new/route.tsx:14-107 | An absent birth date reads as the epoch and passes the age check from 1989 on. The required-field scan then reports it, and nothing is inserted. |
| `EmployeeCreate.SaveUpload` | app/routes/employees.new/route.tsx:35-52 | A reference exists exactly when a file with a non-empty name was sent. The reference is `/uploads/<folder>/<timestamp>_<name>`, and exactly one write happens, to `public` followed by the reference. Otherwise there is no reference and no write. |
| `EmployeeCreate.StoredNamesDiffer` | app/routes/employees.new/route.tsx:40 | Uploads saved at different timestamps get different stored names, whatever their original names. |
| `EmployeeCreate.MissingFields` | app/routes/employees.new/route.tsx:68-98 | The missing list holds exactly the required names whose value is absent or all whitespace. The names keep the required-list order and none appears twice. |
| `EmployeeCreate.MissingMeansBlank` | app/routes/employees.new/route.tsx:95-98 | `!value \|\| value.trim() === ""` holds exactly when the value is absent or consists only of whitespace. |
| `EmployeeCreate.Create` | app/routes/employees.new/route.tsx:11-121 | Age rejection gives the `date_of_birth` error with no effects. Otherwise the effects begin with the upload writes, and at most one effect follows them. An insert happens exactly when the answer is the redirect to `/employees`, which happens exactly when all three checks pass. |
| `EmployeeCreate.LateRejectionsKeepUploads` | app/routes/employees.new/route.tsx:38-107 | A date-range rejection gives the `date_range` error. A missing-field rejection gives status 400 with `Missing required fields: ` followed by the names joined by ", ". Either way the upload writes have happened, and nothing else. |
| `EmployeeCreate.AcceptedInsertsRow` | app/routes/employees.new/route.tsx:54-120 | An accepted submission redirects, and its effects are the upload writes followed by one insert of 11 values. The values are the nine form fields in column order, then the photo reference, then the document reference. |
| `EmployeeCreate.DateRangeIsChronological` | app/routes/employees.new/route.tsx:82-93 | With both employment dates submitted as dates, the range check rejects exactly when the end is an earlier day than the start. Equal dates pass. |
| `EmployeeCreate.DateRangeSkippedWhenEitherEmpty` | app/routes/employees.new/route.tsx:82 | With either employment date absent or empty, the range check never rejects. |
| `Text.Trim` | app/routes/employees.new/route.tsx:97 | The trimmed text is empty exactly when the text is all whitespace. Otherwise it begins and ends with a non-whitespace character. It is the text with a blank prefix and a blank suffix removed. |
| `TimesheetCreate.Create` | app/routes/timesheets.new/route.tsx:17-50 | A rejected time range answers with the JSON time-validation error and no effects. An insert happens exactly when the check passes and both times are present, and exactly when the answer is the redirect to `/timesheets`. The insert is the single row (employee id, stored start, stored end, summary). |
| `TimesheetCreate.InsertIffStartBeforeEnd` | app/routes/timesheets.new/route.tsx:24-49 | For times submitted as date-times, a row is inserted exactly when the start is strictly earlier than the end. Identical instants get the error. |
| `TimesheetCreate.EmptyTimeSkipsCheck` | app/routes/timesheets.new/route.tsx:24-47 | With both times present, an empty start or an empty end skips the check. The row is inserted, and each empty time is stored as `:00`. |
| `TimesheetCreate.FormatDateTime` | app/routes/timesheets.new/route.tsx:39 | The storage form is three characters longer and ends in `:00`. Only the first `T` becomes a space, and every other character is kept. |
| `TimesheetCreate.StoredForm` | app/routes/timesheets.new/route.tsx:39 | A value `YYYY-MM-DDTHH:MM` is stored as `YYYY-MM-DD HH:MM:00`. |
| `TimesheetCreate.ValidateTimes` | app/routes/timesheets.new/route.tsx:64-80 | The message is cleared exactly when the validation returns true. |
| `TimesheetCreate.ClientMatchesServer` | app/routes/timesheets.new/route.tsx:64-80 | The page accepts a pair of inputs exactly when the server's check would not reject them. Either input empty is accepted; otherwise the pair is refused exactly when start ≥ end. |
| `TimesheetCreate.HandlersKeepMessageCurrent` | app/routes/timesheets.new/route.tsx:82-92 | After either change handler, and on the initial page, the client-side validation message (`validationError`) is the one for the current inputs. |
| `TimesheetCreate.HandleSubmit` | app/routes/timesheets.new/route.tsx:94-98 | Submission is prevented exactly when the server's time check would reject the inputs. The inputs are kept and the message is made current. |
| `TimesheetCreate.SubmittedFormPassesServer` | app/routes/timesheets.new/route.tsx:94-98 | A form the page lets through is inserted by the server action. |
| `TimesheetList.Act` | app/routes/timesheets._index/route.tsx:30-60 | `delete` removes the addressed row and keeps every other row unchanged. `edit` replaces only the addressed row, with the edited values. Any other intent answers 400 `Invalid intent` and leaves the table as it was. |
| `TimesheetList.DeleteRemovesRow` | app/routes/timesheets._index/route.tsx:37-40 | Deleting by the id the page renders removes exactly that row. |
| `TimesheetList.EditSkipsTimeCheck` | app/routes/timesheets._index/route.tsx:42-57 | The edit intent writes the new row whatever its times, so a start after its end is stored too. |
| `TimesheetList.FilterByEmployee` | app/routes/timesheets._index/route.tsx:74-80 | An empty filter keeps every row. A name keeps exactly that employee's rows, as a subsequence in their original order. |
| `TimesheetList.FormatTimeNoColon` | app/routes/timesheets._index/route.tsx:96-98 | Text without `:` is displayed unchanged. |
| `TimesheetList.FormatTimeOneColon` | app/routes/timesheets._index/route.tsx:96-98 | Text with exactly one `:` is displayed unchanged. |
| `TimesheetList.FormatTimeTwoColons` | app/routes/timesheets._index/route.tsx:96-98 | Text with two or more `:` is cut just before its second `:`. |
| `TimesheetList.FormatTimeAfterFormatDateTime` | app/routes/timesheets._index/route.tsx:96-98 | For a submitted value with one `:`, displaying its storage form gives the value with its first `T` turned into a space. This is the round trip between `formatDateTime` and `formatTime`. |
| `TimesheetList.StoredTimeDisplaysToTheMinute` | app/routes/timesheets._index/route.tsx:103-104 | A date-time submitted as `YYYY-MM-DDTHH:MM`, stored and then displayed reads `YYYY-MM-DD HH:MM`. |
| `TimesheetList.Events` | app/routes/timesheets._index/route.tsx:100-105 | There is one event per filtered timesheet, in the same order. Each event id reads back as its row id, so timesheets with distinct ids give events with distinct ids. The title is the employee's name, ` - `, then the summary, or `No summary` when it is absent or empty. The start and end are the row's times passed through `formatTime`, so `StoredTimeDisplaysToTheMinute` gives what the calendar receives. |
| `TimesheetList.EmployeeOptions` | app/routes/timesheets._index/route.tsx:176-178 | The name options are strictly ascending, hence distinct, and non-empty. Each is the employee name of some listed timesheet, and every non-empty name of the listing is among them. |
| `TimesheetList.StepKeepsPageValid` | app/routes/timesheets._index/route.tsx:82-94 | The page starts in range. Every click keeps it in `[1, totalPages]` of the filtered list, and picking an employee returns to page 1. |
| `TimesheetList.Visible` | app/routes/timesheets._index/route.tsx:87-90 | At most five rows are shown, and some are whenever the filter leaves any and the page is in range. From page 1 on, the `k`-th shown row is row `(page - 1) * 5 + k` of the filtered list, so the page is that list's slice. |
| `EmployeeList.FilterEmployees` | app/routes/employees._index/route.tsx:21-34 | An employee is listed exactly when three things hold. The lower-cased search occurs in the lower-cased name. The department filter is empty or equal to the employee's department. The salary is null or within the ceiling. The list keeps the loaded order. |
| `EmployeeList.NoFiltersListsEveryone` | app/routes/employees._index/route.tsx:21-34 | With an empty search, no department and a ceiling no salary exceeds, the filter lists every employee, in order. |
| `EmployeeList.RaisingCeilingKeepsEmployees` | app/routes/employees._index/route.tsx:30-31 | Raising the salary ceiling never hides a listed employee. |
| `EmployeeList.DepartmentOptions` | app/routes/employees._index/route.tsx:82-84 | The department options are strictly ascending, hence distinct, and non-empty. Each is the department of some loaded employee, and every non-empty department is among them. |
| `EmployeeList.StepKeepsPageValid` | app/routes/employees._index/route.tsx:46-48 | The page starts in range. Every input keeps it in range, and any filter change returns to page 1. |
| `EmployeeList.Visible` | app/routes/employees._index/route.tsx:41-44 | At most five employees are shown, each passing the filters. Some are shown whenever the filters leave any and the page is in range. From page 1 on, the `k`-th shown employee is employee `(page - 1) * 5 + k` of the filtered list, so the page is that list's slice. |
| `Paging.TotalPages` | app/routes/employees._index/route.tsx:36-39 | The page count is at least 1 and holds all `n` items. Any fewer pages would not hold them. |
| `Paging.SliceIndex` | app/routes/employees._index/route.tsx:41-44 | A `slice` bound lands inside the list, and a non-negative bound is clamped to the length. |
| `Paging.Page` | app/routes/employees._index/route.tsx:41-44 | A page has at most five items, and its exact length is given. Its `k`-th item is item `(page - 1) * 5 + k` of the list. On any page, even one below 1, the items are consecutive items of the list, starting where `slice` clamps the start bound. |
| `Paging.PagesAsSlice` | app/routes/timesheets._index/route.tsx:87-90 | Consecutive pages joined together are one contiguous slice of the list. |
| `Paging.PagesCoverList` | app/routes/timesheets._index/route.tsx:82-90 | Pages 1 to `totalPages` joined together give back the whole list, each item once, in order. |
| `Paging.PageBeyondLastIsEmpty` | app/routes/timesheets._index/route.tsx:87-90 | A page past the last one is empty. |
| `Paging.PageInRangeIsFilled` | app/routes/employees._index/route.tsx:36-44 | Every page from 1 to `totalPages` of a non-empty list has at least one item. |
| `Paging.NavigationStaysInRange` | app/routes/employees._index/route.tsx:184-204 | Previous (`max(p - 1, 1)`) and Next (`min(p + 1, totalPages)`) keep the page in `[1, totalPages]`. Previous never moves forward and Next never moves back. |
| `Paging.EnabledButtonsMoveByOne` | app/routes/timesheets._index/route.tsx:238-258 | Within range, a button is enabled exactly when pressing it changes the page, and it then moves by one. |
| `Collation.SelectOptions` | app/routes/employees._index/route.tsx:82-84 | `[...new Set(v)].filter(Boolean).sort()` is strictly ascending. It holds every non-empty value of `v` and nothing else. |
| `Collation.OptionsIgnoreOrder` | app/routes/timesheets._index/route.tsx:176-178 | Two value lists with the same non-empty values give the same options, whatever their order or repetitions. |
| `Collation.Sort` | app/routes/employees._index/route.tsx:84 | The sorted list is in ascending string order and is a permutation of its input. |
| `Collation.Distinct` | app/routes/employees._index/route.tsx:82 | `new Set` keeps each value exactly once, and no other values. |
| `Collation.LessTotal` | app/routes/employees._index/route.tsx:84 | The default sort order compares any two different strings. |
| `Seqs.Filter` | app/routes/employees._index/route.tsx:21 | `filter` keeps only elements that pass, and every element that passes occurs in the result, as an order-preserving subsequence. It is the identity when all pass, and it keeps distinctness. |
| `Seqs.FilterKeepsCounts` | app/routes/employees._index/route.tsx:21 | `filter` keeps every copy of an element that passes and no copy of one that fails, so the result's multiset is fixed. |
| `Text.Includes` | app/routes/employees._index/route.tsx:22-24 | `includes` is true exactly when the search text occurs at some position. |
| `Text.ReplaceFirst` | app/routes/timesheets.new/route.tsx:39 | `replace` with a one-character pattern changes only the first occurrence. With no occurrence the text is unchanged. |
| `Text.JoinSplit` | app/routes/timesheets._index/route.tsx:97 | Joining the `split` fields with the separator gives the text back. |
| `Text.Split` | app/routes/timesheets._index/route.tsx:97 | `split` yields at least one field, and no field contains the separator. |
| `Numerals.DecimalRoundTrip` | app/routes/timesheets._index/route.tsx:101 | The decimal text of a row id reads back as that id. |
| `Numerals.DecimalInjective` | app/routes/timesheets._index/route.tsx:101 | Different ids have different decimal texts. |
| `Numerals.ParseDecimal` | app/routes/timesheets._index/route.tsx:33-38 | A submitted id names a row exactly when it is a non-empty string of digits. |
| `Numerals.ParseDecimalDigits` | app/routes/timesheets._index/route.tsx:33-38 | The number read from a digit string, padded with zeros to the string's width, gives the string back. So the number read is the one those digits spell, leading zeros included. |

## Left out

- **Database.** `getDB`, the SQL text and the loaders' queries are not
  modelled. The employee insert is an effect carrying its values. The
  timesheets table is a map from id to row, and the listing is given as a
  sequence of joined rows.
- **Uploaded file contents.** Only a file's name is modelled; its bytes and
  `fs.writeFile` are not. The write is an effect, and I/O failures are not
  modelled.
- **Other source files.** `app/utils/hybridUpload.ts` (uploads to external
  hosts over the network) is not part of this model. Neither are
  `scripts/seed.js` (one-off seeding), the static home page, the loading
  component, or the employee and timesheet detail routes.
- **Time zones.** Dates and date-times are read as written, in no zone.
  - `new Date("YYYY-MM-DD")` is UTC midnight, while the age check uses local
    getters. On a machine west of UTC those give the previous day at every
    hour, so the code admits a birth date whose 18th birthday is tomorrow.
    `EmployeeCreate.AgeCheckIsEighteenthBirthday` holds for the date as
    written, which is what the code does on a machine at UTC or east of it.
  - `new Date("YYYY-MM-DDTHH:MM")` is local time, both in the timesheet action
    (app/routes/timesheets.new/route.tsx:25-26) and on the page
    (app/routes/timesheets.new/route.tsx:70-71). In a daylight-saving gap the
    engine moves a missing local time forward. With start
    `2025-03-09T02:45` and end `2025-03-09T03:15` in a United States zone the
    start becomes 03:45 and the code rejects the pair.
    `TimesheetCreate.InsertIffStartBeforeEnd` and
    `TimesheetCreate.ClientMatchesServer` compare the texts as written and
    say that pair is inserted.
  - The browser and the server may run in different zones, so the page's
    check and the action's check can disagree. The model gives both the same
    reading.
- **Lenient date parsing.** The model accepts only real dates.
  - V8 also accepts days up to 31 in any month and rolls them over into the
    next month.
  - It also accepts other textual date formats, and `T24:00`.
  - A date's full time-of-day order (seconds and milliseconds) is not
    modelled.
- **Letter case and sort order.** `toLowerCase` is modelled for ASCII letters
  only. The default sort compares code points. JavaScript compares UTF-16 code
  units, which differs only for characters outside the Basic Multilingual
  Plane.
- **Paths and ids.** `path.join` normalisation of odd file names (`..`, `/`) is
  not modelled. SQLite's reading of a submitted id is modelled for plain digit
  strings only, not for signs, spaces or decimals.
- **Salaries.** They are integers; fractional salaries are left out.
- **React rendering.** The render between a filter change and the `useEffect`
  reset to page 1 is not modelled. Neither are the re-render timing, JSX, the
  HTML `required` attributes, the disabled submit button and the Schedule-X
  calendar widget. Events are modelled as the values handed to it.
- **`TimesheetCreate.Create`.** An absent time makes `formatDateTime(null)`
  throw. The model answers `ServerError` with no effects, and does not model
  the framework's error page.
- **`TimesheetList.Act`.** Database errors are not modelled. A delete or an
  edit of an id with no row leaves the table unchanged, as the SQL does.
