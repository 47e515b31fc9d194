/** The new-employee form action: the under-age check, the photo and
    document uploads, the employment date-range check, the required-field
    scan and the insert, in the order the route performs them. */
module EmployeeCreate {
  import opened Optional
  import opened Http
  import opened Text
  import opened Numerals
  import opened Calendar
  import opened Seqs

  const AgeMessage := "Employee must be at least 18 years old."
  const RangeMessage := "Start date must be before or equal to end date"
  const MissingPrefix := "Missing required fields: "

  /** The fields that must be present and not blank, in the order the scan
      reports them. */
  const RequiredFields: seq<string> :=
    ["full_name", "email", "phone", "date_of_birth", "job_title", "department", "salary", "start_date"]

  /** The submitted fields stored by the insert, in column order; the photo
      and document references follow them. */
  const FormColumns: seq<string> :=
    ["full_name", "email", "phone", "date_of_birth", "job_title", "department", "salary", "start_date", "end_date"]

  /** An uploaded file; its bytes are not modelled. A file input left empty
      submits a file whose name is "". */
  datatype File = File(name: string)

  /** One submission of the new-employee form. */
  datatype Submission = Submission(form: FormData, photo: Option<File>, document: Option<File>)

  /** What the action reads from its surroundings: today's local date, and
      the `Date.now()` readings taken for the photo and for the document. */
  datatype Clock = Clock(today: Date, photoNow: nat, documentNow: nat)

  /** `new Date(value)` for the date of birth: null is the epoch, text is
      parsed, and anything unreadable is an Invalid Date (nothing). */
  function BirthDate(v: Option<string>): Option<Date> {
    match v
    case None => Some(Epoch)
    case Some(s) => ParseDate(s)
  }

  /** The age check fails. Against an Invalid Date every comparison is
      false, so an unreadable date of birth is not rejected here. */
  predicate AgeRejected(form: FormData, today: Date) {
    var dob := BirthDate(Get(form, "date_of_birth"));
    dob.Some? && IsUnder18(dob.value, today)
  }

  /** The stored file name: the timestamp, "_", then the original name. */
  function StoredName(now: nat, f: File): string {
    Decimal(now) + "_" + f.name
  }

  /** The reference an upload saved under `folder` is stored as, and the
      file writes that saving it performed. */
  datatype Upload = Upload(reference: Option<string>, writes: seq<Effect>)

  /** Saves `file` under `public/uploads/<folder>/` when it has a name. */
  function SaveUpload(folder: string, file: Option<File>, now: nat): (u: Upload)
    ensures u.reference.Some? <==> file.Some? && file.value.name != ""
    ensures u.reference.None? ==> u.writes == []
    ensures u.reference.Some? ==>
              && u.reference.value == "/uploads/" + folder + "/" + StoredName(now, file.value)
              && u.writes == [WriteFile("public" + u.reference.value)]
  {
    if file.Some? && file.value.name != "" then
      var name := StoredName(now, file.value);
      assert "public" + ("/uploads/" + folder + "/" + name) == "public/uploads/" + folder + "/" + name;
      Upload(Some("/uploads/" + folder + "/" + name), [WriteFile("public/uploads/" + folder + "/" + name)])
    else
      Upload(None, [])
  }

  /** Two uploads saved at different instants get different names, whatever
      their original names: the timestamp is everything before the first "_". */
  lemma StoredNamesDiffer(now1: nat, f1: File, now2: nat, f2: File)
    requires now1 != now2
    ensures StoredName(now1, f1) != StoredName(now2, f2)
  {
    var d1, d2 := Decimal(now1), Decimal(now2);
    FirstUnderscore(d1, f1.name);
    FirstUnderscore(d2, f2.name);
    if StoredName(now1, f1) == StoredName(now2, f2) {
      assert d1 == StoredName(now1, f1)[..|d1|];
      DecimalInjective(now1, now2);
    }
  }

  lemma FirstUnderscore(digits: string, name: string)
    requires AllDigits(digits)
    ensures IndexOf(digits + "_" + name, '_') == |digits|
  {
    var s := digits + "_" + name;
    assert s[|digits|] == '_';
    assert s[..|digits|] == digits;
  }

  /** `!value || value.toString().trim() === ""`. */
  predicate IsMissing(v: Option<string>) {
    !Truthy(v) || Trim(v.value) == ""
  }

  /** The required fields the submission leaves absent or blank, in the
      order of `RequiredFields`, all of them and each once. */
  function MissingFields(form: FormData): (missing: seq<string>)
    ensures forall k | 0 <= k < |missing| ::
              var v := Get(form, missing[k]);
              missing[k] in RequiredFields && (v.None? || IsBlank(v.value))
    ensures forall k | 0 <= k < |RequiredFields| ::
              var v := Get(form, RequiredFields[k]);
              (v.None? || IsBlank(v.value)) ==> RequiredFields[k] in missing
    ensures IsSubsequence(missing, RequiredFields)
    ensures NoDuplicates(missing)
  {
    RequiredFieldsDistinct();
    var missing := Filter(RequiredFields, (f: string) => IsMissing(Get(form, f)));
    forall f ensures IsMissing(Get(form, f)) <==> Get(form, f).None? || IsBlank(Get(form, f).value) {
      MissingMeansBlank(Get(form, f));
    }
    missing
  }

  lemma RequiredFieldsDistinct()
    ensures NoDuplicates(RequiredFields)
  {
    var r := RequiredFields;
    forall i, j | 0 <= i < j < |r| ensures r[i] != r[j] {
      assert |r[i]| != |r[j]| || r[i][0] != r[j][0];
    }
  }

  /** A value counts as missing exactly when it is absent or all whitespace. */
  lemma MissingMeansBlank(v: Option<string>)
    ensures IsMissing(v) <==> v.None? || IsBlank(v.value)
  {
    if v.Some? {
      var _ := Trim(v.value);
    }
  }

  /** Both employment dates are given, both are dates, and the start is after
      the end. An equal start and end is accepted. */
  predicate DateRangeRejected(form: FormData) {
    var start := Get(form, "start_date");
    var end := Get(form, "end_date");
    && Truthy(start) && Truthy(end)
    && var s := ParseDate(start.value);
       var e := ParseDate(end.value);
       s.Some? && e.Some? && Before(e.value, s.value)
  }

  /** The inserted row: the form columns, then the photo and document references. */
  function RowValues(form: FormData, photo: Option<string>, document: Option<string>): seq<Option<string>> {
    seq(|FormColumns|, k requires 0 <= k < |FormColumns| => Get(form, FormColumns[k])) + [photo, document]
  }

  /** The action: the under-age check, then the uploads, then the date-range
      check, then the required-field scan, then the insert. */
  function Create(sub: Submission, clock: Clock): (o: Outcome)
    ensures AgeRejected(sub.form, clock.today) ==>
              o == Outcome(ActionErrors("date_of_birth", AgeMessage), [])
    ensures !AgeRejected(sub.form, clock.today) ==>
              var uploads := UploadWrites(sub, clock);
              && |uploads| <= |o.effects| <= |uploads| + 1
              && o.effects[..|uploads|] == uploads
    ensures HasInsert(o.effects) <==> o.response == Redirect("/employees")
    ensures HasInsert(o.effects) <==>
              !AgeRejected(sub.form, clock.today) && !DateRangeRejected(sub.form) && MissingFields(sub.form) == []
  {
    if AgeRejected(sub.form, clock.today) then
      Outcome(ActionErrors("date_of_birth", AgeMessage), [])
    else
      var photo := SaveUpload("photos", sub.photo, clock.photoNow);
      var document := SaveUpload("docs", sub.document, clock.documentNow);
      var uploads := photo.writes + document.writes;
      UploadsInsertNothing(sub, clock);
      var missing := MissingFields(sub.form);
      if DateRangeRejected(sub.form) then
        Outcome(ActionErrors("date_range", RangeMessage), uploads)
      else if missing != [] then
        Outcome(Plain(400, MissingPrefix + Join(missing, ", ")), uploads)
      else
        var effects := uploads + [Insert("employees", RowValues(sub.form, photo.reference, document.reference))];
        assert IsInsert(effects[|uploads|]);
        Outcome(Redirect("/employees"), effects)
  }

  /** The uploads a submission that passes the age check performs. */
  function UploadWrites(sub: Submission, clock: Clock): seq<Effect> {
    SaveUpload("photos", sub.photo, clock.photoNow).writes
      + SaveUpload("docs", sub.document, clock.documentNow).writes
  }

  lemma UploadsInsertNothing(sub: Submission, clock: Clock)
    ensures |UploadWrites(sub, clock)| <= 2
    ensures !HasInsert(UploadWrites(sub, clock))
  {
    var w := UploadWrites(sub, clock);
    assert forall k | 0 <= k < |w| :: w[k].WriteFile?;
  }

  /** A submission rejected by the date-range check or the required-field
      scan has still written its uploads, and inserts nothing. */
  lemma LateRejectionsKeepUploads(sub: Submission, clock: Clock)
    requires !AgeRejected(sub.form, clock.today)
    ensures DateRangeRejected(sub.form) ==>
              Create(sub, clock) == Outcome(ActionErrors("date_range", RangeMessage), UploadWrites(sub, clock))
    ensures !DateRangeRejected(sub.form) && MissingFields(sub.form) != [] ==>
              Create(sub, clock) == Outcome(Plain(400, MissingPrefix + Join(MissingFields(sub.form), ", ")),
                                            UploadWrites(sub, clock))
  {
  }

  /** An accepted submission inserts one employee row after its uploads: the
      submitted fields in column order, then the upload references. */
  lemma AcceptedInsertsRow(sub: Submission, clock: Clock)
    requires !AgeRejected(sub.form, clock.today) && !DateRangeRejected(sub.form) && MissingFields(sub.form) == []
    ensures var o := Create(sub, clock);
      var photo := SaveUpload("photos", sub.photo, clock.photoNow).reference;
      var document := SaveUpload("docs", sub.document, clock.documentNow).reference;
      && o.response == Redirect("/employees")
      && o.effects == UploadWrites(sub, clock) + [Insert("employees", RowValues(sub.form, photo, document))]
      && |RowValues(sub.form, photo, document)| == 11
      && (forall k | 0 <= k < |FormColumns| :: RowValues(sub.form, photo, document)[k] == Get(sub.form, FormColumns[k]))
      && RowValues(sub.form, photo, document)[9] == photo
      && RowValues(sub.form, photo, document)[10] == document
  {
  }

  /** For a date of birth submitted as a date, the age check rejects exactly
      when today is before the 18th birthday: on the birthday itself the
      submission passes, the day before it is refused with nothing written. */
  lemma {:induction false} AgeCheckIsEighteenthBirthday(sub: Submission, clock: Clock, dob: Date)
    requires ValidDate(dob) && Get(sub.form, "date_of_birth") == Some(FormatDate(dob))
    ensures AgeRejected(sub.form, clock.today) <==>
              Before(clock.today, Date(dob.year + 18, dob.month, dob.day))
    ensures Before(clock.today, Date(dob.year + 18, dob.month, dob.day)) ==>
              Create(sub, clock) == Outcome(ActionErrors("date_of_birth", AgeMessage), [])
  {
    ParseFormatDate(dob);
    Under18IffBeforeEighteenthBirthday(dob, clock.today);
  }

  /** A date of birth that is not a date passes the age check: every
      comparison with an Invalid Date is false. */
  lemma UnreadableBirthDatePasses(sub: Submission, clock: Clock)
    requires Get(sub.form, "date_of_birth").Some? && ParseDate(Get(sub.form, "date_of_birth").value).None?
    ensures !AgeRejected(sub.form, clock.today)
  {
  }

  /** An absent date of birth is read as the epoch, so it passes the age
      check on any day from 1989 on; the required-field scan then reports it
      and nothing is inserted. */
  lemma AbsentBirthDateCaughtByScan(sub: Submission, clock: Clock)
    requires "date_of_birth" !in sub.form && clock.today.year >= 1989
    ensures !AgeRejected(sub.form, clock.today)
    ensures "date_of_birth" in MissingFields(sub.form)
    ensures !HasInsert(Create(sub, clock).effects)
  {
    assert RequiredFields[3] == "date_of_birth";
  }

  /** When both employment dates are submitted as dates, the range check
      rejects exactly when the start is after the end; equal dates pass. */
  lemma {:induction false} DateRangeIsChronological(form: FormData, start: Date, end: Date)
    requires ValidDate(start) && ValidDate(end)
    requires Get(form, "start_date") == Some(FormatDate(start))
    requires Get(form, "end_date") == Some(FormatDate(end))
    ensures DateRangeRejected(form) <==> Before(end, start)
    ensures start == end ==> !DateRangeRejected(form)
  {
    ParseFormatDate(start);
    ParseFormatDate(end);
    FormatDateShape(start);
    FormatDateShape(end);
  }

  /** With either employment date absent or empty the range check is skipped. */
  lemma DateRangeSkippedWhenEitherEmpty(form: FormData)
    requires !Truthy(Get(form, "start_date")) || !Truthy(Get(form, "end_date"))
    ensures !DateRangeRejected(form)
  {
  }
}
