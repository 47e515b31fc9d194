/** The employee list page: the three filters, pagination, the page state
    with its reset to page 1, and the department options. */
module EmployeeList {
  import opened Optional
  import opened Text
  import opened Seqs
  import opened Collation
  import opened Paging

  /** A row of the employees table as the page loads it. */
  datatype Employee = Employee(
    id: nat, fullName: string, email: string, phone: string, dateOfBirth: string,
    jobTitle: string, department: string, salary: Option<int>, startDate: string,
    endDate: Option<string>, photoPath: Option<string>, documentPath: Option<string>)

  /** The search box, the department drop-down ("" for all) and the salary slider. */
  datatype Filters = Filters(search: string, department: string, salaryCeiling: int)

  /** The slider's starting (and highest) position. */
  const InitialSalaryCeiling := 10000

  /** The predicate the page passes to `filter`. */
  predicate Matches(e: Employee, f: Filters) {
    var nameMatch := Includes(ToLower(e.fullName), ToLower(f.search));
    var departmentMatch := if f.department != "" then e.department == f.department else true;
    var salaryMatch := e.salary.None? || e.salary.value <= f.salaryCeiling;
    nameMatch && departmentMatch && salaryMatch
  }

  /** When an employee is shown: the search text occurs in the name, ignoring
      letter case; the department filter is off or names the employee's
      department; and the salary is unknown or within the ceiling. */
  ghost predicate Shown(e: Employee, f: Filters) {
    && (exists i :: OccursAt(ToLower(f.search), ToLower(e.fullName), i))
    && (f.department == "" || e.department == f.department)
    && (e.salary.None? || e.salary.value <= f.salaryCeiling)
  }

  /** The filtered employees, in their loaded order. */
  function FilterEmployees(es: seq<Employee>, f: Filters): (r: seq<Employee>)
    ensures forall k | 0 <= k < |r| :: r[k] in es && Shown(r[k], f)
    ensures forall k | 0 <= k < |es| && Shown(es[k], f) :: es[k] in r
    ensures IsSubsequence(r, es)
  {
    Filter(es, (e: Employee) => Matches(e, f))
  }

  /** With no search text, no department and a ceiling no salary exceeds,
      every employee is listed. */
  lemma NoFiltersListsEveryone(es: seq<Employee>, f: Filters)
    requires f.search == "" && f.department == ""
    requires forall k | 0 <= k < |es| :: es[k].salary.None? || es[k].salary.value <= f.salaryCeiling
    ensures FilterEmployees(es, f) == es
  {
    forall k | 0 <= k < |es| ensures Matches(es[k], f) {
      assert OccursAt(ToLower(f.search), ToLower(es[k].fullName), 0);
    }
  }

  /** Raising the salary ceiling never hides an employee. */
  lemma RaisingCeilingKeepsEmployees(es: seq<Employee>, f: Filters, ceiling: int)
    requires f.salaryCeiling <= ceiling
    ensures forall k | 0 <= k < |FilterEmployees(es, f)| ::
              FilterEmployees(es, f)[k] in FilterEmployees(es, f.(salaryCeiling := ceiling))
  {
    var g := f.(salaryCeiling := ceiling);
    forall k | 0 <= k < |FilterEmployees(es, f)| ensures FilterEmployees(es, f)[k] in FilterEmployees(es, g) {
      var e := FilterEmployees(es, f)[k];
      assert Shown(e, g);
      var i :| 0 <= i < |es| && es[i] == e;
    }
  }

  /** `x` is the department of some entry of `es`. */
  predicate DepartmentOf(es: seq<Employee>, x: string) {
    exists i | 0 <= i < |es| :: es[i].department == x
  }

  /** The department drop-down: the distinct non-empty departments,
      ascending, each the department of some loaded employee. */
  function DepartmentOptions(es: seq<Employee>): (options: seq<string>)
    ensures StrictlySorted(options)
    ensures forall k | 0 <= k < |options| :: options[k] != "" && DepartmentOf(es, options[k])
    ensures forall k | 0 <= k < |es| && es[k].department != "" :: es[k].department in options
  {
    var ds := seq(|es|, k requires 0 <= k < |es| => es[k].department);
    var options := SelectOptions(ds);
    assert forall k | 0 <= k < |es| :: es[k].department == ds[k];
    DepartmentsOfOptions(es, ds, options);
    options
  }

  lemma DepartmentsOfOptions(es: seq<Employee>, ds: seq<string>, options: seq<string>)
    requires |ds| == |es| && forall k | 0 <= k < |es| :: ds[k] == es[k].department
    requires forall k | 0 <= k < |options| :: options[k] in ds
    ensures forall k | 0 <= k < |options| :: DepartmentOf(es, options[k])
  {
    forall k | 0 <= k < |options| ensures DepartmentOf(es, options[k]) {
      var i :| 0 <= i < |ds| && ds[i] == options[k];
      assert 0 <= i < |es| && es[i].department == options[k];
    }
  }

  /** The page's state. */
  datatype View = View(filters: Filters, page: int)

  const InitialView := View(Filters("", "", InitialSalaryCeiling), 1)

  datatype Input = Search(text: string) | PickDepartment(name: string) | SlideSalary(ceiling: int)
                 | Previous | Next

  function Filtered(es: seq<Employee>, v: View): seq<Employee> {
    FilterEmployees(es, v.filters)
  }

  /** The state after an input. Changing any filter sends the page back to 1
      (the effect on the three filters). */
  function Step(es: seq<Employee>, v: View, i: Input): View {
    match i
    case Search(text) => View(v.filters.(search := text), 1)
    case PickDepartment(name) => View(v.filters.(department := name), 1)
    case SlideSalary(ceiling) => View(v.filters.(salaryCeiling := ceiling), 1)
    case Previous => v.(page := PreviousPage(v.page))
    case Next => v.(page := NextPage(v.page, TotalPages(|Filtered(es, v)|)))
  }

  /** The current page is one of the filtered list's pages. */
  predicate PageValid(es: seq<Employee>, v: View) {
    InRange(v.page, TotalPages(|Filtered(es, v)|))
  }

  /** The page starts valid, every input keeps it valid, and any filter
      change returns to page 1. */
  lemma StepKeepsPageValid(es: seq<Employee>, v: View, i: Input)
    requires PageValid(es, v)
    ensures PageValid(es, InitialView)
    ensures PageValid(es, Step(es, v, i))
    ensures !i.Previous? && !i.Next? ==> Step(es, v, i).page == 1
  {
    NavigationStaysInRange(v.page, TotalPages(|Filtered(es, v)|));
  }

  /** The employees shown: at most five, and some whenever the filters leave any. */
  function Visible(es: seq<Employee>, v: View): (shown: seq<Employee>)
    ensures |shown| <= ItemsPerPage
    ensures forall k | 0 <= k < |shown| :: Shown(shown[k], v.filters)
    ensures PageValid(es, v) && |Filtered(es, v)| > 0 ==> |shown| > 0
    ensures v.page >= 1 ==> forall k | 0 <= k < |shown| ::
              (v.page - 1) * ItemsPerPage + k < |Filtered(es, v)| && shown[k] == Filtered(es, v)[(v.page - 1) * ItemsPerPage + k]
  {
    Page(Filtered(es, v), v.page)
  }
}
