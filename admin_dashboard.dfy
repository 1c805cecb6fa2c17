/** The admin dashboard (src/pages/AdminDashboard.tsx): the student table filtered by
    year, semester, branch and section, each dimension switched off by the sentinel
    "all"; the attendance count kept per event; and the fixed fields of the rows the
    admin inserts. */
module AdminDashboard {
  import opened Wrappers
  import opened Text
  import Seqs

  datatype Student = Student(
    id: string, fullName: string, email: string,
    year: int, semester: int, branch: string, section: string)

  /** The four `<Select>` values; each is "all" or the chosen value. */
  datatype Filters = Filters(year: string, semester: string, branch: string, section: string)

  const AllValue: string := "all"

  datatype Dimension = Year | Semester | Branch | Section

  function Chosen(f: Filters, d: Dimension): string {
    match d
    case Year => f.year
    case Semester => f.semester
    case Branch => f.branch
    case Section => f.section
  }

  /** The test one dimension applies when it is not "all": year and semester compare the
      student's number with `parseInt` of the choice (NaN matches nothing), branch and
      section compare strings. */
  predicate MatchesOn(d: Dimension, v: string, s: Student) {
    match d
    case Year => ParseInt(v) == Some(s.year)
    case Semester => ParseInt(v) == Some(s.semester)
    case Branch => s.branch == v
    case Section => s.section == v
  }

  /** The filter callback of one dimension. */
  function Test(d: Dimension, v: string): Student -> bool {
    s => MatchesOn(d, v, s)
  }

  /** One `if (filters.x !== "all") filtered = filtered.filter(...)` step. */
  function Step(list: seq<Student>, f: Filters, d: Dimension): seq<Student> {
    if Chosen(f, d) != AllValue then Seqs.Filter(list, Test(d, Chosen(f, d))) else list
  }

  /** `applyFilters`: the four steps in the source's order. */
  function ApplyFilters(students: seq<Student>, f: Filters): seq<Student> {
    Step(Step(Step(Step(students, f, Year), f, Semester), f, Branch), f, Section)
  }

  /** A student passes dimension `d` when it is "all" or matches the choice. */
  predicate Passes(f: Filters, d: Dimension, s: Student) {
    Chosen(f, d) == AllValue || MatchesOn(d, Chosen(f, d), s)
  }

  /** What a student must satisfy to be listed: every dimension that is not "all". */
  predicate Matches(f: Filters, s: Student) {
    Passes(f, Year, s) && Passes(f, Semester, s) && Passes(f, Branch, s) && Passes(f, Section, s)
  }

  function Keep(f: Filters, d: Dimension): Student -> bool {
    s => Passes(f, d, s)
  }

  function MatchesAll(f: Filters): Student -> bool {
    s => Matches(f, s)
  }

  /** Each step, "all" or not, is a filter by that dimension's pass test. */
  lemma StepIsFilter(list: seq<Student>, f: Filters, d: Dimension)
    ensures Step(list, f, d) == Seqs.Filter(list, Keep(f, d))
  {
    if Chosen(f, d) == AllValue {
      Seqs.FilterAll(list, Keep(f, d));
    } else {
      Seqs.FilterCongruent(list, Test(d, Chosen(f, d)), Keep(f, d));
    }
  }

  /** The four steps together filter by the conjunction of the dimensions. */
  lemma ApplyFiltersIsConjunction(students: seq<Student>, f: Filters)
    ensures ApplyFilters(students, f) == Seqs.Filter(students, MatchesAll(f))
  {
    var y := Seqs.Filter(students, Keep(f, Year));
    StepIsFilter(students, f, Year);
    StepIsFilter(y, f, Semester);
    var ys := Seqs.Filter(students, (s: Student) => Passes(f, Year, s) && Passes(f, Semester, s));
    Seqs.FilterThen(students, Keep(f, Year), Keep(f, Semester), (s: Student) => Passes(f, Year, s) && Passes(f, Semester, s));
    StepIsFilter(ys, f, Branch);
    var ysb := Seqs.Filter(students, (s: Student) => Passes(f, Year, s) && Passes(f, Semester, s) && Passes(f, Branch, s));
    Seqs.FilterThen(students, (s: Student) => Passes(f, Year, s) && Passes(f, Semester, s), Keep(f, Branch),
                    (s: Student) => Passes(f, Year, s) && Passes(f, Semester, s) && Passes(f, Branch, s));
    StepIsFilter(ysb, f, Section);
    Seqs.FilterThen(students, (s: Student) => Passes(f, Year, s) && Passes(f, Semester, s) && Passes(f, Branch, s),
                    Keep(f, Section), MatchesAll(f));
  }

  /** A student is listed exactly when it is in the fetched list and matches every
      dimension that is not "all". */
  lemma ListedIff(students: seq<Student>, f: Filters, s: Student)
    ensures s in ApplyFilters(students, f) <==> s in students && Matches(f, s)
  {
    ApplyFiltersIsConjunction(students, f);
    Seqs.FilterMembership(students, MatchesAll(f), s);
  }

  /** The listed students are the fetched ones with some left out, in the same order. */
  lemma ListedInOrder(students: seq<Student>, f: Filters)
    ensures Seqs.IsSubsequence(ApplyFilters(students, f), students)
  {
    ApplyFiltersIsConjunction(students, f);
    Seqs.FilterIsSubsequence(students, MatchesAll(f));
  }

  /** Filtering the listed students again with the same choices changes nothing. */
  lemma ApplyFiltersIdempotent(students: seq<Student>, f: Filters)
    ensures ApplyFilters(ApplyFilters(students, f), f) == ApplyFilters(students, f)
  {
    ApplyFiltersIsConjunction(students, f);
    ApplyFiltersIsConjunction(ApplyFilters(students, f), f);
    Seqs.FilterIdempotent(students, MatchesAll(f));
  }

  /** With every dimension at "all" the whole list is shown. */
  lemma AllShowsEverything(students: seq<Student>)
    ensures ApplyFilters(students, Filters(AllValue, AllValue, AllValue, AllValue)) == students
  {
  }

  /** The dimensions can be applied in any order. */
  lemma DimensionsCommute(students: seq<Student>, f: Filters, d: Dimension, e: Dimension)
    ensures Step(Step(students, f, d), f, e) == Step(Step(students, f, e), f, d)
  {
    StepIsFilter(students, f, d);
    StepIsFilter(students, f, e);
    StepIsFilter(Step(students, f, d), f, e);
    StepIsFilter(Step(students, f, e), f, d);
    Seqs.FilterCommute(students, Keep(f, d), Keep(f, e));
  }

  /** Choosing a year keeps exactly the students of that year. */
  lemma YearChoice(students: seq<Student>, year: nat, s: Student)
    ensures var f := Filters(NatToString(year), AllValue, AllValue, AllValue);
            s in ApplyFilters(students, f) <==> s in students && s.year == year
  {
    var f := Filters(NatToString(year), AllValue, AllValue, AllValue);
    ParseIntNatToString(year);
    assert NatToString(year) != AllValue by {
      assert IsDigit(NatToString(year)[0]);
    }
    ListedIff(students, f, s);
  }

  /** The total shown above the table. */
  function TotalLabelCount(students: seq<Student>, f: Filters): (n: nat)
    ensures n <= |students|
  {
    |ApplyFilters(students, f)|
  }

  // ---------------------------------------------------------------------------
  // Attendance counts

  /** The loop in `fetchData`: one entry per fetched event, holding the backend's exact
      count or 0 when the count came back null. `countOf` is that backend answer; a
      failed event fetch (`eventsData` null) leaves the counts unset. */
  method AttendanceCounts(eventIds: Option<seq<string>>, countOf: string -> Option<nat>)
    returns (counts: Option<map<string, nat>>)
    ensures eventIds.None? <==> counts.None?
    ensures counts.Some? ==> counts.value.Keys == set i | 0 <= i < |eventIds.value| :: eventIds.value[i]
    ensures counts.Some? ==> forall id :: id in counts.value ==> counts.value[id] == countOf(id).GetOr(0)
  {
    if eventIds.None? {
      return None;
    }
    var ids := eventIds.value;
    var m: map<string, nat> := map[];
    var k := 0;
    while k < |ids|
      invariant 0 <= k <= |ids|
      invariant m.Keys == set i | 0 <= i < k :: ids[i]
      invariant forall id :: id in m ==> m[id] == countOf(id).GetOr(0)
    {
      m := m[ids[k] := countOf(ids[k]).GetOr(0)];
      k := k + 1;
    }
    counts := Some(m);
  }

  // ---------------------------------------------------------------------------
  // Insert payloads

  datatype EventForm = EventForm(
    title: string, description: string, clubId: string, dateTime: string,
    location: string, googleFormUrl: string)

  datatype EventRow = EventRow(
    title: string, description: string, clubId: string, dateTime: string,
    location: string, googleFormUrl: string, status: string)

  datatype PlacementForm = PlacementForm(
    title: string, description: string, companyName: string, googleFormUrl: string)

  datatype PlacementRow = PlacementRow(
    title: string, description: string, companyName: string, googleFormUrl: string,
    eligibilitySemesters: seq<int>, status: string)

  /** `handleCreateEvent`'s insert: the form's fields, and status 'active'. */
  function NewEvent(form: EventForm): (row: EventRow)
    ensures row.status == "active"
    ensures row.title == form.title && row.description == form.description
    ensures row.clubId == form.clubId && row.dateTime == form.dateTime
    ensures row.location == form.location && row.googleFormUrl == form.googleFormUrl
  {
    EventRow(form.title, form.description, form.clubId, form.dateTime, form.location,
             form.googleFormUrl, "active")
  }

  /** `handleCreatePlacement`'s insert: the form's fields, status 'active', and the
      placement is open to semesters 7 and 8. */
  function NewPlacement(form: PlacementForm): (row: PlacementRow)
    ensures row.status == "active"
    ensures forall s :: s in row.eligibilitySemesters <==> s == 7 || s == 8
    ensures row.title == form.title && row.description == form.description
    ensures row.companyName == form.companyName && row.googleFormUrl == form.googleFormUrl
  {
    PlacementRow(form.title, form.description, form.companyName, form.googleFormUrl, [7, 8], "active")
  }
}
