/** CSV report building (src/components/admin/ReportsGeneration.tsx): for the chosen
    report type, a fixed header line and then one line per fetched row, each appended to
    the content string in a loop. The fetched rows are inputs, with their dates already
    formatted; the download itself is not modelled. */
module ReportsGeneration {
  import opened Wrappers
  import opened Text
  import Seqs

  /** An `events` row with its nested `event_attendance` list (absent as `None`). */
  datatype EventRow = EventRow(title: string, date: string, attendance: Option<seq<string>>)

  /** A `placements` row; the `company_name` column may be null (`None`). */
  datatype PlacementRow = PlacementRow(title: string, companyName: Option<string>, status: string, createdDate: string)

  /** An `event_ratings` row; `eventTitle` is `events?.title`. */
  datatype RatingRow = RatingRow(rating: int, review: Option<string>, eventTitle: Option<string>)

  /** A `clubs` row with its nested `club_memberships` list. */
  datatype ClubRow = ClubRow(name: string, description: Option<string>, memberships: Option<seq<string>>)

  /** The four queries' results; `None` is a null `data`. */
  datatype Fetched = Fetched(
    events: Option<seq<EventRow>>, placements: Option<seq<PlacementRow>>,
    ratings: Option<seq<RatingRow>>, clubs: Option<seq<ClubRow>>)

  const AttendanceHeader: string := "Event,Date,Student Count"
  const PlacementsHeader: string := "Title,Company,Status,Created Date"
  const RatingsHeader: string := "Event,Rating,Review"
  const ClubsHeader: string := "Club Name,Member Count,Description"

  /** `"${s}"`: wrapped in quotes, nothing escaped. */
  function Quoted(s: string): (r: string)
    ensures |r| == |s| + 2 && r[0] == '"' && r[|r| - 1] == '"' && r[1..|r| - 1] == s
  {
    "\"" + s + "\""
  }

  /** `list?.length || 0`. */
  function LengthOr0(list: Option<seq<string>>): (n: nat)
    ensures list.None? ==> n == 0
    ensures list.Some? ==> n == |list.value|
  {
    if list.Some? then |list.value| else 0
  }

  /** `${x}` of a nullable column: a null is written as the text "null". */
  function Interpolated(s: Option<string>): string { s.GetOr("null") }

  /** `x || ''`. */
  function OrEmpty(s: Option<string>): string { s.GetOr("") }

  /** `events?.title || 'Unknown'`. */
  function EventTitle(t: Option<string>): (r: string)
    ensures r == "Unknown" <==> t.GetOr("") == "" || t == Some("Unknown")
  {
    if t.Some? && t.value != "" then t.value else "Unknown"
  }

  function AttendanceText(e: EventRow): string {
    Quoted(e.title) + "," + e.date + "," + NatToString(LengthOr0(e.attendance))
  }

  function PlacementText(p: PlacementRow): string {
    Quoted(p.title) + "," + Quoted(Interpolated(p.companyName)) + "," + p.status + "," + p.createdDate
  }

  function RatingText(r: RatingRow): string {
    Quoted(EventTitle(r.eventTitle)) + "," + IntToString(r.rating) + "," + Quoted(OrEmpty(r.review))
  }

  function ClubText(c: ClubRow): string {
    Quoted(c.name) + "," + NatToString(LengthOr0(c.memberships)) + "," + Quoted(OrEmpty(c.description))
  }

  /** Each line followed by "\n". */
  function Terminated(lines: seq<string>): string {
    if lines == [] then "" else Terminated(lines[..|lines| - 1]) + lines[|lines| - 1] + "\n"
  }

  /** One `forEach` of `generateReport`: the header, then `csvContent += line + "\n"` for
      each fetched row; a null result leaves the header alone. */
  method Render<T>(header: string, rows: Option<seq<T>>, text: T -> string) returns (content: string)
    ensures content == Terminated([header] + Seqs.Map(rows.GetOr([]), text))
  {
    content := header + "\n";
    assert content == Terminated([header]);
    if rows.None? {
      assert Seqs.Map(rows.GetOr([]), text) == [];
      return;
    }
    var list := rows.value;
    var k := 0;
    while k < |list|
      invariant 0 <= k <= |list|
      invariant content == Terminated([header] + Seqs.Map(list[..k], text))
    {
      var lines := [header] + Seqs.Map(list[..k], text);
      assert list[..k + 1] == list[..k] + [list[k]];
      Seqs.MapAppend(list[..k], [list[k]], text);
      assert [header] + Seqs.Map(list[..k + 1], text) == lines + [text(list[k])];
      content := content + text(list[k]) + "\n";
      k := k + 1;
    }
    assert list[..k] == list;
  }

  /** `generateReport`'s content and file name for each report type; any other type
      leaves both empty. */
  method GenerateReport(reportType: string, f: Fetched) returns (content: string, fileName: string)
    ensures reportType == "attendance" ==>
              content == Terminated([AttendanceHeader] + Seqs.Map(f.events.GetOr([]), AttendanceText)) &&
              fileName == "attendance_report.csv"
    ensures reportType == "placements" ==>
              content == Terminated([PlacementsHeader] + Seqs.Map(f.placements.GetOr([]), PlacementText)) &&
              fileName == "placements_report.csv"
    ensures reportType == "ratings" ==>
              content == Terminated([RatingsHeader] + Seqs.Map(f.ratings.GetOr([]), RatingText)) &&
              fileName == "ratings_report.csv"
    ensures reportType == "clubs" ==>
              content == Terminated([ClubsHeader] + Seqs.Map(f.clubs.GetOr([]), ClubText)) &&
              fileName == "clubs_report.csv"
    ensures reportType !in {"attendance", "placements", "ratings", "clubs"} ==> content == "" && fileName == ""
  {
    content := "";
    fileName := "";
    if reportType == "attendance" {
      content := Render(AttendanceHeader, f.events, AttendanceText);
      fileName := "attendance_report.csv";
    } else if reportType == "placements" {
      content := Render(PlacementsHeader, f.placements, PlacementText);
      fileName := "placements_report.csv";
    } else if reportType == "ratings" {
      content := Render(RatingsHeader, f.ratings, RatingText);
      fileName := "ratings_report.csv";
    } else if reportType == "clubs" {
      content := Render(ClubsHeader, f.clubs, ClubText);
      fileName := "clubs_report.csv";
    }
  }

  // ---------------------------------------------------------------------------
  // Line structure

  lemma {:induction false} TerminatedCons(first: string, rest: seq<string>)
    ensures Terminated([first] + rest) == first + "\n" + Terminated(rest)
    decreases |rest|
  {
    if rest != [] {
      var n := |rest| - 1;
      assert ([first] + rest)[..n + 1] == [first] + rest[..n];
      TerminatedCons(first, rest[..n]);
    }
  }

  /** Splitting newline-free lines, each terminated, on "\n" gives the lines back and one
      empty piece after the last terminator. */
  lemma {:induction false} SplitTerminated(lines: seq<string>)
    requires forall i :: 0 <= i < |lines| ==> '\n' !in lines[i]
    ensures Split(Terminated(lines), '\n') == lines + [""]
  {
    if lines != [] {
      TerminatedCons(lines[0], lines[1..]);
      assert [lines[0]] + lines[1..] == lines;
      SplitTerminated(lines[1..]);
      SplitWithSeparator(lines[0], '\n', Terminated(lines[1..]));
    }
  }

  /** A report over rows whose texts hold no newline has exactly the header line and one
      line per row: rows + 1 lines, each ended by "\n". */
  lemma ReportLines<T>(header: string, rows: seq<T>, text: T -> string)
    requires '\n' !in header
    requires forall i :: 0 <= i < |rows| ==> '\n' !in text(rows[i])
    ensures var pieces := Split(Terminated([header] + Seqs.Map(rows, text)), '\n');
            |pieces| == |rows| + 2 && pieces[0] == header && pieces[|rows| + 1] == "" &&
            forall i :: 0 <= i < |rows| ==> pieces[i + 1] == text(rows[i])
  {
    SplitTerminated([header] + Seqs.Map(rows, text));
  }

  lemma NatToStringNoNewline(n: nat)
    ensures '\n' !in NatToString(n)
  {
  }

  /** An attendance line has no newline when the title and date have none. */
  lemma AttendanceTextOneLine(e: EventRow)
    requires '\n' !in e.title && '\n' !in e.date
    ensures '\n' !in AttendanceText(e)
  {
    NatToStringNoNewline(LengthOr0(e.attendance));
  }

  lemma PlacementTextOneLine(p: PlacementRow)
    requires '\n' !in p.title && '\n' !in p.companyName.GetOr("") && '\n' !in p.status && '\n' !in p.createdDate
    ensures '\n' !in PlacementText(p)
  {
  }

  /** A placement without a company is exported with the company cell `"null"`, not an
      empty cell. */
  lemma NullCompanyPrinted(p: PlacementRow)
    requires p.companyName.None?
    ensures PlacementText(p)[|p.title| + 3..|p.title| + 9] == "\"null\""
  {
    assert PlacementText(p) == Quoted(p.title) + "," + "\"null\"" + "," + p.status + "," + p.createdDate;
  }

  lemma RatingTextOneLine(r: RatingRow)
    requires '\n' !in r.eventTitle.GetOr("") && '\n' !in OrEmpty(r.review)
    ensures '\n' !in RatingText(r)
  {
    NatToStringNoNewline(if r.rating < 0 then -r.rating else r.rating);
  }

  lemma ClubTextOneLine(c: ClubRow)
    requires '\n' !in c.name && '\n' !in OrEmpty(c.description)
    ensures '\n' !in ClubText(c)
  {
    NatToStringNoNewline(LengthOr0(c.memberships));
  }

  /** The attendance report of newline-free events has one line per event after the
      header. */
  lemma AttendanceReportLines(events: seq<EventRow>)
    requires forall i :: 0 <= i < |events| ==> '\n' !in events[i].title && '\n' !in events[i].date
    ensures |Split(Terminated([AttendanceHeader] + Seqs.Map(events, AttendanceText)), '\n')| == |events| + 2
  {
    forall i | 0 <= i < |events| ensures '\n' !in AttendanceText(events[i]) {
      AttendanceTextOneLine(events[i]);
    }
    ReportLines(AttendanceHeader, events, AttendanceText);
  }

  /** Quotes and newlines inside a field are written through unescaped: a title holding a
      newline puts one inside its row's text, which then spans two lines. */
  lemma FieldsNotEscaped(e: EventRow)
    requires '\n' in e.title
    ensures '\n' in AttendanceText(e)
  {
    var i :| 0 <= i < |e.title| && e.title[i] == '\n';
    assert AttendanceText(e)[i + 1] == '\n';
  }
}
