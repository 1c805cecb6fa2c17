/** The student's study-notes tabs (src/components/student/NotesViewer.tsx): one tab per
    year 1 to 4, each listing the fetched notes of that year in fetched order. */
module NotesViewer {
  import opened Wrappers
  import Seqs
  import NotesManager

  type Note = NotesManager.Note

  /** The years that have a tab. */
  const TabYears: seq<int> := [1, 2, 3, 4]

  function YearIs(year: int): Note -> bool {
    (n: Note) => n.year == year
  }

  /** `getNotesByYear(year)`: `notes.filter(n => n.year === year)`. */
  function NotesByYear(notes: seq<Note>, year: int): (r: seq<Note>)
    ensures forall i :: 0 <= i < |r| ==> r[i].year == year
  {
    Seqs.Filter(notes, YearIs(year))
  }

  /** A tab lists exactly the notes of its year, in fetched order. */
  lemma NotesByYearSpec(notes: seq<Note>, year: int, n: Note)
    ensures n in NotesByYear(notes, year) <==> n in notes && n.year == year
    ensures Seqs.IsSubsequence(NotesByYear(notes, year), notes)
  {
    Seqs.FilterMembership(notes, YearIs(year), n);
    Seqs.FilterIsSubsequence(notes, YearIs(year));
  }

  /** A note whose year is not 1 to 4 is in no tab. */
  lemma OutOfRangeInNoTab(notes: seq<Note>, n: Note)
    requires n.year !in TabYears
    ensures forall k :: 0 <= k < |TabYears| ==> n !in NotesByYear(notes, TabYears[k])
  {
    forall k | 0 <= k < |TabYears| ensures n !in NotesByYear(notes, TabYears[k]) {
      NotesByYearSpec(notes, TabYears[k], n);
    }
  }

  /** Every fetched note of years 1 to 4 is in exactly one tab. */
  lemma InExactlyOneTab(notes: seq<Note>, n: Note)
    requires n in notes && n.year in TabYears
    ensures forall k :: 0 <= k < |TabYears| ==> (n in NotesByYear(notes, TabYears[k]) <==> TabYears[k] == n.year)
  {
    forall k | 0 <= k < |TabYears| ensures n in NotesByYear(notes, TabYears[k]) <==> TabYears[k] == n.year {
      NotesByYearSpec(notes, TabYears[k], n);
    }
  }

  /** The heading's ordinal word: 1, 2 and 3 by name, anything else "Fourth". */
  function YearWord(year: int): (w: string)
    ensures year == 1 <==> w == "First"
    ensures year == 2 <==> w == "Second"
    ensures year == 3 <==> w == "Third"
    ensures year !in {1, 2, 3} <==> w == "Fourth"
  {
    if year == 1 then "First" else if year == 2 then "Second" else if year == 3 then "Third" else "Fourth"
  }

  /** `{year} Year Notes` heading of a tab. */
  function Heading(year: int): string {
    YearWord(year) + " Year Notes"
  }

  /** The four tabs get four different headings. */
  lemma HeadingsDistinct()
    ensures forall i, j :: 0 <= i < j < |TabYears| ==> Heading(TabYears[i]) != Heading(TabYears[j])
  {
    forall i, j | 0 <= i < j < |TabYears| ensures Heading(TabYears[i]) != Heading(TabYears[j]) {
      var a := YearWord(TabYears[i]);
      var b := YearWord(TabYears[j]);
      assert a != b;
      if |a| == |b| {
        assert a[0] != b[0];
      }
      assert Heading(TabYears[i])[..|a|] == a;
    }
  }

  /** `note.description || "No description provided."`. */
  function DescriptionText(description: Option<string>): (r: string)
    ensures r != ""
    ensures description.Some? && description.value != "" ==> r == description.value
    ensures description.GetOr("") == "" ==> r == "No description provided."
  {
    if description.Some? && description.value != "" then description.value else "No description provided."
  }
}
