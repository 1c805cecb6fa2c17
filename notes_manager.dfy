/** The admin's study-notes page (src/components/admin/NotesManager.tsx): the listed
    notes are the fetched ones that match the search term and the year filter; the
    upload dialog accepts only PDF and Word files, refuses to submit without a file or a
    year, stores the file's extension as its type, and resets after a save. The upload,
    the signed-in user and the insert's answer are parameters. */
module NotesManager {
  import opened Wrappers
  import opened Text
  import opened Uploads
  import Seqs

  /** A `notes` row; `uploaderName` is the joined `profiles.name`. */
  datatype Note = Note(
    id: string, title: string, description: Option<string>, year: int,
    fileUrl: string, fileType: string, uploaderName: Option<string>)

  const AllYears: string := "all"

  /** The `filteredNotes` callback: the search matches the title or the description, and
      the year filter is "all" or `note.year.toString()`. */
  predicate Listed(n: Note, term: string, filterYear: string, lower: string -> string) {
    SearchHit(n.title, n.description, term, lower) &&
    (filterYear == AllYears || IntToString(n.year) == filterYear)
  }

  function ListedTest(term: string, filterYear: string, lower: string -> string): Note -> bool {
    (n: Note) => Listed(n, term, filterYear, lower)
  }

  /** `filteredNotes`. */
  function FilteredNotes(notes: seq<Note>, term: string, filterYear: string, lower: string -> string): (r: seq<Note>)
    ensures forall i :: 0 <= i < |r| ==> Listed(r[i], term, filterYear, lower)
  {
    Seqs.Filter(notes, ListedTest(term, filterYear, lower))
  }

  /** A note is listed exactly when it was fetched and passes both tests, and the list
      keeps the fetched order. */
  lemma FilteredNotesSpec(notes: seq<Note>, term: string, filterYear: string, lower: string -> string, n: Note)
    ensures n in FilteredNotes(notes, term, filterYear, lower) <==> n in notes && Listed(n, term, filterYear, lower)
    ensures Seqs.IsSubsequence(FilteredNotes(notes, term, filterYear, lower), notes)
  {
    Seqs.FilterMembership(notes, ListedTest(term, filterYear, lower), n);
    Seqs.FilterIsSubsequence(notes, ListedTest(term, filterYear, lower));
  }

  /** Choosing a year in the filter keeps exactly the notes of that year (among those the
      search matches); a negative year never prints as digits. */
  lemma YearFilterExact(n: Note, term: string, year: nat, lower: string -> string)
    ensures Listed(n, term, NatToString(year), lower) <==>
            SearchHit(n.title, n.description, term, lower) && n.year == year
  {
    assert NatToString(year) != AllYears by {
      assert IsDigit(NatToString(year)[0]);
    }
    if n.year >= 0 {
      NatToStringInjective(n.year, year);
    } else {
      assert IntToString(n.year)[0] == '-';
      assert IsDigit(NatToString(year)[0]);
    }
  }

  /** `note.profiles?.name || 'Unknown'`. */
  function UploaderLabel(n: Note): (r: string)
    ensures r != ""
    ensures n.uploaderName.Some? && n.uploaderName.value != "" ==> r == n.uploaderName.value
  {
    if n.uploaderName.Some? && n.uploaderName.value != "" then n.uploaderName.value else "Unknown"
  }

  // ---------------------------------------------------------------------------
  // The upload dialog

  const ValidTypes: seq<string> := [
    "application/pdf",
    "application/vnd.openxmlformats-officedocument.wordprocessingml.document",
    "application/msword"
  ]

  /** `handleFileChange`: the chosen file becomes the selected one only when it is one of
      the three document types; otherwise the earlier choice stays. */
  function ChooseFile(current: Option<File>, selected: Option<File>): (r: Option<File>)
    ensures selected.Some? && selected.value.mimeType in ValidTypes ==> r == selected
    ensures !(selected.Some? && selected.value.mimeType in ValidTypes) ==> r == current
    ensures r.Some? ==> r.value.mimeType in ValidTypes || r == current
  {
    if selected.Some? && selected.value.mimeType in ValidTypes then selected else current
  }

  /** An image, say, is never taken as the note's file. */
  lemma ImageRejected(current: Option<File>, name: string, size: nat)
    ensures ChooseFile(current, Some(File(name, "image/png", size))) == current
  {
    assert "image/png" != ValidTypes[0] && "image/png" != ValidTypes[1] && "image/png" != ValidTypes[2] by {
      assert "image/png"[0] != 'a';
    }
  }

  /** `file.name.split('.').pop() || 'unknown'`. */
  function FileType(name: string): (t: string)
    ensures t != ""
    ensures t != "unknown" ==> '.' !in t && exists k :: SuffixAfterSeparator(name, t, '.', k)
    ensures name == "" || name[|name| - 1] == '.' ==> t == "unknown"
    ensures name != "" && name[|name| - 1] != '.' ==>
              '.' !in t && exists k :: SuffixAfterSeparator(name, t, '.', k)
    ensures '.' !in name && name != "" ==> t == name
  {
    LastPieceIsSuffix(name, '.');
    var piece := LastPiece(name, '.');
    EmptyLastPiece(name, piece);
    if piece == "" then "unknown" else piece
  }

  /** The text after the last '.' is empty exactly when the name is empty or ends in '.'. */
  lemma EmptyLastPiece(name: string, piece: string)
    requires '.' !in piece && exists k :: SuffixAfterSeparator(name, piece, '.', k)
    ensures piece == "" <==> name == "" || name[|name| - 1] == '.'
  {
    var k :| SuffixAfterSeparator(name, piece, '.', k);
    if piece != "" {
      assert name[|name| - 1] == piece[|piece| - 1];
    }
  }

  /** A name ending in ".pdf" is stored with type "pdf". */
  lemma FileTypeOfPdf(stem: string)
    ensures FileType(stem + ".pdf") == "pdf"
  {
    assert stem + ".pdf" == stem + ['.'] + "pdf";
    LastPieceAfter(stem, '.', "pdf");
  }

  datatype NoteForm = NoteForm(title: string, description: string, year: string)

  const EmptyForm: NoteForm := NoteForm("", "", "")

  /** The row `handleSubmit` inserts; `year` is `parseInt(formData.year)` (NaN as `None`). */
  datatype NoteRow = NoteRow(
    title: string, description: string, year: Option<int>,
    fileUrl: string, fileType: string, uploadedBy: string)

  datatype SubmitOutcome =
    | NoFile            // "Please select a file to upload": nothing uploaded
    | NoYear            // "Please select a year": nothing uploaded
    | Failed            // the upload, the user lookup or the insert failed
    | Saved(row: NoteRow)

  /** The dialog's state after a submit: the outcome, the form and the chosen file. */
  datatype AfterSubmit = AfterSubmit(outcome: SubmitOutcome, form: NoteForm, file: Option<File>)

  /** `handleSubmit`. `upload` is the stored file's URL, `user` the signed-in user's id
      and `insertOk` whether the insert succeeded. */
  function Submit(form: NoteForm, file: Option<File>, upload: Option<string>, user: Option<string>,
                  insertOk: bool): (r: AfterSubmit)
    ensures file.None? ==> r == AfterSubmit(NoFile, form, file)
    ensures file.Some? && form.year == "" ==> r == AfterSubmit(NoYear, form, file)
    ensures r.outcome.Saved? <==>
              file.Some? && form.year != "" && upload.Some? && user.Some? && insertOk
    ensures r.outcome.Saved? ==>
              r.form == EmptyForm && r.file.None? &&
              r.outcome.row == NoteRow(form.title, form.description, ParseInt(form.year),
                                       upload.value, FileType(file.value.name), user.value)
    ensures !r.outcome.Saved? ==> r.form == form && r.file == file
  {
    if file.None? then AfterSubmit(NoFile, form, file)
    else if form.year == "" then AfterSubmit(NoYear, form, file)
    else if upload.None? || user.None? || !insertOk then AfterSubmit(Failed, form, file)
    else
      var row := NoteRow(form.title, form.description, ParseInt(form.year),
                         upload.value, FileType(file.value.name), user.value);
      AfterSubmit(Saved(row), EmptyForm, None)
  }

  /** A year chosen from the dialog's select ("1" to "4") is stored as that number. */
  lemma SavedYearParsed(form: NoteForm, file: File, url: string, user: string, year: nat)
    requires 1 <= year <= 4 && form.year == NatToString(year)
    ensures Submit(form, Some(file), Some(url), Some(user), true).outcome.row.year == Some(year)
  {
    ParseIntNatToString(year);
  }
}
