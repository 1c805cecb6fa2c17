/** The admin's CSV student import (src/components/admin/BulkStudentImport.tsx): the file
    is split into lines and comma-separated fields, the header row is checked against the
    eight required column names, each well-formed data row becomes a student record, and
    the records are inserted in batches of 100 while success and error counts accumulate.
    The insert call is the backend's: here `insertSucceeds(k)` says whether batch `k`
    came back without an error. */
module BulkStudentImport {
  import opened Wrappers
  import opened Text
  import Seqs

  const RequiredHeaders: seq<string> :=
    ["full_name", "email", "phone_number", "date_of_birth", "year", "semester", "branch", "section"]

  const BatchSize: nat := 100

  /** The cells of the example row of the downloadable template. */
  const TemplateValues: seq<string> :=
    ["John Doe", "john@example.com", "1234567890", "2003-01-15", "2", "4", "CSE", "A1"]

  /** The template file offered by `downloadTemplate`, written cell by cell: the header
      line `full_name,email,...,section`, the example line `John Doe,...,A1`, each
      followed by a line feed. */
  const Template: string := Join(RequiredHeaders, ",") + "\n" + Join(TemplateValues, ",") + "\n"

  /** A field of a student record: the trimmed text of a cell, or, for `year` and
      `semester`, the result of `parseInt` (`None` is NaN). */
  datatype FieldValue = Cell(text: string) | Number(value: Option<int>)

  type StudentRecord = map<string, FieldValue>

  /** What one upload produced. `Failed` is the catch path (an input with no non-blank
      line makes `lines[0]` undefined); `InvalidFormat` is the header check. */
  datatype ImportOutcome =
    | NoFile
    | Failed
    | InvalidFormat
    | Imported(successCount: nat, errorCount: nat, batches: seq<seq<StudentRecord>>)

  predicate NotBlank(line: string) { Trim(line) != "" }

  /** `text.split('\n').filter(line => line.trim())`. */
  function NonBlankLines(text: string): (r: seq<string>)
    ensures forall i :: 0 <= i < |r| ==> !AllWhitespace(r[i])
  {
    var r := Seqs.Filter(Split(text, '\n'), NotBlank);
    assert forall i :: 0 <= i < |r| ==> !AllWhitespace(r[i]) by {
      forall i | 0 <= i < |r| ensures !AllWhitespace(r[i]) {
        TrimEmptyIffBlank(r[i]);
      }
    }
    r
  }

  /** `line.split(',').map(v => v.trim())`: used for the header row and for data rows. */
  function Fields(line: string): (r: seq<string>)
    ensures |r| == |Split(line, ',')|
    ensures forall i :: 0 <= i < |r| ==> r[i] == Trim(Split(line, ',')[i])
  {
    var parts := Split(line, ',');
    seq(|parts|, i requires 0 <= i < |parts| => Trim(parts[i]))
  }

  /** `requiredHeaders.every(h => headers.includes(h))`. */
  predicate HasAllHeaders(headers: seq<string>) {
    forall i :: 0 <= i < |RequiredHeaders| ==> RequiredHeaders[i] in headers
  }

  /** The object filled by `headers.forEach((header, index) => student[header] = values[index])`:
      headers are assigned in order, so a repeated header keeps its last value. */
  function Assign(headers: seq<string>, values: seq<string>): (m: StudentRecord)
    requires |values| == |headers|
    ensures forall k :: 0 <= k < |headers| ==> headers[k] in m
    ensures forall h :: h in m ==> h in headers
  {
    if headers == [] then map[]
    else
      var n := |headers| - 1;
      Assign(headers[..n], values[..n])[headers[n] := Cell(values[n])]
  }

  /** `parseInt(student[key])`; an absent key would be `parseInt(undefined)`, which is NaN. */
  function ParsedNumber(m: StudentRecord, key: string): FieldValue {
    if key in m && m[key].Cell? then Number(ParseInt(m[key].text)) else Number(None)
  }

  /** A kept row: the header-to-field object with `year` and `semester` replaced by
      their `parseInt` values. */
  function RowRecord(headers: seq<string>, values: seq<string>): StudentRecord
    requires |values| == |headers|
  {
    var m := Assign(headers, values);
    m["year" := ParsedNumber(m, "year")]["semester" := ParsedNumber(m, "semester")]
  }

  /** The records the row loop builds from the data lines (every line after the header):
      a line is kept only when its field count equals the header count. */
  function ParsedRows(headers: seq<string>, dataLines: seq<string>): seq<StudentRecord> {
    if dataLines == [] then []
    else
      var n := |dataLines| - 1;
      var values := Fields(dataLines[n]);
      ParsedRows(headers, dataLines[..n]) +
      (if |values| == |headers| then [RowRecord(headers, values)] else [])
  }

  /** What parsing decides before any insert. */
  datatype Parse = NoLines | BadHeaders | Rows(headers: seq<string>, students: seq<StudentRecord>)

  function ParseFile(text: string): Parse {
    var lines := NonBlankLines(text);
    if lines == [] then NoLines
    else
      var headers := Fields(lines[0]);
      if !HasAllHeaders(headers) then BadHeaders
      else Rows(headers, ParsedRows(headers, lines[1..]))
  }

  /** Consecutive slices of at most `BatchSize` rows: `students.slice(i, i + batchSize)`
      for `i = 0, 100, 200, ...`. */
  function Batches(s: seq<StudentRecord>): seq<seq<StudentRecord>> {
    if s == [] then []
    else if |s| <= BatchSize then [s]
    else [s[..BatchSize]] + Batches(s[BatchSize..])
  }

  function Flatten<T>(bs: seq<seq<T>>): seq<T> {
    if bs == [] then [] else Flatten(bs[..|bs| - 1]) + bs[|bs| - 1]
  }

  /** The rows counted as imported: the lengths of the batches whose insert succeeded. */
  function SucceededRows<T>(bs: seq<seq<T>>, insertSucceeds: nat -> bool): nat {
    if bs == [] then 0
    else
      var n := |bs| - 1;
      SucceededRows(bs[..n], insertSucceeds) + (if insertSucceeds(n) then |bs[n]| else 0)
  }

  function Min(a: int, b: int): int { if a <= b then a else b }

  /** The batches cover every parsed row exactly once, in order, each batch holds between
      1 and 100 rows, and every batch but the last holds exactly 100. */
  lemma {:induction false} BatchesPartition(s: seq<StudentRecord>)
    ensures Flatten(Batches(s)) == s
    ensures forall k :: 0 <= k < |Batches(s)| ==> 1 <= |Batches(s)[k]| <= BatchSize
    ensures forall k :: 0 <= k < |Batches(s)| - 1 ==> |Batches(s)[k]| == BatchSize
  {
    if |s| > BatchSize {
      BatchesPartition(s[BatchSize..]);
      FlattenCons(s[..BatchSize], Batches(s[BatchSize..]));
      assert s[..BatchSize] + s[BatchSize..] == s;
    } else if s != [] {
      assert Flatten([s]) == Flatten([]) + s;
    }
  }

  lemma {:induction false} FlattenCons<T>(b: seq<T>, bs: seq<seq<T>>)
    ensures Flatten([b] + bs) == b + Flatten(bs)
    decreases |bs|
  {
    if bs == [] {
      assert Flatten([b]) == Flatten([]) + b;
    } else {
      var n := |bs| - 1;
      assert ([b] + bs)[..n + 1] == [b] + bs[..n];
      FlattenCons(b, bs[..n]);
    }
  }

  /** The batch loop: `for (i = 0; i < students.length; i += batchSize)` inserting
      `students.slice(i, i + batchSize)` and adding its length to `successCount` or to
      `errorCount`. */
  method InsertBatches(students: seq<StudentRecord>, insertSucceeds: nat -> bool)
    returns (successCount: nat, errorCount: nat, batches: seq<seq<StudentRecord>>)
    ensures batches == Batches(students)
    ensures successCount == SucceededRows(batches, insertSucceeds)
    ensures successCount + errorCount == |students|
  {
    successCount, errorCount, batches := 0, 0, [];
    var i := 0;
    while i < |students|
      invariant i == BatchSize * |batches|
      invariant Batches(students) == batches + Batches(students[Min(i, |students|)..])
      invariant Flatten(batches) == students[..Min(i, |students|)]
      invariant successCount == SucceededRows(batches, insertSucceeds)
      invariant successCount + errorCount == Min(i, |students|)
    {
      var batch := students[i..Min(i + BatchSize, |students|)];
      BatchLoopStep(students, batches, i, insertSucceeds);
      if insertSucceeds(|batches|) {
        successCount := successCount + |batch|;
      } else {
        errorCount := errorCount + |batch|;
      }
      batches := batches + [batch];
      i := i + BatchSize;
    }
  }

  /** One turn of the batch loop keeps its invariants. */
  lemma BatchLoopStep(s: seq<StudentRecord>, batches: seq<seq<StudentRecord>>, i: nat, insertSucceeds: nat -> bool)
    requires i < |s| && i == BatchSize * |batches|
    requires Batches(s) == batches + Batches(s[i..])
    requires Flatten(batches) == s[..i]
    ensures var j := Min(i + BatchSize, |s|);
            var b := s[i..j];
            Batches(s) == (batches + [b]) + Batches(s[j..]) &&
            Flatten(batches + [b]) == s[..j] &&
            SucceededRows(batches + [b], insertSucceeds) ==
              SucceededRows(batches, insertSucceeds) + (if insertSucceeds(|batches|) then |b| else 0)
  {
    BatchStep(s, i);
    SnocFacts(batches, s[i..Min(i + BatchSize, |s|)], insertSucceeds);
  }

  lemma BatchStep(s: seq<StudentRecord>, i: nat)
    requires i < |s|
    ensures Batches(s[i..]) == [s[i..Min(i + BatchSize, |s|)]] + Batches(s[Min(i + BatchSize, |s|)..])
    ensures s[..i] + s[i..Min(i + BatchSize, |s|)] == s[..Min(i + BatchSize, |s|)]
  {
    if |s[i..]| > BatchSize {
      assert s[i..][BatchSize..] == s[i + BatchSize..];
      assert s[i..][..BatchSize] == s[i..i + BatchSize];
    } else {
      assert Min(i + BatchSize, |s|) == |s|;
      assert s[i..|s|] == s[i..];
      assert s[|s|..] == [];
    }
  }

  lemma SnocFacts<T>(bs: seq<seq<T>>, b: seq<T>, insertSucceeds: nat -> bool)
    ensures Flatten(bs + [b]) == Flatten(bs) + b
    ensures SucceededRows(bs + [b], insertSucceeds) ==
            SucceededRows(bs, insertSucceeds) + (if insertSucceeds(|bs|) then |b| else 0)
  {
    assert (bs + [b])[..|bs|] == bs;
  }

  /** The row loop: `for (let i = 1; i < lines.length; i++)`, skipping a line whose field
      count differs from the header count and pushing the record of every other line. */
  method CollectStudents(headers: seq<string>, lines: seq<string>) returns (students: seq<StudentRecord>)
    requires |lines| >= 1
    ensures students == ParsedRows(headers, lines[1..])
  {
    students := [];
    var i := 1;
    while i < |lines|
      invariant 1 <= i <= |lines|
      invariant students == ParsedRows(headers, lines[1..i])
    {
      var values := Fields(lines[i]);
      ghost var seg := lines[1..i + 1];
      assert seg[..|seg| - 1] == lines[1..i];
      assert seg[|seg| - 1] == lines[i];
      assert ParsedRows(headers, seg) ==
             ParsedRows(headers, lines[1..i]) + (if |values| == |headers| then [RowRecord(headers, values)] else []);
      if |values| == |headers| {
        students := students + [RowRecord(headers, values)];
      }
      i := i + 1;
    }
    assert lines[1..i] == lines[1..];
  }

  /** `handleFileUpload`: no file does nothing; otherwise the file is parsed and, when the
      header row is acceptable, every parsed row is sent in batches. */
  method HandleFileUpload(file: Option<string>, insertSucceeds: nat -> bool) returns (outcome: ImportOutcome)
    ensures file == None <==> outcome == NoFile
    ensures file.Some? ==> (outcome == Failed <==> ParseFile(file.value) == NoLines)
    ensures file.Some? ==> (outcome == InvalidFormat <==> ParseFile(file.value) == BadHeaders)
    ensures outcome.Imported? ==>
              file.Some? && ParseFile(file.value).Rows? &&
              outcome.batches == Batches(ParseFile(file.value).students) &&
              outcome.successCount == SucceededRows(outcome.batches, insertSucceeds) &&
              outcome.successCount + outcome.errorCount == |ParseFile(file.value).students|
  {
    if file == None {
      return NoFile;
    }
    var lines := NonBlankLines(file.value);
    if lines == [] {
      return Failed;
    }
    var headers := Fields(lines[0]);
    if !HasAllHeaders(headers) {
      return InvalidFormat;
    }
    var students := CollectStudents(headers, lines);
    var successCount, errorCount, batches := InsertBatches(students, insertSucceeds);
    outcome := Imported(successCount, errorCount, batches);
  }

  // ---------------------------------------------------------------------------
  // Properties of the parser

  /** The row filter: a line is kept when its comma-split field count is the header count. */
  function FitsHeaders(headers: seq<string>): string -> bool {
    (l: string) => |Split(l, ',')| == |headers|
  }

  /** The record of each of `lines`, in order. */
  function RecordsOf(headers: seq<string>, lines: seq<string>): (r: seq<StudentRecord>)
    requires forall i :: 0 <= i < |lines| ==> |Split(lines[i], ',')| == |headers|
    ensures |r| == |lines|
  {
    if lines == [] then []
    else
      var n := |lines| - 1;
      RecordsOf(headers, lines[..n]) + [RowRecord(headers, Fields(lines[n]))]
  }

  /** The row loop keeps exactly the data lines whose field count equals the header count,
      in file order, and makes each into its record: it is a filter followed by a map. */
  lemma {:induction false} ParsedRowsKeep(headers: seq<string>, dataLines: seq<string>)
    ensures ParsedRows(headers, dataLines) ==
            RecordsOf(headers, Seqs.Filter(dataLines, FitsHeaders(headers)))
  {
    if dataLines != [] {
      var n := |dataLines| - 1;
      var fits := FitsHeaders(headers);
      var pre, last := dataLines[..n], dataLines[n];
      var kept := Seqs.Filter(pre, fits);
      assert Seqs.Filter(dataLines, fits) == kept + (if fits(last) then [last] else []) by {
        assert pre + [last] == dataLines;
        FilterSnoc(pre, last, fits);
      }
      ParsedRowsKeep(headers, pre);
      if fits(last) {
        assert ParsedRows(headers, dataLines) ==
               ParsedRows(headers, pre) + [RowRecord(headers, Fields(last))];
        RecordsSnoc(headers, kept, last);
      } else {
        assert ParsedRows(headers, dataLines) == ParsedRows(headers, pre) + [];
        assert kept + [] == kept;
      }
    }
  }

  lemma RecordsSnoc(headers: seq<string>, lines: seq<string>, last: string)
    requires forall i :: 0 <= i < |lines| ==> |Split(lines[i], ',')| == |headers|
    requires |Split(last, ',')| == |headers|
    ensures RecordsOf(headers, lines + [last]) ==
            RecordsOf(headers, lines) + [RowRecord(headers, Fields(last))]
  {
    assert (lines + [last])[..|lines|] == lines;
  }

  lemma {:induction false} FilterSnoc<T>(s: seq<T>, x: T, p: T -> bool)
    ensures Seqs.Filter(s + [x], p) == Seqs.Filter(s, p) + (if p(x) then [x] else [])
  {
    if s == [] {
      assert [] + [x] == [x];
    } else {
      assert (s + [x])[1..] == s[1..] + [x];
      FilterSnoc(s[1..], x, p);
    }
  }

  /** With distinct headers, a kept row maps each header to the trimmed field at the same
      position; `year` and `semester` hold `parseInt` of theirs. */
  lemma {:induction false} RowRecordFields(headers: seq<string>, values: seq<string>, k: nat)
    requires |values| == |headers| && k < |headers|
    requires forall i, j :: 0 <= i < j < |headers| ==> headers[i] != headers[j]
    ensures var r := RowRecord(headers, values);
            headers[k] in r &&
            r[headers[k]] == if headers[k] == "year" || headers[k] == "semester"
                             then Number(ParseInt(values[k])) else Cell(values[k])
  {
    AssignAt(headers, values, k);
  }

  lemma {:induction false} AssignAt(headers: seq<string>, values: seq<string>, k: nat)
    requires |values| == |headers| && k < |headers|
    requires forall i, j :: 0 <= i < j < |headers| ==> headers[i] != headers[j]
    ensures Assign(headers, values)[headers[k]] == Cell(values[k])
  {
    var n := |headers| - 1;
    if k < n {
      assert headers[..n][k] == headers[k];
      assert headers[n] != headers[k];
      AssignAt(headers[..n], values[..n], k);
    }
  }

  /** An input without a non-blank line is refused before any insert. */
  lemma BlankInputFails(text: string)
    requires forall i :: 0 <= i < |text| ==> IsWhitespace(text[i])
    ensures ParseFile(text) == NoLines
  {
    var parts := Split(text, '\n');
    JoinSplit(text, '\n');
    forall k | 0 <= k < |parts| ensures !NotBlank(parts[k]) {
      JoinedPartBlank(parts, k);
      TrimEmptyIffBlank(parts[k]);
    }
    NoneKept(parts, NotBlank);
  }

  lemma {:induction false} JoinedPartBlank(parts: seq<string>, k: nat)
    requires k < |parts|
    requires AllWhitespace(Join(parts, "\n"))
    ensures AllWhitespace(parts[k])
  {
    if |parts| > 1 {
      var rest := Join(parts[1..], "\n");
      assert Join(parts, "\n") == parts[0] + "\n" + rest;
      if k == 0 {
        forall i | 0 <= i < |parts[0]| ensures IsWhitespace(parts[0][i]) {
          assert parts[0][i] == Join(parts, "\n")[i];
        }
      } else {
        forall i | 0 <= i < |rest| ensures IsWhitespace(rest[i]) {
          assert rest[i] == Join(parts, "\n")[|parts[0]| + 1 + i];
        }
        JoinedPartBlank(parts[1..], k - 1);
      }
    }
  }

  lemma {:induction false} NoneKept<T>(s: seq<T>, p: T -> bool)
    requires forall i :: 0 <= i < |s| ==> !p(s[i])
    ensures Seqs.Filter(s, p) == []
  {
    if s != [] {
      NoneKept(s[1..], p);
    }
  }

  /** An input whose header row lacks a required column inserts nothing. */
  lemma MissingHeaderRejected(text: string, h: string)
    requires h in RequiredHeaders
    requires NonBlankLines(text) != [] && h !in Fields(NonBlankLines(text)[0])
    ensures ParseFile(text) == BadHeaders
  {
  }

  // ---------------------------------------------------------------------------
  // The template parses to exactly one student.

  /** A cell that `split(',')` and `trim` give back unchanged and that cannot end a line. */
  predicate PlainCell(c: string) {
    ',' !in c && '\n' !in c && c != [] && !IsWhitespace(c[0]) && !IsWhitespace(c[|c| - 1])
  }

  predicate PlainCells(cells: seq<string>) {
    forall k :: 0 <= k < |cells| ==> PlainCell(cells[k])
  }

  lemma TrimUnchanged(s: string)
    requires s != [] && !IsWhitespace(s[0]) && !IsWhitespace(s[|s| - 1])
    ensures Trim(s) == s
  {
  }

  /** A line made of plain cells joined by commas has those cells as its fields. */
  lemma FieldsOfJoin(cells: seq<string>)
    requires |cells| >= 1 && PlainCells(cells)
    ensures Fields(Join(cells, ",")) == cells
  {
    SplitJoin(cells, ',');
    var f := Fields(Join(cells, ","));
    assert |f| == |cells|;
    forall k | 0 <= k < |cells| ensures f[k] == cells[k] {
      TrimUnchanged(cells[k]);
    }
  }

  /** ... and is a single, non-blank line. */
  lemma JoinedCellsLine(cells: seq<string>)
    requires |cells| >= 1 && PlainCells(cells)
    ensures '\n' !in Join(cells, ",") && NotBlank(Join(cells, ","))
  {
    JoinAvoids(cells, ",", '\n');
    var line := Join(cells, ",");
    assert line[0] == cells[0][0];
    TrimEmptyIffBlank(line);
  }

  /** Two newline-free lines, each followed by a line feed, split into those lines and a
      final empty piece. */
  lemma SplitTwoLines(h: string, v: string)
    requires '\n' !in h && '\n' !in v
    ensures Split(h + "\n" + v + "\n", '\n') == [h, v, ""]
  {
    var ls := [h, v, ""];
    assert ls[1..][1..] == [""];
    assert Join(ls[1..], "\n") == v + "\n" + "";
    assert h + "\n" + v + "\n" == Join(ls, "\n");
    SplitJoin(ls, '\n');
  }

  /** Keeping the non-blank lines of two non-blank lines and an empty one. */
  lemma FilterTwoLines(h: string, v: string)
    requires NotBlank(h) && NotBlank(v)
    ensures Seqs.Filter([h, v, ""], NotBlank) == [h, v]
  {
    var ls := [h, v, ""];
    assert !NotBlank("");
    assert ls[1..][1..] == [""];
    assert Seqs.Filter([""], NotBlank) == [];
    assert Seqs.Filter(ls[1..], NotBlank) == [v];
  }

  /** Two non-blank lines, each followed by a line feed, are the file's two lines. */
  lemma TwoLines(h: string, v: string)
    requires '\n' !in h && '\n' !in v && NotBlank(h) && NotBlank(v)
    ensures NonBlankLines(h + "\n" + v + "\n") == [h, v]
  {
    SplitTwoLines(h, v);
    FilterTwoLines(h, v);
  }

  /** A file of a header line and one data line, both of plain cells and of equal width,
      whose header line has every required column, parses to exactly the one record of
      that data line. */
  lemma OneRowFile(headers: seq<string>, values: seq<string>)
    requires |headers| == |values| >= 1
    requires PlainCells(headers) && PlainCells(values) && HasAllHeaders(headers)
    ensures ParseFile(Join(headers, ",") + "\n" + Join(values, ",") + "\n") ==
            Rows(headers, [RowRecord(headers, values)])
  {
    var h, v := Join(headers, ","), Join(values, ",");
    FieldsOfJoin(headers);
    FieldsOfJoin(values);
    JoinedCellsLine(headers);
    JoinedCellsLine(values);
    TwoLines(h, v);
    var lines := [h, v];
    assert lines[1..] == [v];
    assert [v][..0] == [];
    assert ParsedRows(headers, [v]) == [RowRecord(headers, values)];
  }

  lemma TemplateHeadersPlain()
    ensures PlainCells(RequiredHeaders)
  {
    assert PlainCell("full_name") && PlainCell("email");
    assert PlainCell("phone_number") && PlainCell("date_of_birth");
    assert PlainCell("year") && PlainCell("semester");
    assert PlainCell("branch") && PlainCell("section");
  }

  lemma TemplateValuesPlain()
    ensures PlainCells(TemplateValues)
  {
    assert PlainCell("John Doe") && PlainCell("john@example.com");
    assert PlainCell("1234567890") && PlainCell("2003-01-15");
    assert PlainCell("2") && PlainCell("4") && PlainCell("CSE") && PlainCell("A1");
  }

  /** The downloadable template passes the header check and parses to exactly one
      student. */
  lemma TemplateParsesToOneStudent()
    ensures ParseFile(Template) == Rows(RequiredHeaders, [RowRecord(RequiredHeaders, TemplateValues)])
  {
    TemplateHeadersPlain();
    TemplateValuesPlain();
    assert HasAllHeaders(RequiredHeaders);
    OneRowFile(RequiredHeaders, TemplateValues);
  }

  /** That student's `year` is 2, its `semester` 4, and each other required column holds
      the example cell under it. */
  lemma TemplateStudent()
    ensures var r := RowRecord(RequiredHeaders, TemplateValues);
            r["year"] == Number(Some(2)) && r["semester"] == Number(Some(4)) &&
            forall k :: 0 <= k < |RequiredHeaders| && k != 4 && k != 5 ==>
              RequiredHeaders[k] in r && r[RequiredHeaders[k]] == Cell(TemplateValues[k])
  {
    forall k | 0 <= k < |RequiredHeaders|
      ensures RequiredHeaders[k] in RowRecord(RequiredHeaders, TemplateValues)
      ensures var r := RowRecord(RequiredHeaders, TemplateValues);
              r[RequiredHeaders[k]] == if k == 4 || k == 5 then Number(ParseInt(TemplateValues[k]))
                                       else Cell(TemplateValues[k])
    {
      RowRecordFields(RequiredHeaders, TemplateValues, k);
    }
    assert RequiredHeaders[4] == "year" && RequiredHeaders[5] == "semester";
    ParseIntNatToString(2);
    ParseIntNatToString(4);
    assert NatToString(2) == "2" && NatToString(4) == "4";
  }
}
