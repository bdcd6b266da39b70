/**
 * The import half of ImportExportService: the CSV import of a student roster with its
 * error ledger and counters. A file is modelled by its text: the import reads the lines
 * BufferedReader.readLine yields, and the error report is the text it writes.
 */
module ImportExport {
  import opened Wrappers
  import opened Text
  import opened Domain
  import opened Validation
  import opened Csv
  import Seqs
  import Students
  import Reports
  import Settings

  const NotEnoughColumns := "Not enough columns"
  const DuplicateStudentId := "Duplicate student ID"
  const ReadFailed := "Failed to read CSV file."

  const ErrorHeader: seq<string> := ["row_number", "student_id", "error_message", "raw_row"]

  /** One line of the error ledger: the data-row number, the id ("" when the row was too
      short to have one), the reason and the raw line. */
  datatype ErrorEntry = ErrorEntry(rowNumber: nat, studentId: string, message: string, rawRow: string)

  /** ImportResult; the error report is the text of the file written, present exactly
      when some row was skipped. */
  datatype ImportResult = ImportResult(
    totalRows: nat,
    importedCount: nat,
    skippedCount: nat,
    duplicateCount: nat,
    errorReport: Option<string>)

  // ---- The row helpers ----

  /** looksLikeHeader: the first cell, lower-cased, mentions "student" or "id". */
  predicate LooksLikeHeader(cols: seq<string>) {
    cols != [] && (Contains(ToLower(cols[0]), "student") || Contains(ToLower(cols[0]), "id"))
  }

  /** get: the trimmed cell, or "" past the end of the row. */
  function Get(cols: seq<string>, i: nat): (r: string)
    ensures i >= |cols| ==> r == ""
    ensures i < |cols| ==> r == Trim(cols[i])
  {
    if i >= |cols| then "" else Trim(cols[i])
  }

  /** normalizeStatus: "active" and "inactive" in any case become "Active" and "Inactive";
      anything else is only trimmed. */
  function NormalizeStatus(s: string): (r: string)
    ensures ToLower(Trim(s)) == "active" ==> r == "Active"
    ensures ToLower(Trim(s)) == "inactive" ==> r == "Inactive"
    ensures ToLower(Trim(s)) != "active" && ToLower(Trim(s)) != "inactive" ==> r == Trim(s)
  {
    var x := ToLower(Trim(s));
    if x == "active" then "Active"
    else if x == "inactive" then "Inactive"
    else Trim(s)
  }

  /** Normalizing a normalized status changes nothing. */
  lemma NormalizeStatusIdempotent(s: string)
    ensures NormalizeStatus(NormalizeStatus(s)) == NormalizeStatus(s)
  {
    var x := ToLower(Trim(s));
    if x == "active" {
      CanonicalStatus("Active", "active");
    } else if x == "inactive" {
      CanonicalStatus("Inactive", "inactive");
    } else {
      TrimIdempotent(s);
    }
  }

  lemma CanonicalStatus(status: string, lower: string)
    requires status == "Active" || status == "Inactive"
    requires lower == if status == "Active" then "active" else "inactive"
    ensures NormalizeStatus(status) == status
  {
    TrimUnpadded(status);
    assert ToLower(status) == lower by {
      assert LowerChar(status[0]) == lower[0];
      assert forall i | 1 <= i < |status| :: LowerChar(status[i]) == status[i] == lower[i];
    }
  }

  /** The status a stored record gets: "Active" for a blank cell, else the normalized one. */
  function StatusFor(status: string): (r: string)
    ensures StatusOk(status) ==> r == "Active" || r == "Inactive"
  {
    if IsBlank(status) then "Active" else NormalizeStatus(status)
  }

  /** The nine cells of a row of eight or more, trimmed; status is "" on a row of eight. */
  function FieldsOf(cols: seq<string>): RowFields {
    RowFields(Get(cols, 0), Get(cols, 1), Get(cols, 2), Get(cols, 3), Get(cols, 4),
              Get(cols, 5), Get(cols, 6), Get(cols, 7), if |cols| >= 9 then Get(cols, 8) else "")
  }

  /** The record built from a row that passed validateRow; a blank date means today. */
  function BuildStudent(f: RowFields, p: Parsers, today: Date): (s: Student)
    requires RowValid(f, p)
    ensures Validate(s).None?
    ensures Students.TableAccepts(s)
    ensures s.studentId == f.studentId
  {
    var s := Student(
      f.studentId, f.fullName, f.programme,
      p.parseInt(f.levelText).value, p.parseDouble(f.gpaText).value,
      f.email, f.phone,
      Some(if IsBlank(f.dateText) then today else p.parseDate(f.dateText).value),
      StatusFor(f.status));
    RowRulesImplyStudentRules(f, p, s);
    s
  }

  // ---- The import loop, one line at a time ----

  /** The import's running state: the header flag, the counters, the known ids, the ledger
      and the records added to the store so far. */
  datatype Progress = Progress(
    firstLine: bool,
    totalRows: nat,
    imported: nat,
    skipped: nat,
    duplicates: nat,
    ids: set<string>,
    errors: seq<ErrorEntry>,
    added: seq<Student>)

  function Start(ids: set<string>): Progress {
    Progress(true, 0, 0, 0, 0, ids, [], [])
  }

  /** line.trim().isEmpty(). */
  predicate BlankLine(line: string) {
    Trim(line) == []
  }

  /** What the loop body makes of one line, before it looks at the known ids. */
  datatype Verdict =
    | Skip                                   // blank: not a row at all
    | HeaderLine                             // the header, on the first non-blank line
    | TooShort                               // fewer than eight cells
    | Refused(id: string, message: string)   // validateRow's first failing rule
    | Fit(student: Student)                  // valid: the record to add unless its id is known

  /** The checks of the loop body that do not depend on the known ids. */
  function Examine(firstLine: bool, line: string, p: Parsers, today: Date): (v: Verdict)
    ensures v.Skip? <==> BlankLine(line)
    ensures v.HeaderLine? <==> !BlankLine(line) && firstLine && LooksLikeHeader(Parse(line))
    ensures v.TooShort? ==> |Parse(line)| < 8
    ensures v.Refused? ==> v.message in RowMessages && v.id == Get(Parse(line), 0)
    ensures v.Fit? ==> Validate(v.student).None? && Students.TableAccepts(v.student)
    ensures v.Fit? ==> v.student.studentId == Get(Parse(line), 0)
  {
    if BlankLine(line) then Skip
    else
      var cols := Parse(line);
      if firstLine && LooksLikeHeader(cols) then HeaderLine
      else if |cols| < 8 then TooShort
      else RowVerdict(cols, p, today)
  }

  /** The verdict on a row of eight or more cells. */
  function RowVerdict(cols: seq<string>, p: Parsers, today: Date): (v: Verdict)
    requires |cols| >= 8
    ensures v.Refused? || v.Fit?
  {
    var f := FieldsOf(cols);
    match ValidateRow(f, p)
    case Some(message) => Refused(f.studentId, message)
    case None => Fit(BuildStudent(f, p, today))
  }

  /** A line examiner: the verdict on a line, given whether it is the first non-blank one. */
  type Examiner = (bool, string) -> Verdict

  /** The import's examiner. */
  function ImportExaminer(p: Parsers, today: Date): Examiner {
    (firstLine: bool, line: string) => Examine(firstLine, line, p, today)
  }

  /** What the lemmas below need to know of an examiner, all of it proved of Examine:
      blank lines are skipped and only the first non-blank line can be the header, */
  ghost predicate SortsLines(examine: Examiner) {
    forall firstLine: bool, line: string ::
      && (examine(firstLine, line).Skip? <==> BlankLine(line))
      && (examine(firstLine, line).HeaderLine? <==> !BlankLine(line) && firstLine && LooksLikeHeader(Parse(line)))
  }

  /** a refused row carries one of validateRow's messages, */
  ghost predicate RefusesWithRowMessages(examine: Examiner) {
    forall firstLine: bool, line: string ::
      examine(firstLine, line).Refused? ==> examine(firstLine, line).message in RowMessages
  }

  /** and a record it lets through passes validate and the table's CHECK constraints. */
  ghost predicate FitsTable(examine: Examiner) {
    forall firstLine: bool, line: string ::
      examine(firstLine, line).Fit? ==>
        StudentValid(examine(firstLine, line).student) && Students.TableAccepts(examine(firstLine, line).student)
  }

  lemma ExaminerSound(p: Parsers, today: Date)
    ensures SortsLines(ImportExaminer(p, today))
    ensures RefusesWithRowMessages(ImportExaminer(p, today))
    ensures FitsTable(ImportExaminer(p, today))
  {
  }

  /** The loop body for one line, with addStudent succeeding on every record that gets
      that far (ImportStudentsFromCsv proves that it does). */
  function Step(pr: Progress, line: string, examine: Examiner): Progress {
    Advance(pr, line, examine(pr.firstLine, line))
  }

  /** The state after a line the examiner gave the verdict v: a row that is neither
      blank nor the header is counted, then recorded. */
  function Advance(pr: Progress, line: string, v: Verdict): Progress {
    match v
    case Skip => pr
    case HeaderLine => pr.(firstLine := false)
    case _ => Record(pr.(firstLine := false, totalRows := pr.totalRows + 1), line, v)
  }

  /** What a counted row adds: a ledger entry, or the record and its id. */
  function Record(pr: Progress, line: string, v: Verdict): Progress {
    match v
    case TooShort =>
      pr.(skipped := pr.skipped + 1, errors := pr.errors + [ErrorEntry(pr.totalRows, "", NotEnoughColumns, line)])
    case Refused(id, message) =>
      pr.(skipped := pr.skipped + 1, errors := pr.errors + [ErrorEntry(pr.totalRows, id, message, line)])
    case Fit(s) =>
      if s.studentId in pr.ids then
        pr.(duplicates := pr.duplicates + 1, skipped := pr.skipped + 1,
            errors := pr.errors + [ErrorEntry(pr.totalRows, s.studentId, DuplicateStudentId, line)])
      else
        pr.(imported := pr.imported + 1, ids := pr.ids + {s.studentId}, added := pr.added + [s])
    case _ => pr
  }

  /** The state after the given lines, starting from the ids already stored. */
  function Run(lines: seq<string>, examine: Examiner, ids: set<string>): Progress {
    if lines == [] then Start(ids)
    else Step(Run(lines[..|lines| - 1], examine, ids), lines[|lines| - 1], examine)
  }

  /** The ids of a table. */
  function IdSet(rows: seq<Student>): (ids: set<string>)
    ensures forall id :: id in ids <==> id in Students.Ids(rows)
  {
    set id | id in Students.Ids(rows)
  }

  /** The ledger as the error report writes it. */
  function ErrorFields(e: ErrorEntry): seq<string> {
    [IntToString(e.rowNumber), e.studentId, e.message, e.rawRow]
  }

  /** The text of import_error_report: the header, then one row per ledger entry. */
  function ErrorReport(errors: seq<ErrorEntry>): string {
    Document(ErrorHeader, errors, ErrorFields)
  }

  /** What importStudentsFromCsv returns once every line is read. */
  function ResultOf(pr: Progress): (r: ImportResult)
    ensures r.errorReport.Some? <==> pr.errors != []
  {
    ImportResult(pr.totalRows, pr.imported, pr.skipped, pr.duplicates,
                 if pr.errors == [] then None else Some(ErrorReport(pr.errors)))
  }

  // ---- What every run of the import guarantees ----

  /** The counters agree: every counted row is imported or skipped, duplicates are among
      the skipped, the ledger has one entry per skipped row, and one record is added per
      imported row. */
  lemma {:induction false} RunCounters(lines: seq<string>, examine: Examiner, ids: set<string>)
    ensures var r := Run(lines, examine, ids);
      && r.imported + r.skipped == r.totalRows
      && r.duplicates <= r.skipped
      && |r.errors| == r.skipped
      && |r.added| == r.imported
  {
    if lines != [] {
      RunCounters(lines[..|lines| - 1], examine, ids);
    }
  }

  /** The ids added so far were not stored, are pairwise distinct, and are exactly the
      ids learnt. */
  ghost predicate AddedNew(pr: Progress, ids: set<string>) {
    && (forall id :: id in pr.ids <==> id in ids || id in Students.Ids(pr.added))
    && Seqs.Distinct(Students.Ids(pr.added))
    && (forall i | 0 <= i < |pr.added| :: pr.added[i].studentId !in ids)
  }

  /** The records added so far pass validate and the table's CHECK constraints. */
  ghost predicate AddedFit(pr: Progress) {
    forall i | 0 <= i < |pr.added| :: StudentValid(pr.added[i]) && Students.TableAccepts(pr.added[i])
  }

  lemma StepNew(pr: Progress, line: string, examine: Examiner, ids: set<string>)
    requires AddedNew(pr, ids)
    ensures AddedNew(Step(pr, line, examine), ids)
  {
    var v := examine(pr.firstLine, line);
    var r := Step(pr, line, examine);
    if v.Fit? && v.student.studentId !in pr.ids {
      var q := pr.(firstLine := false, totalRows := pr.totalRows + 1);
      AdvanceCounted(pr, line, v);
      RecordNew(q, line, v.student);
      AddedNewSnoc(pr, r, v.student, ids);
    } else {
      StepAddsNothing(pr, line, examine);
    }
  }

  lemma AddedNewSnoc(pr: Progress, r: Progress, s: Student, ids: set<string>)
    requires AddedNew(pr, ids) && s.studentId !in pr.ids
    requires r.added == pr.added + [s] && r.ids == pr.ids + {s.studentId}
    ensures AddedNew(r, ids)
  {
    Students.IdsSnoc(pr.added, s);
  }

  /** A line that is not a new record leaves the records and ids as they were. */
  lemma StepAddsNothing(pr: Progress, line: string, examine: Examiner)
    requires var v := examine(pr.firstLine, line); !(v.Fit? && v.student.studentId !in pr.ids)
    ensures Step(pr, line, examine).added == pr.added && Step(pr, line, examine).ids == pr.ids
  {
  }

  lemma StepFit(pr: Progress, line: string, examine: Examiner)
    requires FitsTable(examine) && AddedFit(pr)
    ensures AddedFit(Step(pr, line, examine))
  {
    var v := examine(pr.firstLine, line);
    if v.Fit? && v.student.studentId !in pr.ids {
      assert Step(pr, line, examine).added == pr.added + [v.student];
    }
  }

  /** The records the import adds pass validate and the table's CHECK constraints, have
      ids that are new and pairwise distinct, and are exactly the ids it learns. */
  lemma {:induction false} RunAdded(lines: seq<string>, examine: Examiner, ids: set<string>)
    requires FitsTable(examine)
    ensures AddedNew(Run(lines, examine, ids), ids) && AddedFit(Run(lines, examine, ids))
  {
    if lines != [] {
      var prev := Run(lines[..|lines| - 1], examine, ids);
      RunAdded(lines[..|lines| - 1], examine, ids);
      StepNew(prev, lines[|lines| - 1], examine, ids);
      StepFit(prev, lines[|lines| - 1], examine);
    }
  }

  lemma IdsAppend(a: seq<Student>, b: seq<Student>)
    ensures Students.Ids(a + b) == Students.Ids(a) + Students.Ids(b)
  {
  }

  /** Importing into a valid table leaves a valid table: the students table can never
      refuse a record the import hands to addStudent. */
  lemma ImportKeepsTableValid(rows: seq<Student>, lines: seq<string>, examine: Examiner)
    requires FitsTable(examine)
    requires Students.TableValid(rows)
    ensures Students.TableValid(rows + Run(lines, examine, IdSet(rows)).added)
  {
    var added := Run(lines, examine, IdSet(rows)).added;
    RunAdded(lines, examine, IdSet(rows));
    IdsAppend(rows, added);
    var all := rows + added;
    var ids := Students.Ids(all);
    forall i, j | 0 <= i < j < |ids| ensures ids[i] != ids[j] {
      if j >= |rows| && i < |rows| {
        assert ids[i] in IdSet(rows);
        assert ids[j] == added[j - |rows|].studentId;
      } else if i >= |rows| {
        assert ids[i] == Students.Ids(added)[i - |rows|] && ids[j] == Students.Ids(added)[j - |rows|];
      } else {
        assert ids[i] == Students.Ids(rows)[i] && ids[j] == Students.Ids(rows)[j];
      }
    }
    forall i | 0 <= i < |all| ensures Students.TableAccepts(all[i]) {
      if i >= |rows| {
        assert all[i] == added[i - |rows|];
      }
    }
  }

  /** The lines that are not blank. */
  function NonBlank(lines: seq<string>): seq<string> {
    Seqs.Filter(lines, (l: string) => !BlankLine(l))
  }

  /** The first non-blank line looks like a header, and so is not a data row. */
  predicate HeaderSkipped(lines: seq<string>) {
    NonBlank(lines) != [] && LooksLikeHeader(Parse(NonBlank(lines)[0]))
  }

  /** totalRows counts the non-blank lines, less the first one when it looks like a
      header; the header test is made on the first non-blank line only. */
  ghost predicate Counted(pr: Progress, lines: seq<string>) {
    && (pr.firstLine <==> NonBlank(lines) == [])
    && pr.totalRows == |NonBlank(lines)| - (if HeaderSkipped(lines) then 1 else 0)
  }

  /** One line moves the row counter by one unless it is blank or the header. */
  lemma StepShape(pr: Progress, line: string, examine: Examiner)
    ensures var v := examine(pr.firstLine, line); var r := Step(pr, line, examine);
      && r.totalRows == pr.totalRows + (if v.Skip? || v.HeaderLine? then 0 else 1)
      && (r.firstLine <==> pr.firstLine && v.Skip?)
  {
  }

  lemma StepCounted(pr: Progress, init: seq<string>, line: string, examine: Examiner)
    requires SortsLines(examine) && Counted(pr, init)
    ensures Counted(Step(pr, line, examine), init + [line])
  {
    var keep := (l: string) => !BlankLine(l);
    Seqs.FilterSnoc(init, line, keep);
    StepShape(pr, line, examine);
    var v := examine(pr.firstLine, line);
    assert v.Skip? <==> BlankLine(line);
    assert v.HeaderLine? <==> !BlankLine(line) && pr.firstLine && LooksLikeHeader(Parse(line));
    if !BlankLine(line) {
      if NonBlank(init) == [] {
        assert NonBlank(init + [line]) == [line];
      } else {
        assert NonBlank(init + [line])[0] == NonBlank(init)[0];
      }
    }
  }

  lemma {:induction false} RunTotalRows(lines: seq<string>, examine: Examiner, ids: set<string>)
    requires SortsLines(examine)
    ensures Counted(Run(lines, examine, ids), lines)
  {
    if lines != [] {
      var init := lines[..|lines| - 1];
      assert lines == init + [lines[|lines| - 1]];
      RunTotalRows(init, examine, ids);
      StepCounted(Run(init, examine, ids), init, lines[|lines| - 1], examine);
    }
  }

  /** The number of ledger entries for duplicate ids. */
  function DuplicateEntries(errors: seq<ErrorEntry>): nat {
    |Seqs.Filter(errors, (e: ErrorEntry) => e.message == DuplicateStudentId)|
  }

  /** Every ledger entry names a counted row, in increasing row order, */
  ghost predicate LedgerOrdered(pr: Progress) {
    && (forall i | 0 <= i < |pr.errors| :: 1 <= pr.errors[i].rowNumber <= pr.totalRows)
    && (forall i, j | 0 <= i < j < |pr.errors| :: pr.errors[i].rowNumber < pr.errors[j].rowNumber)
  }

  /** with one of the import's reasons, and no id for a short row; */
  ghost predicate LedgerReasons(pr: Progress) {
    && (forall i | 0 <= i < |pr.errors| ::
          pr.errors[i].message in RowMessages || pr.errors[i].message in {NotEnoughColumns, DuplicateStudentId})
    && (forall i | 0 <= i < |pr.errors| :: pr.errors[i].message == NotEnoughColumns ==> pr.errors[i].studentId == "")
  }

  /** the entries for duplicate ids are exactly the duplicates counted. */
  ghost predicate LedgerDuplicates(pr: Progress) {
    DuplicateEntries(pr.errors) == pr.duplicates
  }

  lemma StepOrdered(pr: Progress, line: string, examine: Examiner)
    requires LedgerOrdered(pr)
    ensures LedgerOrdered(Step(pr, line, examine))
  {
    var r := Step(pr, line, examine);
    StepShape(pr, line, examine);
    if r.errors != pr.errors {
      var e := r.errors[|r.errors| - 1];
      assert r.errors == pr.errors + [e];
      assert e.rowNumber == r.totalRows == pr.totalRows + 1;
    }
  }

  lemma StepReasons(pr: Progress, line: string, examine: Examiner)
    requires RefusesWithRowMessages(examine) && LedgerReasons(pr)
    ensures LedgerReasons(Step(pr, line, examine))
  {
    var r := Step(pr, line, examine);
    if r.errors != pr.errors {
      var e := r.errors[|r.errors| - 1];
      assert r.errors == pr.errors + [e];
    }
  }

  lemma StepDuplicates(pr: Progress, line: string, examine: Examiner)
    requires RefusesWithRowMessages(examine) && LedgerDuplicates(pr)
    ensures LedgerDuplicates(Step(pr, line, examine))
  {
    var v := examine(pr.firstLine, line);
    if !v.Skip? && !v.HeaderLine? {
      var q := pr.(firstLine := false, totalRows := pr.totalRows + 1);
      AdvanceCounted(pr, line, v);
      match v
      case TooShort =>
        DuplicatesAfter(pr.errors, ErrorEntry(q.totalRows, "", NotEnoughColumns, line));
      case Refused(id, message) =>
        RecordRefused(q, line, id, message);
        assert message in RowMessages;
        DuplicatesAfter(pr.errors, ErrorEntry(q.totalRows, id, message, line));
      case Fit(s) =>
        if s.studentId in q.ids {
          RecordDuplicate(q, line, s);
          DuplicatesAfter(pr.errors, ErrorEntry(q.totalRows, s.studentId, DuplicateStudentId, line));
        } else {
          RecordNew(q, line, s);
        }
    }
  }

  /** A new ledger entry adds one to the duplicate entries exactly when it is for a duplicate id. */
  lemma DuplicatesAfter(errors: seq<ErrorEntry>, e: ErrorEntry)
    ensures DuplicateEntries(errors + [e]) == DuplicateEntries(errors) + (if e.message == DuplicateStudentId then 1 else 0)
  {
    Seqs.FilterSnoc(errors, e, (e: ErrorEntry) => e.message == DuplicateStudentId);
  }

  lemma {:induction false} RunLedger(lines: seq<string>, examine: Examiner, ids: set<string>)
    requires RefusesWithRowMessages(examine)
    ensures var r := Run(lines, examine, ids);
      LedgerOrdered(r) && LedgerReasons(r) && LedgerDuplicates(r)
  {
    if lines != [] {
      var init := lines[..|lines| - 1];
      var prev := Run(init, examine, ids);
      RunLedger(init, examine, ids);
      StepOrdered(prev, lines[|lines| - 1], examine);
      StepReasons(prev, lines[|lines| - 1], examine);
      StepDuplicates(prev, lines[|lines| - 1], examine);
    }
  }

  /** Importing the same lines a second time, once the first import's ids are stored,
      adds nothing: each row is either refused again or a duplicate now. */
  lemma ReimportAddsNothing(lines: seq<string>, examine: Examiner, ids: set<string>)
    ensures var first := Run(lines, examine, ids);
      var second := Run(lines, examine, first.ids);
      second.imported == 0 && second.added == [] && second.ids == first.ids
  {
    ReimportFrom(lines, examine, ids, Run(lines, examine, ids).ids);
  }

  lemma {:induction false} ReimportFrom(lines: seq<string>, examine: Examiner, ids: set<string>, known: set<string>)
    requires Run(lines, examine, ids).ids <= known
    ensures var r := Run(lines, examine, known);
      && r.imported == 0 && r.added == [] && r.ids == known
      && r.firstLine == Run(lines, examine, ids).firstLine
  {
    if lines != [] {
      var init := lines[..|lines| - 1];
      IdsGrow(init, lines[|lines| - 1], examine, ids);
      ReimportFrom(init, examine, ids, known);
    }
  }

  /** Whether the header may still come after the given lines: only blank lines so far. */
  function HeaderPending(lines: seq<string>, examine: Examiner): bool {
    if lines == [] then true
    else
      var pending := HeaderPending(lines[..|lines| - 1], examine);
      pending && examine(pending, lines[|lines| - 1]).Skip?
  }

  /** The loop's firstLine flag is HeaderPending, whatever ids it starts from. */
  lemma {:induction false} RunHeaderPending(lines: seq<string>, examine: Examiner, ids: set<string>)
    ensures Run(lines, examine, ids).firstLine == HeaderPending(lines, examine)
  {
    if lines != [] {
      RunHeaderPending(lines[..|lines| - 1], examine, ids);
      var pr := Run(lines[..|lines| - 1], examine, ids);
      var v := examine(pr.firstLine, lines[|lines| - 1]);
      if !v.Skip? && !v.HeaderLine? {
        AdvanceCounted(pr, lines[|lines| - 1], v);
      }
    }
  }

  /** Line i, met with the flag the loop has by then, is blank, the header, or a row the
      examiner lets through as a record. */
  ghost predicate RowFitsAt(lines: seq<string>, examine: Examiner, i: int)
    requires 0 <= i < |lines|
  {
    var v := examine(HeaderPending(lines[..i], examine), lines[i]);
    v.Skip? || v.HeaderLine? || v.Fit?
  }

  ghost predicate AllRowsFit(lines: seq<string>, examine: Examiner) {
    forall i | 0 <= i < |lines| :: RowFitsAt(lines, examine, i)
  }

  /** When every counted row of the file is a valid record, importing it a second time
      counts each of them as a duplicate: duplicates == skipped == totalRows. */
  lemma ReimportCountsDuplicates(lines: seq<string>, examine: Examiner, ids: set<string>)
    requires AllRowsFit(lines, examine)
    ensures var first := Run(lines, examine, ids);
      var second := Run(lines, examine, first.ids);
      second.duplicates == second.totalRows && second.skipped == second.totalRows
  {
    var first := Run(lines, examine, ids);
    ReimportDuplicatesFrom(lines, examine, ids, first.ids);
    ReimportFrom(lines, examine, ids, first.ids);
    RunCounters(lines, examine, first.ids);
  }

  /** A file of blank lines, at most one header line ahead of every other non-blank line,
      and rows of eight or more cells that validateRow accepts, meets that condition for
      the import's own examiner; the files the exports write are of this shape when their
      values hold no line break. */
  lemma ValidRowsAllFit(lines: seq<string>, p: Parsers, today: Date)
    requires forall i | 0 <= i < |lines| ::
      || BlankLine(lines[i])
      || (LooksLikeHeader(Parse(lines[i])) && forall j | 0 <= j < i :: BlankLine(lines[j]))
      || AcceptedRow(lines[i], p)
    ensures AllRowsFit(lines, ImportExaminer(p, today))
  {
    var examine := ImportExaminer(p, today);
    forall i | 0 <= i < |lines|
      ensures RowFitsAt(lines, examine, i)
    {
      var line := lines[i];
      var pending := HeaderPending(lines[..i], examine);
      if !BlankLine(line) && !(pending && LooksLikeHeader(Parse(line))) {
        if AcceptedRow(line, p) {
          ExamineRow(pending, line, p, today);
        } else {
          assert forall j | 0 <= j < i :: BlankLine(lines[..i][j]);
          BlankLinesKeepHeaderPending(lines[..i], p, today);
          assert false;
        }
      }
    }
  }

  /** A row of eight or more cells that validateRow accepts. */
  predicate AcceptedRow(line: string, p: Parsers) {
    |Parse(line)| >= 8 && RowValid(FieldsOf(Parse(line)), p)
  }

  /** A header line followed by blank lines and accepted rows meets AllRowsFit. */
  lemma HeaderThenRowsFit(header: string, rows: seq<string>, p: Parsers, today: Date)
    requires LooksLikeHeader(Parse(header))
    requires forall i | 0 <= i < |rows| :: BlankLine(rows[i]) || AcceptedRow(rows[i], p)
    ensures AllRowsFit([header] + rows, ImportExaminer(p, today))
  {
    var lines := [header] + rows;
    forall i | 0 <= i < |lines|
      ensures
        || BlankLine(lines[i])
        || (LooksLikeHeader(Parse(lines[i])) && forall j | 0 <= j < i :: BlankLine(lines[j]))
        || AcceptedRow(lines[i], p)
    {
      if i > 0 {
        assert lines[i] == rows[i - 1];
      }
    }
    ValidRowsAllFit(lines, p, today);
  }

  /** After blank lines only, the header may still come. */
  lemma {:induction false} BlankLinesKeepHeaderPending(lines: seq<string>, p: Parsers, today: Date)
    requires forall j | 0 <= j < |lines| :: BlankLine(lines[j])
    ensures HeaderPending(lines, ImportExaminer(p, today))
  {
    if lines != [] {
      var init := lines[..|lines| - 1];
      assert forall j | 0 <= j < |init| :: init[j] == lines[j];
      BlankLinesKeepHeaderPending(init, p, today);
    }
  }

  lemma {:induction false} ReimportDuplicatesFrom(lines: seq<string>, examine: Examiner, ids: set<string>, known: set<string>)
    requires AllRowsFit(lines, examine)
    requires Run(lines, examine, ids).ids <= known
    ensures Run(lines, examine, known).duplicates == Run(lines, examine, known).totalRows
  {
    if lines != [] {
      var init, l := lines[..|lines| - 1], lines[|lines| - 1];
      forall i | 0 <= i < |init|
        ensures RowFitsAt(init, examine, i)
      {
        assert init[..i] == lines[..i] && init[i] == lines[i];
        assert RowFitsAt(lines, examine, i);
      }
      IdsGrow(init, l, examine, ids);
      ReimportDuplicatesFrom(init, examine, ids, known);
      ReimportFrom(init, examine, ids, known);
      var before, pr := Run(init, examine, ids), Run(init, examine, known);
      RunHeaderPending(init, examine, known);
      assert RowFitsAt(lines, examine, |lines| - 1);
      var v := examine(pr.firstLine, l);
      assert v.Skip? || v.HeaderLine? || v.Fit?;
      if v.Fit? {
        var s := v.student;
        assert s.studentId in Step(before, l, examine).ids by {
          AdvanceCounted(before, l, v);
        }
        AdvanceCounted(pr, l, v);
        RecordDuplicate(pr.(firstLine := false, totalRows := pr.totalRows + 1), l, s);
      }
    }
  }

  lemma IdsGrow(init: seq<string>, l: string, examine: Examiner, ids: set<string>)
    ensures Run(init, examine, ids).ids <= Run(init + [l], examine, ids).ids
  {
    assert (init + [l])[..|init|] == init;
  }

  // ---- importStudentsFromCsv and writeErrorReport ----

  /** The import's loop body on each kind of line, as ImportStudentsFromCsv takes it. */
  lemma RunSnoc(lines: seq<string>, i: nat, examine: Examiner, ids: set<string>)
    requires i < |lines|
    ensures Run(lines[..i + 1], examine, ids) == Step(Run(lines[..i], examine, ids), lines[i], examine)
  {
    assert lines[..i + 1][..i] == lines[..i];
  }

  /** The import's step on a line is the one its verdict calls for. */
  lemma StepByVerdict(pr: Progress, line: string, p: Parsers, today: Date, v: Verdict)
    requires Examine(pr.firstLine, line, p, today) == v
    ensures Step(pr, line, ImportExaminer(p, today)) == Advance(pr, line, v)
  {
    assert ImportExaminer(p, today)(pr.firstLine, line) == v;
  }

  /** A verdict on a counted row: the row is counted, then recorded. */
  lemma AdvanceCounted(pr: Progress, line: string, v: Verdict)
    requires !v.Skip? && !v.HeaderLine?
    ensures Advance(pr, line, v) == Record(pr.(firstLine := false, totalRows := pr.totalRows + 1), line, v)
  {
  }

  /** Examine on a line of fewer than eight cells that is not the header, */
  lemma ExamineShort(firstLine: bool, line: string, p: Parsers, today: Date)
    requires !BlankLine(line) && !(firstLine && LooksLikeHeader(Parse(line))) && |Parse(line)| < 8
    ensures Examine(firstLine, line, p, today) == TooShort
  {
  }

  /** and on a longer one that is not the header. */
  lemma ExamineRow(firstLine: bool, line: string, p: Parsers, today: Date)
    requires !BlankLine(line) && !(firstLine && LooksLikeHeader(Parse(line))) && |Parse(line)| >= 8
    ensures Examine(firstLine, line, p, today) == RowVerdict(Parse(line), p, today)
  {
  }

  /** writeErrorReport: the header row, then one row per ledger entry. */
  method WriteErrorReport(errors: seq<ErrorEntry>) returns (text: string)
    ensures text == ErrorReport(errors)
  {
    text := WriteRow(ErrorHeader);
    DocumentEmpty(ErrorHeader, ErrorFields);
    assert errors[..0] == [];
    for k := 0 to |errors|
      invariant text == Document(ErrorHeader, errors[..k], ErrorFields)
    {
      var e := errors[k];
      DocumentStep(ErrorHeader, errors, ErrorFields, k);
      var line := WriteRow([IntToString(e.rowNumber), e.studentId, e.message, e.rawRow]);
      text := text + line;
    }
    assert errors[..|errors|] == errors;
  }

  /**
   * The body of importStudentsFromCsv's read loop: one line against the running state
   * (the header flag, the counters, existingIds, the ledger and the records added).
   */
  method ImportLine(svc: Students.StudentService, state: Progress, line: string, p: Parsers, today: Date,
                    ghost stored: seq<Student>)
    returns (next: Progress)
    requires svc.Valid() && svc.repository.rows == stored + state.added
    requires forall id :: id in state.ids <==> id in Students.Ids(svc.repository.rows)
    modifies svc.repository
    ensures svc.Valid() && svc.repository.rows == stored + next.added
    ensures forall id :: id in next.ids <==> id in Students.Ids(svc.repository.rows)
    ensures next == Step(state, line, ImportExaminer(p, today))
  {
    next := state;
    if Trim(line) == [] {
      StepByVerdict(state, line, p, today, Skip);
      return;
    }
    var cols := ParseLine(Some(line));
    // the first non-blank line clears the flag, and is skipped when it is the header
    if state.firstLine && LooksLikeHeader(cols) {
      StepByVerdict(state, line, p, today, HeaderLine);
      next := state.(firstLine := false);
      return;
    }
    next := state.(firstLine := false, totalRows := state.totalRows + 1);
    if |cols| < 8 {
      ExamineShort(state.firstLine, line, p, today);
      StepByVerdict(state, line, p, today, TooShort);
      AdvanceCounted(state, line, TooShort);
      next := next.(skipped := next.skipped + 1,
                    errors := next.errors + [ErrorEntry(next.totalRows, "", NotEnoughColumns, line)]);
      return;
    }
    ExamineRow(state.firstLine, line, p, today);
    ghost var verdict := RowVerdict(cols, p, today);
    StepByVerdict(state, line, p, today, verdict);
    AdvanceCounted(state, line, verdict);
    next := ImportRow(svc, next, cols, line, p, today, stored);
  }

  /** The two ways Record treats a record that passed validateRow. */
  lemma RecordDuplicate(pr: Progress, line: string, s: Student)
    requires s.studentId in pr.ids
    ensures Record(pr, line, Fit(s)) ==
      pr.(duplicates := pr.duplicates + 1, skipped := pr.skipped + 1,
          errors := pr.errors + [ErrorEntry(pr.totalRows, s.studentId, DuplicateStudentId, line)])
  {
  }

  lemma RecordNew(pr: Progress, line: string, s: Student)
    requires s.studentId !in pr.ids
    ensures Record(pr, line, Fit(s)) ==
      pr.(imported := pr.imported + 1, ids := pr.ids + {s.studentId}, added := pr.added + [s])
  {
  }

  lemma RecordRefused(pr: Progress, line: string, id: string, message: string)
    ensures Record(pr, line, Refused(id, message)) ==
      pr.(skipped := pr.skipped + 1, errors := pr.errors + [ErrorEntry(pr.totalRows, id, message, line)])
  {
  }

  /**
   * The rest of the loop body, on a counted row of eight or more cells: the nine trimmed
   * cells, then validateRow.
   */
  method ImportRow(svc: Students.StudentService, pr: Progress, cols: seq<string>, line: string, p: Parsers, today: Date,
                   ghost stored: seq<Student>)
    returns (next: Progress)
    requires |cols| >= 8
    requires svc.Valid() && svc.repository.rows == stored + pr.added
    requires forall id :: id in pr.ids <==> id in Students.Ids(svc.repository.rows)
    modifies svc.repository
    ensures svc.Valid() && svc.repository.rows == stored + next.added
    ensures forall id :: id in next.ids <==> id in Students.Ids(svc.repository.rows)
    ensures next == Record(pr, line, RowVerdict(cols, p, today))
  {
    var studentId := Get(cols, 0);
    var fullName := Get(cols, 1);
    var programme := Get(cols, 2);
    var levelText := Get(cols, 3);
    var gpaText := Get(cols, 4);
    var email := Get(cols, 5);
    var phone := Get(cols, 6);
    var dateText := Get(cols, 7);
    var status := if |cols| >= 9 then Get(cols, 8) else "";
    var fields := RowFields(studentId, fullName, programme, levelText, gpaText, email, phone, dateText, status);
    assert fields == FieldsOf(cols);
    var error := ValidateRow(fields, p);
    if error.Some? {
      assert RowVerdict(cols, p, today) == Refused(studentId, error.value);
      RecordRefused(pr, line, studentId, error.value);
      next := pr.(skipped := pr.skipped + 1,
                  errors := pr.errors + [ErrorEntry(pr.totalRows, studentId, error.value, line)]);
    } else {
      assert RowVerdict(cols, p, today) == Fit(BuildStudent(fields, p, today));
      next := ImportValidRow(svc, pr, fields, line, p, today, stored);
    }
  }

  /**
   * A row validateRow accepts: the duplicate check against existingIds, then the record
   * (a blank date is today, a blank status "Active") handed to addStudent. That record
   * passes validate and is new, so addStudent accepts it and the branch that would log
   * its exception never runs.
   */
  method ImportValidRow(svc: Students.StudentService, pr: Progress, f: RowFields, line: string, p: Parsers, today: Date,
                        ghost stored: seq<Student>)
    returns (next: Progress)
    requires RowValid(f, p)
    requires svc.Valid() && svc.repository.rows == stored + pr.added
    requires forall id :: id in pr.ids <==> id in Students.Ids(svc.repository.rows)
    modifies svc.repository
    ensures svc.Valid() && svc.repository.rows == stored + next.added
    ensures forall id :: id in next.ids <==> id in Students.Ids(svc.repository.rows)
    ensures next == Record(pr, line, Fit(BuildStudent(f, p, today)))
  {
    if f.studentId in pr.ids {
      next := pr.(duplicates := pr.duplicates + 1, skipped := pr.skipped + 1,
                  errors := pr.errors + [ErrorEntry(pr.totalRows, f.studentId, DuplicateStudentId, line)]);
      RecordDuplicate(pr, line, BuildStudent(f, p, today));
      return;
    }
    var s := BuildStudent(f, p, today);
    RecordNew(pr, line, s);
    Students.IdsSnoc(svc.repository.rows, s);
    var outcome := svc.AddStudent(s);
    if outcome.Fail? {
      assert false;
    }
    assert svc.repository.rows == stored + (pr.added + [s]);
    next := pr.(imported := pr.imported + 1, ids := pr.ids + {f.studentId}, added := pr.added + [s]);
  }

  /**
   * importStudentsFromCsv. source is the file's lines, or None when it cannot be read;
   * p and today stand for Integer.parseInt, Double.parseDouble, LocalDate.parse and
   * LocalDate.now.
   */
  method ImportStudentsFromCsv(svc: Students.StudentService, source: Option<seq<string>>, p: Parsers, today: Date)
    returns (result: Result<ImportResult, string>)
    requires svc.Valid()
    modifies svc.repository
    ensures svc.Valid()
    ensures source.None? ==> result == Failure(ReadFailed) && svc.repository.rows == old(svc.repository.rows)
    ensures source.Some? ==>
      var r := Run(source.value, ImportExaminer(p, today), IdSet(old(svc.repository.rows)));
      && result == Success(ResultOf(r))
      && svc.repository.rows == old(svc.repository.rows) + r.added
  {
    var existingIds: set<string> := {};
    var all := svc.GetAllStudents();
    for k := 0 to |all|
      invariant svc.repository.rows == old(svc.repository.rows)
      invariant forall id :: id in existingIds <==> id in Students.Ids(all[..k])
    {
      Students.IdsSnoc(all[..k], all[k]);
      assert all[..k + 1] == all[..k] + [all[k]];
      existingIds := existingIds + {all[k].studentId};
    }
    assert all[..|all|] == all;
    if source.None? {
      return Failure(ReadFailed);
    }
    var lines := source.value;
    ghost var rows0 := svc.repository.rows;
    assert forall id :: id in existingIds <==> id in IdSet(rows0);
    assert existingIds == IdSet(rows0);
    var pr := Start(existingIds);
    for i := 0 to |lines|
      invariant svc.Valid()
      invariant svc.repository.rows == rows0 + pr.added
      invariant forall id :: id in pr.ids <==> id in Students.Ids(svc.repository.rows)
      invariant pr == Run(lines[..i], ImportExaminer(p, today), IdSet(rows0))
    {
      RunSnoc(lines, i, ImportExaminer(p, today), IdSet(rows0));
      pr := ImportLine(svc, pr, lines[i], p, today, rows0);
    }
    assert lines[..|lines|] == lines;
    var report: Option<string> := None;
    if pr.errors != [] {
      var text := WriteErrorReport(pr.errors);
      report := Some(text);
    }
    result := Success(ImportResult(pr.totalRows, pr.imported, pr.skipped, pr.duplicates, report));
  }
}
