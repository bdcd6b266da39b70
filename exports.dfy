/**
 * The export half of ImportExportService: the full student list, the top performers and
 * the at-risk report, each modelled by the CSV text it writes. Where that text goes (a
 * new file under the data folder, named after the export) is not modelled.
 */
module Exports {
  import opened Wrappers
  import opened Text
  import opened Domain
  import opened Csv
  import Seqs
  import Students
  import Reports
  import Settings
  import ImportExport

  const StudentsHeader: seq<string> :=
    ["student_id", "full_name", "programme", "level", "gpa", "email", "phone", "date_added", "status"]
  const TopHeader: seq<string> := ["rank", "student_id", "full_name", "programme", "level", "gpa"]

  /** The number of students the top-performers export lists at most. */
  const TopLimit: nat := 10

  /** The cells writeStudentsCsv writes for a student; a missing date is written as "". */
  function StudentFields(fmt: Formats, s: Student): (fields: seq<string>)
    ensures |fields| == |StudentsHeader|
  {
    [s.studentId, s.fullName, s.programme, IntToString(s.level), fmt.formatDouble(s.gpa),
     s.email, s.phone, if s.dateAdded.Some? then fmt.formatDate(s.dateAdded.value) else "", s.status]
  }

  function StudentCells(fmt: Formats): Student -> seq<string> {
    (s: Student) => StudentFields(fmt, s)
  }

  /** The text of a student-list file: the header, then one row per student in list order. */
  function StudentsCsv(fmt: Formats, students: seq<Student>): string {
    Document(StudentsHeader, students, StudentCells(fmt))
  }

  /** writeStudentsCsv. */
  method WriteStudentsCsv(fmt: Formats, students: seq<Student>) returns (text: string)
    ensures text == StudentsCsv(fmt, students)
  {
    text := WriteRow(StudentsHeader);
    DocumentEmpty(StudentsHeader, StudentCells(fmt));
    assert students[..0] == [];
    for k := 0 to |students|
      invariant text == Document(StudentsHeader, students[..k], StudentCells(fmt))
    {
      var s := students[k];
      DocumentStep(StudentsHeader, students, StudentCells(fmt), k);
      var date := if s.dateAdded.None? then "" else fmt.formatDate(s.dateAdded.value);
      var line := WriteRow([s.studentId, s.fullName, s.programme, IntToString(s.level), fmt.formatDouble(s.gpa),
                            s.email, s.phone, date, s.status]);
      text := text + line;
    }
    assert students[..|students|] == students;
  }

  /** exportFullStudentListCsv: every student, in table order. */
  method ExportFullStudentListCsv(svc: Students.StudentService, fmt: Formats) returns (text: string)
    ensures text == StudentsCsv(fmt, svc.repository.rows)
  {
    var students := svc.GetAllStudents();
    text := WriteStudentsCsv(fmt, students);
  }

  /** Students numbered from 1 in list order, as the ranking reports them. */
  function RankedRows(top: seq<Student>): (rows: seq<TopPerformerRow>)
    ensures |rows| == |top|
  {
    if top == [] then [] else RankedRows(top[..|top| - 1]) + [Reports.Ranked(top[|top| - 1], |top|)]
  }

  /** Row i is student i with rank i + 1. */
  lemma {:induction false} RankedRowsAt(top: seq<Student>, i: nat)
    requires i < |top|
    ensures RankedRows(top)[i] == Reports.Ranked(top[i], i + 1)
  {
    if i < |top| - 1 {
      RankedRowsAt(top[..|top| - 1], i);
    }
  }

  lemma RankedRowsStep(top: seq<Student>, i: nat)
    requires i < |top|
    ensures RankedRows(top[..i + 1]) == RankedRows(top[..i]) + [Reports.Ranked(top[i], i + 1)]
  {
    assert top[..i + 1][..i] == top[..i];
  }

  /** The top-performers export's rows: the table sorted by the ranking comparator, cut
      at ten, numbered from 1. */
  function TopRows(all: seq<Student>): seq<TopPerformerRow> {
    RankedRows(Seqs.Take(Seqs.Sort(all, Reports.TopOrder), TopLimit))
  }

  /** The cells of one top-performers row. */
  function TopFields(fmt: Formats, row: TopPerformerRow): seq<string> {
    [IntToString(row.rank), row.studentId, row.fullName, row.programme, IntToString(row.level), fmt.formatDouble(row.gpa)]
  }

  function TopCells(fmt: Formats): TopPerformerRow -> seq<string> {
    (row: TopPerformerRow) => TopFields(fmt, row)
  }

  function TopPerformersCsv(fmt: Formats, all: seq<Student>): string {
    Document(TopHeader, TopRows(all), TopCells(fmt))
  }

  /** The export lists what getTopPerformers reports with neither filter set and a limit
      of ten: the ten best by gpa, ties by name ignoring case, ranked from 1. */
  lemma TopRowsAreTheRanking(all: seq<Student>)
    ensures TopRows(all) == RankedRows(Reports.TopSelection(all, None, None, TopLimit))
    ensures |TopRows(all)| == if |all| < TopLimit then |all| else TopLimit
  {
    Reports.EligibleUnfiltered(all);
  }

  /** exportTopPerformersCsv: the table sorted by gpa, highest first, then by full name
      ignoring case; the first ten written with their rank. */
  method ExportTopPerformersCsv(svc: Students.StudentService, fmt: Formats) returns (text: string)
    ensures text == TopPerformersCsv(fmt, svc.repository.rows)
  {
    var all := svc.GetAllStudents();
    var sorted := Seqs.Sort(all, Reports.TopOrder);
    var top := Seqs.Take(sorted, TopLimit);
    text := WriteRow(TopHeader);
    DocumentEmpty(TopHeader, TopCells(fmt));
    assert top[..0] == [];
    var rank := 1;
    for i := 0 to |top|
      invariant rank == i + 1
      invariant text == Document(TopHeader, RankedRows(top[..i]), TopCells(fmt))
    {
      var s := top[i];
      RankedRowsStep(top, i);
      DocumentSnoc(TopHeader, RankedRows(top[..i]), TopCells(fmt), Reports.Ranked(s, rank));
      var line := WriteRow([IntToString(rank), s.studentId, s.fullName, s.programme, IntToString(s.level),
                            fmt.formatDouble(s.gpa)]);
      text := text + line;
      rank := rank + 1;
    }
    assert top[..|top|] == top;
  }

  /** exportAtRiskReportCsv: the students below the configured threshold, lowest gpa first. */
  method ExportAtRiskReportCsv(svc: Students.StudentService, settings: Settings.SettingsService, fmt: Formats)
    returns (text: string)
    requires settings.Valid()
    ensures text == StudentsCsv(fmt, Reports.AtRiskStudents(svc.repository.rows,
                                                             Settings.EffectiveThreshold(settings.repo.threshold)))
  {
    var threshold := settings.GetAtRiskThreshold();
    var all := svc.GetAllStudents();
    var atRisk := Reports.AtRiskStudents(all, threshold);
    text := WriteStudentsCsv(fmt, atRisk);
  }

  // ---- Reading an export back ----

  /** A header row whose first cell starts with a visible character and mentions
      "student" or "id" reads back as written, and the import, meeting it first, skips it. */
  lemma HeaderRowSkippedOnImport(header: seq<string>, p: Parsers, today: Date)
    requires header != [] && header[0] != [] && header[0][0] > ' '
    requires ImportExport.LooksLikeHeader(header)
    ensures Parse(JoinEscaped(header)) == header
    ensures ImportExport.Examine(true, JoinEscaped(header), p, today) == ImportExport.HeaderLine
  {
    var line := JoinEscaped(header);
    ParseJoinedRoundTrip(header);
    JoinEscapedFirst(header);
    assert Trim(line) != [] by {
      assert line[0] > ' ';
    }
  }

  /** The first line of every student-list file is such a header row. */
  lemma ExportedHeaderSkippedOnImport(p: Parsers, today: Date)
    ensures Parse(JoinEscaped(StudentsHeader)) == StudentsHeader
    ensures ImportExport.Examine(true, JoinEscaped(StudentsHeader), p, today) == ImportExport.HeaderLine
  {
    var first := StudentsHeader[0];
    ToLowerNoCapitals(first);
    assert StartsWith(first, "student");
    HeaderRowSkippedOnImport(StudentsHeader, p, today);
  }

  /** parseLine reads a student's joined line back as exactly the cells written, commas,
      quotes and line breaks in the values included. */
  lemma ExportedRowReadsBack(fmt: Formats, s: Student)
    ensures Parse(JoinEscaped(StudentFields(fmt, s))) == StudentFields(fmt, s)
    ensures |Parse(JoinEscaped(StudentFields(fmt, s)))| >= 8
  {
    ParseJoinedRoundTrip(StudentFields(fmt, s));
  }

  /** The import reads the file with readLine, which ends a line at LF or CR. Escaping
      quotes a line break but keeps it, so a student's record is one physical line exactly
      when none of its cells holds LF or CR. */
  lemma ExportedLineBreaks(fmt: Formats, s: Student)
    ensures var cells := StudentFields(fmt, s);
      '\n' in JoinEscaped(cells) <==> exists i | 0 <= i < |cells| :: '\n' in cells[i]
    ensures var cells := StudentFields(fmt, s);
      '\r' in JoinEscaped(cells) <==> exists i | 0 <= i < |cells| :: '\r' in cells[i]
  {
    JoinEscapedKeeps(StudentFields(fmt, s), '\n');
    JoinEscapedKeeps(StudentFields(fmt, s), '\r');
  }

  /** A file opening with the export's header line, followed by blank lines and rows that
      validateRow accepts, is one every row of which a second import counts as a duplicate. */
  lemma ExportedHeaderFileFits(rows: seq<string>, p: Parsers, today: Date)
    requires forall i | 0 <= i < |rows| :: ImportExport.BlankLine(rows[i]) || ImportExport.AcceptedRow(rows[i], p)
    ensures ImportExport.AllRowsFit([JoinEscaped(StudentsHeader)] + rows, ImportExport.ImportExaminer(p, today))
  {
    ExportedHeaderSkippedOnImport(p, today);
    ImportExport.HeaderThenRowsFit(JoinEscaped(StudentsHeader), rows, p, today);
  }
}
