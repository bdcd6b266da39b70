# Student roster record pipeline, modelled in Dafny

This project models the record pipeline of a desktop student-roster application:

- the CSV codec (`CsvUtil`): field escaping, row writing and the quote-aware line scanner;
- the CSV import (`ImportExportService.importStudentsFromCsv` with `validateRow`, `looksLikeHeader`, `get`, `normalizeStatus` and `writeErrorReport`);
- the three CSV exports (full list, top ten, at-risk) and `writeStudentsCsv`;
- the reports (`ReportService`): mean GPA, the filtered top-N ranking, the at-risk list, the five-band GPA histogram and the per-programme summary;
- the student service (`StudentService`): its validator, and add, update and delete over the students table;
- the settings service (`SettingsService`): the at-risk threshold and the list of programme names.

The SQLite tables are held in memory. The students table is a `seq<Student>` in a `StudentRepository` class. Its primary key and the CHECK constraints of its schema are enforced by `Save` and `Update`, so a write the database would refuse fails in the model too. The settings are an optional threshold and a `seq<string>` of programme names in a `SettingsRepository` class. The services are classes whose methods change the repository through `modifies`. The import is a method with a loop over the file's lines, and its meaning is the pure function `ImportExport.Run` (one `Step` per line). The loop body is split into three methods, one per stage of the Java loop: blank, header and column count; cell extraction and `validateRow`; then the duplicate check and `addStudent`. The Java code tests for a duplicate before it tests for an error, but only on valid rows, so testing for the error first, as the model does, gives the same outcome.

The main result is that the import's persistence-failure branch, the `catch` around `addStudent`, can never run. Every record the import hands to `addStudent` passes `validate` (`Validation.RowRulesImplyStudentRules`). It also meets the table's CHECK constraints (`ImportExport.BuildStudent`). Its id is new, because the import's `existingIds` stays equal to the id column of the table (`ImportExport.ImportLine` and `ImportExport.ImportStudentsFromCsv` keep that invariant). `ImportExport.ImportValidRow` therefore reaches its failure branch only through `assert false`.

`Integer.parseInt`, `Double.parseDouble` and `LocalDate.parse` are partial functions passed in as a `Parsers` value. `String.valueOf(double)` and `LocalDate.toString` are passed in as `Formats`. `LocalDate.now()` is the parameter `today`. A GPA is a `real`. The Java string functions the code relies on are written out in module `Text`: `isBlank`, `trim`, ASCII lower-casing, `equalsIgnoreCase`, `CASE_INSENSITIVE_ORDER`, `contains`, `length` and `String.valueOf(int)`. A Dafny string is a sequence of Unicode code points, while a Java `String` holds UTF-16 code units. So `length()` is modelled as `Text.Utf16Length`, which counts a character above U+FFFF twice. `CASE_INSENSITIVE_ORDER` compares the UTF-16 encodings (`Text.Utf16`). SQLite's `ORDER BY` compares UTF-8 bytes, which is code-point order (`Text.LexLe`).

In three places the code does less than one might expect of it, and the model follows the code:

- Escaping quotes a field for a comma, a double quote, LF or CR only, not for any other line break.
- The codec round trip holds for non-empty lists only: an empty line parses to one empty field.
- Programme names are compared exactly when the service looks for a duplicate, not ignoring case.

The name rule is the one exception: the model's validators use a corrected digit test, as described under Findings and Left out.

## Model

| member | source | states |
|---|---|---|
| Csv.Escape | src/main/java/com/template/util/CsvUtil.java:21-27 | the value comes back unchanged exactly when it holds no comma, quote, LF or CR; otherwise it starts and ends with a quote, and it holds twice the value's quotes plus the two added |
| Csv.EscapeQuoted | src/main/java/com/template/util/CsvUtil.java:24-26 | a value that needs quoting is written as a quote, the value with every quote doubled, and a closing quote |
| Csv.DoubleQuotesCount | src/main/java/com/template/util/CsvUtil.java:25 | replace doubles every embedded quote and adds no other |
| Csv.EscapeNullable | src/main/java/com/template/util/CsvUtil.java:21-22 | null escapes to the empty string, any other value as Escape does |
| Csv.Row | src/main/java/com/template/util/CsvUtil.java:10-18 | a written row ends in exactly one newline, and what precedes it is the escaped values joined by commas |
| Csv.WriteRow | src/main/java/com/template/util/CsvUtil.java:10-18 | the StringBuilder loop writes exactly Row(values) |
| Csv.EmptyRow | src/main/java/com/template/util/CsvUtil.java:10-18 | an empty list is written as a lone newline |
| Csv.ParseLine | src/main/java/com/template/util/CsvUtil.java:30-59 | null gives no fields; the index loop with its quote flag computes the character scanner Parse |
| Csv.ParseFieldCount | src/main/java/com/template/util/CsvUtil.java:38-58 | a parsed line has one field more than it has commas outside quotes, so never zero fields |
| Csv.ScanLength | src/main/java/com/template/util/CsvUtil.java:38-58 | from any scanner state, the fields returned are those finished plus one plus the separators still ahead |
| Csv.ScanQuotedBody | src/main/java/com/template/util/CsvUtil.java:41-48 | inside quotes, each doubled quote gives one literal quote, every other character is kept, and the closing quote is not emitted |
| Csv.ScanDoubledQuote | src/main/java/com/template/util/CsvUtil.java:42-45 | a doubled quote inside quotes adds one quote to the field and stays inside quotes |
| Csv.ScanPlain | src/main/java/com/template/util/CsvUtil.java:49-54 | a field without comma, quote or line break is read character for character |
| Csv.ScanEscaped | src/main/java/com/template/util/CsvUtil.java:21-58 | an escaped value followed by a comma or the end of the line scans back to the value |
| Csv.ParseJoinedRoundTrip | src/main/java/com/template/util/CsvUtil.java:21-58 | parsing the comma-joined escaped values of any non-empty list gives back the list, whatever commas, quotes, line breaks or empty strings it holds |
| Csv.ParseUnquoted | src/main/java/com/template/util/CsvUtil.java:38-58 | a line without quotes is split at every comma: joining its fields with commas gives the line back |
| Csv.DocumentSnoc | src/main/java/com/template/service/ImportExportService.java:86-98 | writing one more item appends exactly that item's row to the document |
| Csv.DocumentStep | src/main/java/com/template/service/ImportExportService.java:227-229 | each further item of a list appends its own row, in list order |
| Text.Trim | src/main/java/com/template/service/ImportExportService.java:246 | the result is a slice of the text, everything cut off at either end is at or below U+0020, and the slice starts and ends above U+0020; it is empty exactly when every character is at or below U+0020 |
| Text.Utf16Length | src/main/java/com/template/service/ImportExportService.java:268 | `length()` counts UTF-16 code units: between one and two per character, and one per character when none is above U+FFFF |
| Text.Utf16LengthAbove | src/main/java/com/template/service/StudentService.java:56 | a string made only of characters above U+FFFF has twice as many code units as characters |
| Text.CodeUnits | src/main/java/com/template/service/ReportService.java:33 | a character below U+10000 is one code unit, itself; any other is a high surrogate followed by a low surrogate |
| Text.Utf16 | src/main/java/com/template/service/ReportService.java:33 | the encoding has exactly `length()` code units |
| Text.Utf16Injective | src/main/java/com/template/service/ReportService.java:100 | two strings with the same UTF-16 encoding are equal |
| Text.IgnoreCaseLeTotal | src/main/java/com/template/service/ReportService.java:33 | the case-insensitive order compares every two names |
| Text.CodeUnitOrderDiffersFromCodePointOrder | src/main/java/com/template/service/ReportService.java:100 | U+1F600 sorts before U+E000 in the case-insensitive order, which compares code units, and after it in the database order, which compares code points |
| Text.LexLeAntisymmetric | src/main/java/com/template/repository/sqlite/SQLiteSettingsRepository.java:55 | two names each no later than the other in the database order are equal |
| Text.TrimIdempotent | src/main/java/com/template/service/ImportExportService.java:250-253 | trimming twice is trimming once |
| Text.ContainsMeansOccurs | src/main/java/com/template/service/ImportExportService.java:241 | contains holds exactly when the substring occurs at some index |
| Text.NatToStringRoundTrip | src/main/java/com/template/service/ImportExportService.java:151 | the decimal text of a row number reads back as that number |
| Text.IgnoreCaseLeTransitive | src/main/java/com/template/service/ReportService.java:33 | the case-insensitive name order is transitive |
| Text.IgnoreCaseLeBothWays | src/main/java/com/template/service/ReportService.java:100 | two names each no later than the other are equal ignoring case |
| Validation.FirstError | src/main/java/com/template/service/ImportExportService.java:257-320 | no failure exactly when every rule passed; otherwise the failure of a rule that every earlier rule passed |
| Validation.CheckRowId | src/main/java/com/template/service/ImportExportService.java:262-264 | no message exactly when the id is 4 to 20 ASCII letters and digits; otherwise one of validateRow's messages, the length message going by UTF-16 length |
| Validation.CheckRowName | src/main/java/com/template/service/ImportExportService.java:267-269 | no message exactly when the name is non-blank, 2 to 60 UTF-16 code units long and holds no digit (the corrected digit rule, see Findings) |
| Validation.CheckRowNameAsWritten | src/main/java/com/template/service/ImportExportService.java:267-269 | the name rule as written: no message exactly when the name is non-blank, 2 to 60 code units long, and does not match the digit pattern |
| Validation.CheckRowLevel | src/main/java/com/template/service/ImportExportService.java:275-283 | no message exactly when the level parses to 100, 200, 300 or 400 |
| Validation.CheckRowGpa | src/main/java/com/template/service/ImportExportService.java:286-292 | no message exactly when the gpa parses to a value in [0, 4] |
| Validation.CheckRowEmail | src/main/java/com/template/service/ImportExportService.java:295-296 | no message exactly when the email holds an '@' and a '.' |
| Validation.CheckRowPhone | src/main/java/com/template/service/ImportExportService.java:299-300 | no message exactly when the phone is exactly ten ASCII digits |
| Validation.CheckRowDate | src/main/java/com/template/service/ImportExportService.java:303-309 | no message exactly when the date is blank or parses |
| Validation.CheckRowStatus | src/main/java/com/template/service/ImportExportService.java:312-317 | no message exactly when the status is blank or, trimmed and lower-cased, "active" or "inactive" |
| Validation.ValidateRow | src/main/java/com/template/service/ImportExportService.java:257-320 | null exactly when all nine rules hold, with the corrected digit rule; otherwise one of the rules' messages |
| Validation.ValidateRowAsWritten | src/main/java/com/template/service/ImportExportService.java:257-320 | validateRow as written, with the digit pattern: null exactly when the nine rules as written hold; otherwise one of its messages |
| Validation.ValidateRowAsWrittenAgrees | src/main/java/com/template/service/ImportExportService.java:267-269 | every row the corrected validator accepts is accepted as written, and the two give the same answer on every row whose name holds no line terminator |
| Validation.RowChecksPassExactlyWhenValid | src/main/java/com/template/service/ImportExportService.java:257-320 | the nine checks all pass exactly when the row meets every rule |
| Validation.RowChecksAsWrittenPassExactlyWhenValid | src/main/java/com/template/service/ImportExportService.java:257-320 | every rule of validateRow as written passes exactly when the row meets all nine rules as written |
| Validation.ValidateRowReportsFirstFailure | src/main/java/com/template/service/ImportExportService.java:257-320 | the message returned is that of a rule every earlier rule (in the order id, name, programme, level, gpa, email, phone, date, status) passed |
| Validation.CheckStudentId | src/main/java/com/template/service/StudentService.java:44-49 | no message exactly when the id is 4 to 20 ASCII letters and digits |
| Validation.CheckStudentName | src/main/java/com/template/service/StudentService.java:52-60 | no message exactly when the name is non-blank, 2 to 60 UTF-16 code units long and digit-free (corrected digit rule) |
| Validation.CheckStudentNameAsWritten | src/main/java/com/template/service/StudentService.java:52-60 | the name rule as written: no message exactly when the name is non-blank, 2 to 60 code units long, and does not match the digit pattern |
| Validation.CheckStudentEmail | src/main/java/com/template/service/StudentService.java:78-83 | no message exactly when the email holds an '@' and a '.' |
| Validation.CheckStudentPhone | src/main/java/com/template/service/StudentService.java:86-91 | no message exactly when the phone is exactly ten ASCII digits |
| Validation.Validate | src/main/java/com/template/service/StudentService.java:41-92 | returns normally exactly when all seven rules hold, with the corrected digit rule; otherwise throws one of its messages |
| Validation.ValidateAsWritten | src/main/java/com/template/service/StudentService.java:41-92 | validate as written, with the digit pattern: returns normally exactly when the seven rules as written hold; otherwise throws one of its messages |
| Validation.ValidateAsWrittenAgrees | src/main/java/com/template/service/StudentService.java:58 | every record the corrected validator accepts is accepted as written, and the two give the same answer on every record whose name holds no line terminator |
| Validation.ValidateReportsFirstFailure | src/main/java/com/template/service/StudentService.java:41-92 | the message thrown is that of a rule every earlier rule (id, name, programme, level, gpa, email, phone) passed |
| Validation.IdChecksAgree | src/main/java/com/template/service/StudentService.java:44-49 | the service's one-pattern id check and the import's blank, length and character checks accept the same ids |
| Validation.RowRulesImplyStudentRules | src/main/java/com/template/service/ImportExportService.java:257-300 | a row validateRow accepts becomes, with its parsed level and gpa, a record validate accepts |
| Validation.DigitPatternMissesDigitAfterLineBreak | src/main/java/com/template/service/ImportExportService.java:269 | the name "Jo", U+2028, "5" holds a digit yet does not match the pattern as written: both name rules as written accept it, and both corrected rules refuse it for its digit |
| Validation.NameRulesAgree | src/main/java/com/template/service/StudentService.java:58 | the rule as written accepts every name the corrected rule accepts, and the two agree on every name without a line terminator |
| Validation.NameLengthCountsCodeUnits | src/main/java/com/template/service/StudentService.java:55-56 | a one-character name above U+FFFF has length 2 and passes both name rules; 31 such characters are 62 code units and too long |
| Validation.DigitPatternSound | src/main/java/com/template/service/StudentService.java:58 | where the pattern as written matches, the name does hold a digit |
| ImportExport.Get | src/main/java/com/template/service/ImportExportService.java:244-247 | the trimmed cell, or "" past the end of the row |
| ImportExport.NormalizeStatus | src/main/java/com/template/service/ImportExportService.java:249-254 | "active" and "inactive" in any case and padding become "Active" and "Inactive"; anything else is only trimmed |
| ImportExport.NormalizeStatusIdempotent | src/main/java/com/template/service/ImportExportService.java:249-254 | normalizing a normalized status changes nothing |
| ImportExport.StatusFor | src/main/java/com/template/service/ImportExportService.java:195 | a status that passed validation is stored as exactly "Active" or "Inactive" |
| ImportExport.BuildStudent | src/main/java/com/template/service/ImportExportService.java:183-196 | the record built from a valid row passes validate and the table's CHECK constraints, and keeps the row's id |
| ImportExport.IdSet | src/main/java/com/template/service/ImportExportService.java:122-125 | existingIds holds exactly the ids of the stored students |
| ImportExport.Examine | src/main/java/com/template/service/ImportExportService.java:134-180 | blank lines are skipped; only the first non-blank line can be the header, and it is when its first cell mentions "student" or "id"; short rows are refused; a refusal carries validateRow's message and the row's id; a record let through passes validate and the table's constraints |
| ImportExport.ExaminerSound | src/main/java/com/template/service/ImportExportService.java:134-196 | the import's line examiner has every property the run lemmas rely on |
| ImportExport.ResultOf | src/main/java/com/template/service/ImportExportService.java:212-217 | an error report is written exactly when the ledger is not empty |
| ImportExport.RunCounters | src/main/java/com/template/service/ImportExportService.java:146-205 | after any lines, imported + skipped == totalRows, duplicates <= skipped, the ledger has one entry per skipped row, and one record is added per imported row |
| ImportExport.RunTotalRows | src/main/java/com/template/service/ImportExportService.java:132-146 | totalRows counts the non-blank lines, less the first one when it looks like a header |
| ImportExport.StepCounted | src/main/java/com/template/service/ImportExportService.java:134-146 | one line moves the row count as the blank and header rules say |
| ImportExport.RunAdded | src/main/java/com/template/service/ImportExportService.java:169-201 | the records added pass validate and the table's constraints, their ids are new and pairwise distinct, and the known ids are the stored ones plus those |
| ImportExport.StepNew | src/main/java/com/template/service/ImportExportService.java:169-201 | a line adds a record only under an id not known before, and learns exactly that id |
| ImportExport.ImportKeepsTableValid | src/main/java/com/template/service/ImportExportService.java:198-205 | a valid table plus the records an import adds is a valid table: the primary key and the CHECK constraints never refuse one |
| ImportExport.RunLedger | src/main/java/com/template/service/ImportExportService.java:149-180 | ledger entries name counted rows in increasing order, carry one of the import's reasons, a short row has an empty id, and the duplicate entries are exactly the duplicates counted |
| ImportExport.StepDuplicates | src/main/java/com/template/service/ImportExportService.java:169-174 | the duplicate entries of the ledger and the duplicate count grow together |
| ImportExport.ReimportAddsNothing | src/main/java/com/template/service/ImportExportService.java:122-125 | importing the same lines again, once the first import's ids are stored, imports and adds nothing and learns no id |
| ImportExport.ReimportCountsDuplicates | src/main/java/com/template/service/ImportExportService.java:169-174 | when every line, met with the header flag the loop has by then, is blank, the skipped header or a valid record, importing the file a second time counts each counted row as a duplicate: duplicates == skipped == totalRows |
| ImportExport.RunHeaderPending | src/main/java/com/template/service/ImportExportService.java:129-143 | the loop's firstLine flag stays true exactly while every line read so far is blank, whatever ids the run starts from |
| ImportExport.ValidRowsAllFit | src/main/java/com/template/service/ImportExportService.java:134-196 | a file of blank lines, at most one header-looking line ahead of every other non-blank line, and rows of eight or more cells that pass validateRow meets that condition |
| ImportExport.HeaderThenRowsFit | src/main/java/com/template/service/ImportExportService.java:137-143 | a header line followed by blank lines and rows validateRow accepts meets the re-import condition: the header is skipped, not counted |
| ImportExport.BlankLinesKeepHeaderPending | src/main/java/com/template/service/ImportExportService.java:133-139 | after blank lines only, the next non-blank line is still checked for the header |
| ImportExport.ImportLine | src/main/java/com/template/service/ImportExportService.java:132-206 | one pass of the loop body is one Step of the import, and the table stays the stored rows plus the added ones with existingIds its id column |
| ImportExport.ImportRow | src/main/java/com/template/service/ImportExportService.java:155-180 | a row of eight or more cells is refused with validateRow's message or goes on to the duplicate check, as Record says |
| ImportExport.ImportValidRow | src/main/java/com/template/service/ImportExportService.java:169-205 | a valid row is a duplicate when its id is known, otherwise addStudent accepts it; the catch branch at lines 202-205 is unreachable |
| ImportExport.ImportStudentsFromCsv | src/main/java/com/template/service/ImportExportService.java:112-218 | an unreadable source fails without touching the table; otherwise the result is that of Run over the lines, and the table gains exactly the records the run added |
| ImportExport.WriteErrorReport | src/main/java/com/template/service/ImportExportService.java:220-236 | the report is the header row, then one row per ledger entry in ledger order |
| Exports.StudentFields | src/main/java/com/template/service/ImportExportService.java:86-97 | a student's line has one cell per header column |
| Exports.WriteStudentsCsv | src/main/java/com/template/service/ImportExportService.java:78-103 | the text is the header row, then one row per student in list order |
| Exports.ExportFullStudentListCsv | src/main/java/com/template/service/ImportExportService.java:23-29 | every stored student, in table order |
| Exports.RankedRowsAt | src/main/java/com/template/service/ImportExportService.java:45-55 | row i of the export is student i of the cut list, with rank i + 1 |
| Exports.TopRowsAreTheRanking | src/main/java/com/template/service/ImportExportService.java:34-38 | the exported rows are getTopPerformers' ranking with neither filter and a limit of ten, so there are min(10, students) of them |
| Exports.ExportTopPerformersCsv | src/main/java/com/template/service/ImportExportService.java:31-61 | the header, then the first ten of the table sorted by gpa descending and name ignoring case, numbered from 1 |
| Exports.ExportAtRiskReportCsv | src/main/java/com/template/service/ImportExportService.java:63-76 | the student list of the students below the configured threshold (2.0 when none is stored), lowest gpa first |
| Exports.HeaderRowSkippedOnImport | src/main/java/com/template/service/ImportExportService.java:138-144 | a header row starting with a visible character whose first cell mentions "student" or "id" reads back as written and is skipped as the header |
| Exports.ExportedHeaderSkippedOnImport | src/main/java/com/template/service/ImportExportService.java:81-84 | the header of every student-list export is skipped when the file is imported |
| Exports.ExportedRowReadsBack | src/main/java/com/template/service/ImportExportService.java:86-97 | parseLine reads a student's joined line back as exactly its nine cells |
| Exports.ExportedLineBreaks | src/main/java/com/template/service/ImportExportService.java:132 | the joined line holds LF (or CR) exactly when one of its cells does, so readLine sees the record as one line exactly when no cell holds a line break |
| Exports.ExportedHeaderFileFits | src/main/java/com/template/service/ImportExportService.java:122-125 | a file opening with the export's header, then blank lines and rows validateRow accepts, meets the condition under which a second import counts every row as a duplicate |
| Csv.JoinEscapedKeeps | src/main/java/com/template/util/CsvUtil.java:21-27 | a character other than comma and quote is in the joined row exactly when it is in one of the values |
| Reports.AverageGpa | src/main/java/com/template/service/ReportService.java:20-23 | 0.0 for no students, otherwise the value whose product with the count is the gpa sum |
| Reports.AverageWithinBounds | src/main/java/com/template/service/ReportService.java:20-23 | the mean lies between any lower and upper bound of the gpas |
| Reports.Eligible | src/main/java/com/template/service/ReportService.java:29-31 | every student kept passes the programme filter (none or blank, else equal ignoring case) and the level filter (none or 0, else equal) |
| Reports.EligibleIsSubMultiset | src/main/java/com/template/service/ReportService.java:29-31 | every student passing both filters is kept as often as the table holds it, and no other |
| Reports.TopOrderIsTotalPreorder | src/main/java/com/template/service/ReportService.java:32-33 | gpa descending then name ignoring case compares every two students and is transitive |
| Reports.Ranking | src/main/java/com/template/service/ReportService.java:29-33 | the eligible students, permuted into ranking order |
| Reports.TopSelection | src/main/java/com/template/service/ReportService.java:29-35 | min(limit, eligible) students, a prefix of the ranking |
| Reports.TopSelectionFilteredAndOrdered | src/main/java/com/template/service/ReportService.java:29-35 | the listed students pass both filters and are in ranking order |
| Reports.TopSelectionIsTop | src/main/java/com/template/service/ReportService.java:32-35 | listed and left-out students together are the eligible ones, and each listed one ranks no lower than each left out |
| Reports.GetTopPerformers | src/main/java/com/template/service/ReportService.java:25-50 | row i is student i of the selection with rank i + 1; at most limit rows, with non-increasing gpa |
| Reports.AtRiskStudents | src/main/java/com/template/service/ReportService.java:52-57 | exactly the students strictly below the threshold, each as often as in the table, in non-decreasing gpa order |
| Reports.AtRiskContents | src/main/java/com/template/service/ReportService.java:53-54 | the sorted, filtered list holds only students below the threshold, and all of them |
| Reports.AtRiskOrdered | src/main/java/com/template/service/ReportService.java:55 | the list is in non-decreasing gpa order |
| Reports.BandOf | src/main/java/com/template/service/ReportService.java:69-75 | the band of a gpa is one of five, and the cuts 1.0, 2.0, 3.0, 3.5 bound it |
| Reports.BandsCoverAll | src/main/java/com/template/service/ReportService.java:68-78 | each student falls in exactly one band, so the five counts add up to the number of students |
| Reports.GetGpaDistribution | src/main/java/com/template/service/ReportService.java:59-81 | five bands in the fixed label order, each with its count, the counts summing to the number of students |
| Reports.Programmes | src/main/java/com/template/service/ReportService.java:87-92 | the distinct programme names, exact case, each once |
| Reports.Group | src/main/java/com/template/service/ReportService.java:87-88 | a group holds only students of its programme |
| Reports.GroupIsSubMultiset | src/main/java/com/template/service/ReportService.java:87-88 | a group holds every student of its programme as often as the table does |
| Reports.SummaryOrderIsTotalPreorder | src/main/java/com/template/service/ReportService.java:100 | ordering rows by name ignoring case compares every two rows and is transitive |
| Reports.TotalStudentsSort | src/main/java/com/template/service/ReportService.java:100 | sorting the summary rows keeps their head-count total |
| Reports.SummaryRowsTotal | src/main/java/com/template/service/ReportService.java:92-98 | for distinct names, the rows' head counts add up to the students with one of those names |
| Reports.GetProgrammeSummary | src/main/java/com/template/service/ReportService.java:83-102 | one row per distinct programme with its head count and mean gpa, each programme once, sorted by name ignoring case, the counts adding up to the number of students |
| Reports.SortedSummary | src/main/java/com/template/service/ReportService.java:83-102 | the sorted rows have every property getProgrammeSummary promises |
| Seqs.Filter | src/main/java/com/template/service/ReportService.java:53-54 | the kept elements pass the test, and every element that passes is kept |
| Seqs.FilterMultiset | src/main/java/com/template/service/ReportService.java:53-54 | filtering keeps each passing element as often as the input holds it |
| Seqs.Sort | src/main/java/com/template/service/ReportService.java:100 | the sort is a permutation of its input |
| Seqs.SortSorted | src/main/java/com/template/service/ImportExportService.java:34-36 | under a total preorder the sort's output is sorted |
| Students.Lookup | src/main/java/com/template/repository/sqlite/SQLiteStudentRepository.java:117-133 | a row is found exactly when its id is in the table, and it is a row of the table with that id |
| Students.Replaced | src/main/java/com/template/repository/sqlite/SQLiteStudentRepository.java:44-78 | the UPDATE keeps the number of rows and the id column |
| Students.Removed | src/main/java/com/template/repository/sqlite/SQLiteStudentRepository.java:101-115 | the DELETE removes every row with the id and keeps every other row |
| Students.LookupAfterInsert | src/main/java/com/template/repository/sqlite/SQLiteStudentRepository.java:16-42 | after an INSERT the new row is found under its id and every other id finds what it found before |
| Students.LookupAfterUpdate | src/main/java/com/template/repository/sqlite/SQLiteStudentRepository.java:44-78 | after the UPDATE the row under s's id is s when there was one; no other id's row changes |
| Students.LookupAfterDelete | src/main/java/com/template/repository/sqlite/SQLiteStudentRepository.java:101-115 | after the DELETE the id finds nothing and every other id finds what it found before |
| Students.DeleteUndoesInsert | src/main/java/com/template/repository/sqlite/SQLiteStudentRepository.java:101-115 | deleting the id just inserted gives back the table it was inserted into |
| Students.ReplaceAbsent | src/main/java/com/template/repository/sqlite/SQLiteStudentRepository.java:44-78 | an UPDATE that matches no row changes nothing |
| Students.InsertKeepsTableValid | src/main/java/com/template/util/DatabaseInitializer.java:14-26 | inserting a new id with an acceptable row keeps the primary key and the CHECK constraints |
| Students.UpdateKeepsTableValid | src/main/java/com/template/util/DatabaseInitializer.java:14-26 | updating with an acceptable row keeps the primary key and the CHECK constraints |
| Students.DeleteKeepsTableValid | src/main/java/com/template/util/DatabaseInitializer.java:14-26 | deleting keeps the primary key and the CHECK constraints |
| Students.StudentRepository.FindAll | src/main/java/com/template/repository/sqlite/SQLiteStudentRepository.java:80-99 | every row, in table order |
| Students.StudentRepository.ExistsById | src/main/java/com/template/repository/sqlite/SQLiteStudentRepository.java:117-133 | true exactly when a row has that id |
| Students.StudentRepository.Save | src/main/java/com/template/repository/sqlite/SQLiteStudentRepository.java:16-42 | the INSERT succeeds exactly when the row meets the CHECK constraints and its id is new, appending it; otherwise "Failed to save student." and no change |
| Students.StudentRepository.Update | src/main/java/com/template/repository/sqlite/SQLiteStudentRepository.java:44-78 | fails with "Failed to update student." exactly when a row with the id exists and the new values break a CHECK constraint; otherwise that row takes the new values, and with no such row nothing changes |
| Students.StudentRepository.Delete | src/main/java/com/template/repository/sqlite/SQLiteStudentRepository.java:101-115 | the rows with that id go, the rest stay in order |
| Students.StudentService.GetAllStudents | src/main/java/com/template/service/StudentService.java:32-34 | the stored rows |
| Students.StudentService.AddStudent | src/main/java/com/template/service/StudentService.java:13-21 | the first rule validate breaks, else the duplicate-id message, else the save; it succeeds exactly when the record is valid, acceptable to the table and new, and then appends exactly that record; any failure leaves the table as it was |
| Students.StudentService.UpdateStudent | src/main/java/com/template/service/StudentService.java:23-26 | validates first; fails only when the row exists and the new values break a CHECK constraint; on success the row with the id takes every new value, no other row changes and the id column is kept |
| Students.StudentService.DeleteStudent | src/main/java/com/template/service/StudentService.java:28-30 | the record with the id is removed and every other record stays, in order |
| Settings.EffectiveThreshold | src/main/java/com/template/repository/sqlite/SQLiteSettingsRepository.java:15-32 | the stored value, or 2.0 when there is none |
| Settings.Renamed | src/main/java/com/template/repository/sqlite/SQLiteSettingsRepository.java:89-103 | the row named from takes the new name; every other row is unchanged |
| Settings.Without | src/main/java/com/template/repository/sqlite/SQLiteSettingsRepository.java:106-119 | exactly the names other than the deleted one remain |
| Settings.RenamedNames | src/main/java/com/template/repository/sqlite/SQLiteSettingsRepository.java:89-103 | after a rename the table holds every other name it held, plus the new one when the old one was there |
| Settings.RenameKeepsDistinct | src/main/java/com/template/util/DatabaseInitializer.java:47-51 | the names stay distinct after a rename exactly when the new name is the old one, or is not taken, or the old one is absent |
| Settings.WithoutUndoesAdd | src/main/java/com/template/repository/sqlite/SQLiteSettingsRepository.java:106-119 | deleting a name just added gives back the list it was added to |
| Settings.WithoutKeepsDistinct | src/main/java/com/template/repository/sqlite/SQLiteSettingsRepository.java:106-119 | deleting keeps the names distinct |
| Settings.LexLeIsTotalPreorder | src/main/java/com/template/repository/sqlite/SQLiteSettingsRepository.java:55 | ORDER BY name compares every two names and is transitive |
| Settings.SettingsRepository.constructor | src/main/java/com/template/util/DatabaseInitializer.java:47-54 | a fresh database holds the threshold 2.0 and no programmes |
| Settings.SettingsRepository.GetAtRiskThreshold | src/main/java/com/template/repository/sqlite/SQLiteSettingsRepository.java:15-32 | the stored threshold, 2.0 when there is none |
| Settings.SettingsRepository.SetAtRiskThreshold | src/main/java/com/template/repository/sqlite/SQLiteSettingsRepository.java:35-49 | the threshold row becomes the value; the programmes are untouched |
| Settings.SettingsRepository.GetAllProgrammes | src/main/java/com/template/repository/sqlite/SQLiteSettingsRepository.java:52-70 | every stored name, in ascending order |
| Settings.SettingsRepository.ProgrammeExists | src/main/java/com/template/repository/sqlite/SQLiteSettingsRepository.java:122-137 | true exactly when the name is stored, compared exactly |
| Settings.SettingsRepository.AddProgramme | src/main/java/com/template/repository/sqlite/SQLiteSettingsRepository.java:73-86 | the primary key refuses a name already present; otherwise the name is appended |
| Settings.SettingsRepository.UpdateProgramme | src/main/java/com/template/repository/sqlite/SQLiteSettingsRepository.java:89-103 | the primary key refuses exactly a rename onto another name that is present; otherwise the rename happens |
| Settings.SettingsRepository.DeleteProgramme | src/main/java/com/template/repository/sqlite/SQLiteSettingsRepository.java:106-119 | exactly that name is removed |
| Settings.SettingsService.GetAtRiskThreshold | src/main/java/com/template/service/SettingsService.java:12-14 | the stored threshold, 2.0 when there is none, always in [0, 4] |
| Settings.SettingsService.SetAtRiskThreshold | src/main/java/com/template/service/SettingsService.java:16-21 | a value outside [0, 4] is refused with no change; otherwise the next read returns it |
| Settings.SettingsService.GetProgrammes | src/main/java/com/template/service/SettingsService.java:23-25 | every stored name, in ascending order |
| Settings.SettingsService.AddProgramme | src/main/java/com/template/service/SettingsService.java:27-38 | a blank name is refused; a trimmed name already stored (exact match) is refused; otherwise the trimmed name is added and the names stay distinct; a refusal changes nothing |
| Settings.SettingsService.UpdateProgramme | src/main/java/com/template/service/SettingsService.java:40-51 | a blank new name is refused; a trimmed new name that differs from the old one beyond case and is taken is refused; otherwise the table renames, refusing only a case-only rename onto a stored name; other names are unchanged |
| Settings.SettingsService.DeleteProgramme | src/main/java/com/template/service/SettingsService.java:53-55 | exactly that name is removed and every other name stays |
| Settings.CaseOnlyRenameOntoExistingName | src/main/java/com/template/service/SettingsService.java:47-50 | with "CS" and "cs" both stored, renaming "cs" to "CS" passes the service's check yet breaks the primary key, which is why the table refuses it |
| Settings.ControlCharacterNameTrimsToEmpty | src/main/java/com/template/service/SettingsService.java:29-37 | a name made of U+0000 is not blank, yet it trims to the empty name, which addProgramme then stores |

## Left out

- The JavaFX user interface, navigation, authentication and the student search (SQL `LIKE`) are not part of this model.
- SQLite and JDBC are replaced by in-memory tables. The students table keeps insertion order, which is the order `findAll` is modelled to return. A database failure (connection lost, disk full) is not modelled, apart from the constraint violations the schema defines.
- File I/O is not modelled: readers, writers, the timestamped file names of `DataFolderUtil` (including `DataFolderUtil.safe` of the threshold) and the logger. The import reads a sequence of lines. Each export and the error report is the text it would write.
- ImportExport.ImportStudentsFromCsv: a read failure part-way through the file is not modelled. The source is either unreadable, which gives `Failure`, or it is read in full. The Java code would keep the rows already added and then throw.
- Exports.WriteStudentsCsv, Exports.ExportTopPerformersCsv and ImportExport.WriteErrorReport: the `RuntimeException` thrown when the file cannot be written is not modelled.
- Java null strings, and so `safe` and the null checks in `escape`, `get` and the validators, are left out, except `escape(null)` (`Csv.EscapeNullable`) and `parseLine(null)` (`Csv.ParseLine`). Every string field of a record is a string. A missing date is `None` and is written as an empty cell.
- IEEE-754 doubles are modelled as `real`. `NaN` passing the gpa range check, negative zero and the rounding of the mean are out of scope. `Double.compare` is modelled as the order of the reals.
- Reports.AverageGpa: states the exact mean over the reals, not the rounded result `DoubleStream.average` computes.
- `String.valueOf(double)`, `LocalDate.toString`, `Integer.parseInt`, `Double.parseDouble` and `LocalDate.parse` are parameters, so their formats are not modelled. The threshold's storage as text is not modelled either: the stored value reads back exactly, and an unparseable stored value, which the Java code reads as 2.0, cannot arise.
- Text.IgnoreCaseLeTransitive: `String.CASE_INSENSITIVE_ORDER`, `equalsIgnoreCase` and `toLowerCase` are modelled with ASCII case folding only, with no locale and no Unicode case mapping. Strings are sequences of code points. The Java code units are modelled where the code depends on them: `length()` and the order of `CASE_INSENSITIVE_ORDER`.
- Exports.ExportedRowReadsBack: the round trip is that of parseLine on one joined line. A value holding LF or CR is quoted but keeps its break, so the file holds the record on two physical lines, and readLine gives the import the first part alone, which is then too short. The import is modelled on the lines readLine returns, and `Exports.ExportedLineBreaks` states when a record stays on one line.
- Validation.ValidateRow, Validation.Validate, ImportExport.Examine, ImportExport.Run, ImportExport.ImportRow, ImportExport.ImportStudentsFromCsv, Students.StudentService.AddStudent, Students.StudentService.UpdateStudent: all use the corrected digit test. A name holding a digit and also a line terminator is refused, where the code as written accepts it: the import adds the row, addStudent saves the record and updateStudent writes it. `Validation.ValidateRowAsWritten` and `Validation.ValidateAsWritten` model the code as written, and their agreement lemmas show that the two differ on no other name.
- Reports.GetProgrammeSummary: the `HashMap` key order before the sort is replaced by first-appearance order. Because the sort is stable, the two can differ only in the relative order of programmes whose names are equal ignoring case.
- Reports.GetTopPerformers: the limit is a natural number. A negative limit, for which `Stream.limit` throws, is not modelled.
- ImportExport.RunCounters: the counters are unbounded natural numbers. Java's `int` overflow after 2^31 rows is not modelled.
- ImportExport.ImportValidRow: the failure branch is unreachable because the model's table refuses writes only for a constraint violation, and the import's writes are sequential. A concurrent writer inserting the same id between the duplicate check and the insert is not modelled.

## Findings

| source | as written | input that shows it | evidently intended | confidence | as-written member | corrected member |
|---|---|---|---|---|---|---|
| src/main/java/com/template/service/ImportExportService.java:269 | the name rule uses `fullName.matches(".*\\d.*")`. `matches` must cover the whole name, and `.` does not match the line terminators LF, CR, U+0085, U+2028 and U+2029, so a name holding one of them never matches, whatever digits it has. The same pattern is used at src/main/java/com/template/service/StudentService.java:58 | the name "Jo", U+2028, "5" is accepted by both validators although it holds a digit | a name holding any digit is refused | not executed | Validation.DigitPatternMissesDigitAfterLineBreak | Validation.CheckRowName |
