/**
 * The two record validators: ImportExportService.validateRow over the raw text of a
 * CSV row, and StudentService.validate over a typed record. Both apply their rules in
 * order and report the first one that fails; the field rules are shared below.
 */
module Validation {
  import opened Wrappers
  import opened Text
  import opened Domain

  // ---- Field rules ----

  /** 4 to 20 characters, ASCII letters and digits only (so never blank). */
  predicate IdOk(id: string) {
    4 <= |id| <= 20 && AllLettersOrDigits(id)
  }

  /** Not blank, 2 to 60 UTF-16 code units (String.length()), no digit. */
  predicate NameOk(name: string) {
    !IsBlank(name) && 2 <= Utf16Length(name) <= 60 && !HasDigit(name)
  }

  predicate ProgrammeOk(programme: string) {
    !IsBlank(programme)
  }

  predicate LevelOk(level: int) {
    level == 100 || level == 200 || level == 300 || level == 400
  }

  predicate GpaOk(gpa: real) {
    0.0 <= gpa <= 4.0
  }

  /** Holds an '@' and a '.' (and so is not blank). */
  predicate EmailOk(email: string) {
    '@' in email && '.' in email
  }

  predicate PhoneOk(phone: string) {
    |phone| == 10 && AllDigits(phone)
  }

  // ---- Java's regular expression for "contains a digit", as written ----

  /** The line terminators that Java's '.' does not match. */
  predicate IsLineTerminator(c: char) {
    c == '\n' || c == '\r' || c == '\U{85}' || c == '\U{2028}' || c == '\U{2029}'
  }

  /** String.matches(".*\\d.*"): the whole string must match, and '.' stops at line
      terminators, so a name holding one never matches, digit or not. */
  predicate MatchesDigitPattern(s: string) {
    HasDigit(s) && forall i | 0 <= i < |s| :: !IsLineTerminator(s[i])
  }

  /** The name "Jo", LINE SEPARATOR, "5" holds a digit, yet the pattern does not match it,
      so both validators as written accept it, where the corrected rule refuses it. */
  lemma DigitPatternMissesDigitAfterLineBreak()
    ensures var name := "Jo\U{2028}5";
      && HasDigit(name) && !MatchesDigitPattern(name)
      && CheckRowNameAsWritten(name).None? && CheckRowName(name) == Some(NameDigits)
      && CheckStudentNameAsWritten(name).None? && CheckStudentName(name) == Some(NameDigitsForService)
  {
    var name := "Jo\U{2028}5";
    assert IsAsciiDigit(name[3]);
    assert IsLineTerminator(name[2]);
    assert !IsWhitespace(name[0]);
  }

  /** The name rule as written: the digit test is the pattern, not "holds a digit". */
  predicate NameOkAsWritten(name: string) {
    !IsBlank(name) && 2 <= Utf16Length(name) <= 60 && !MatchesDigitPattern(name)
  }

  /** The rule as written accepts every name the corrected rule accepts, and the two agree
      on every name without a line terminator. */
  lemma NameRulesAgree(name: string)
    ensures NameOk(name) ==> NameOkAsWritten(name)
    ensures (forall i | 0 <= i < |name| :: !IsLineTerminator(name[i])) ==> (NameOk(name) <==> NameOkAsWritten(name))
  {
  }

  /** Wherever the pattern matches, the string does hold a digit. */
  lemma DigitPatternSound(s: string)
    requires MatchesDigitPattern(s)
    ensures HasDigit(s)
  {
  }

  // ---- First failure wins ----

  /** The first failure in a list of rule outcomes, or None when every rule passed. */
  function FirstError(checks: seq<Option<string>>): (r: Option<string>)
    ensures r.None? <==> forall i | 0 <= i < |checks| :: checks[i].None?
    ensures r.Some? ==> exists k | 0 <= k < |checks| ::
      checks[k] == r && forall j | 0 <= j < k :: checks[j].None?
  {
    if checks == [] then None
    else if checks[0].Some? then checks[0]
    else
      var r := FirstError(checks[1..]);
      assert r.Some? ==> exists k | 0 <= k < |checks[1..]| ::
        checks[1..][k] == r && forall j | 0 <= j < k :: checks[1..][j].None?;
      if r.Some? then
        var k :| 0 <= k < |checks[1..]| && checks[1..][k] == r && forall j | 0 <= j < k :: checks[1..][j].None?;
        assert checks[k + 1] == r;
        r
      else r
  }

  // ---- ImportExportService.validateRow ----

  const IdRequired := "Student ID is required"
  const IdLength := "Student ID must be 4 to 20 characters"
  const IdCharacters := "Student ID must contain letters and digits only"
  const NameRequired := "Full name is required"
  const NameLength := "Full name must be 2 to 60 characters"
  const NameDigits := "Full name must not contain digits"
  const ProgrammeRequired := "Programme is required"
  const LevelNotNumber := "Level must be a number (100, 200, 300, 400)"
  const LevelNotAllowed := "Level must be one of: 100, 200, 300, 400"
  const GpaNotNumber := "GPA must be a number between 0.0 and 4.0"
  const GpaOutOfRange := "GPA must be between 0.0 and 4.0"
  const EmailRequired := "Email is required"
  const EmailFormat := "Email must contain an @ sign and a dot"
  const PhoneRequired := "Phone number is required"
  const PhoneFormat := "Phone number must be 10 digits (digits only)"
  const DateFormat := "Date added must be in format yyyy-MM-dd (example: 2026-02-23)"
  const StatusValue := "Status must be Active or Inactive"

  /** Every message validateRow can return. */
  const RowMessages: set<string> := {
    IdRequired, IdLength, IdCharacters, NameRequired, NameLength, NameDigits,
    ProgrammeRequired, LevelNotNumber, LevelNotAllowed, GpaNotNumber, GpaOutOfRange,
    EmailRequired, EmailFormat, PhoneRequired, PhoneFormat, DateFormat, StatusValue }

  /** The nine trimmed cells of an import row; status is "" when the row has eight. */
  datatype RowFields = RowFields(
    studentId: string,
    fullName: string,
    programme: string,
    levelText: string,
    gpaText: string,
    email: string,
    phone: string,
    dateText: string,
    status: string)

  /** The date cell may be blank; otherwise LocalDate.parse must accept it. */
  predicate DateOk(dateText: string, p: Parsers) {
    IsBlank(dateText) || p.parseDate(dateText).Some?
  }

  /** The status cell may be blank; otherwise it is "active" or "inactive" in any case. */
  predicate StatusOk(status: string) {
    IsBlank(status) || ToLower(Trim(status)) == "active" || ToLower(Trim(status)) == "inactive"
  }

  predicate LevelTextOk(levelText: string, p: Parsers) {
    p.parseInt(levelText).Some? && LevelOk(p.parseInt(levelText).value)
  }

  predicate GpaTextOk(gpaText: string, p: Parsers) {
    p.parseDouble(gpaText).Some? && GpaOk(p.parseDouble(gpaText).value)
  }

  /** Every rule of validateRow holds. */
  predicate RowValid(row: RowFields, p: Parsers) {
    && IdOk(row.studentId)
    && NameOk(row.fullName)
    && ProgrammeOk(row.programme)
    && LevelTextOk(row.levelText, p)
    && GpaTextOk(row.gpaText, p)
    && EmailOk(row.email)
    && PhoneOk(row.phone)
    && DateOk(row.dateText, p)
    && StatusOk(row.status)
  }

  function CheckRowId(id: string): (r: Option<string>)
    ensures r.None? <==> IdOk(id)
    ensures r.Some? ==> r.value in RowMessages
  {
    if IsBlank(id) then
      assert |id| > 0 ==> !IsAsciiLetterOrDigit(id[0]);
      Some(IdRequired)
    else if Utf16Length(id) < 4 || Utf16Length(id) > 20 then Some(IdLength)
    else if !(|id| >= 1 && AllLettersOrDigits(id)) then Some(IdCharacters)
    else None
  }

  /** The name rule with the digit test corrected to "holds no digit at all". */
  function CheckRowName(name: string): (r: Option<string>)
    ensures r.None? <==> NameOk(name)
    ensures r.None? ==> !HasDigit(name)
    ensures r.Some? ==> r.value in RowMessages
  {
    if IsBlank(name) then Some(NameRequired)
    else if Utf16Length(name) < 2 || Utf16Length(name) > 60 then Some(NameLength)
    else if HasDigit(name) then Some(NameDigits)
    else None
  }

  /** ImportExportService.java's name rule as written, with the digit pattern. */
  function CheckRowNameAsWritten(name: string): (r: Option<string>)
    ensures r.None? <==> NameOkAsWritten(name)
    ensures r.Some? ==> r.value in RowMessages
  {
    if IsBlank(name) then Some(NameRequired)
    else if Utf16Length(name) < 2 || Utf16Length(name) > 60 then Some(NameLength)
    else if MatchesDigitPattern(name) then Some(NameDigits)
    else None
  }

  function CheckRowLevel(levelText: string, p: Parsers): (r: Option<string>)
    ensures r.None? <==> LevelTextOk(levelText, p)
    ensures r.Some? ==> r.value in RowMessages
  {
    match p.parseInt(levelText)
    case None => Some(LevelNotNumber)
    case Some(level) => if LevelOk(level) then None else Some(LevelNotAllowed)
  }

  function CheckRowGpa(gpaText: string, p: Parsers): (r: Option<string>)
    ensures r.None? <==> GpaTextOk(gpaText, p)
    ensures r.Some? ==> r.value in RowMessages
  {
    match p.parseDouble(gpaText)
    case None => Some(GpaNotNumber)
    case Some(gpa) => if gpa < 0.0 || gpa > 4.0 then Some(GpaOutOfRange) else None
  }

  function CheckRowEmail(email: string): (r: Option<string>)
    ensures r.None? <==> EmailOk(email)
    ensures r.Some? ==> r.value in RowMessages
  {
    if IsBlank(email) then Some(EmailRequired)
    else if !('@' in email) || !('.' in email) then Some(EmailFormat)
    else None
  }

  function CheckRowPhone(phone: string): (r: Option<string>)
    ensures r.None? <==> PhoneOk(phone)
    ensures r.Some? ==> r.value in RowMessages
  {
    if IsBlank(phone) then
      assert |phone| > 0 ==> !IsAsciiDigit(phone[0]);
      Some(PhoneRequired)
    else if !PhoneOk(phone) then Some(PhoneFormat)
    else None
  }

  function CheckRowDate(dateText: string, p: Parsers): (r: Option<string>)
    ensures r.None? <==> DateOk(dateText, p)
    ensures r.Some? ==> r.value in RowMessages
  {
    if !IsBlank(dateText) && p.parseDate(dateText).None? then Some(DateFormat) else None
  }

  function CheckRowStatus(status: string): (r: Option<string>)
    ensures r.None? <==> StatusOk(status)
    ensures r.Some? ==> r.value in RowMessages
  {
    if !IsBlank(status) then
      var x := ToLower(Trim(status));
      if x != "active" && x != "inactive" then Some(StatusValue) else None
    else None
  }

  /** validateRow's rules, in the order it applies them. */
  function RowChecks(row: RowFields, p: Parsers): (checks: seq<Option<string>>)
    ensures |checks| == 9
  {
    [ CheckRowId(row.studentId), CheckRowName(row.fullName),
      if IsBlank(row.programme) then Some(ProgrammeRequired) else None,
      CheckRowLevel(row.levelText, p), CheckRowGpa(row.gpaText, p),
      CheckRowEmail(row.email), CheckRowPhone(row.phone),
      CheckRowDate(row.dateText, p), CheckRowStatus(row.status) ]
  }

  /** ImportExportService.validateRow: None (Java's null) exactly when every rule holds,
      otherwise the message of the first rule that fails. */
  function ValidateRow(row: RowFields, p: Parsers): (r: Option<string>)
    ensures r.None? <==> RowValid(row, p)
    ensures r.Some? ==> r.value in RowMessages
  {
    var checks := RowChecks(row, p);
    RowChecksPassExactlyWhenValid(row, p);
    RowChecksGiveRowMessages(row, p);
    FirstError(checks)
  }

  lemma RowChecksPassExactlyWhenValid(row: RowFields, p: Parsers)
    ensures (forall i | 0 <= i < 9 :: RowChecks(row, p)[i].None?) <==> RowValid(row, p)
  {
    var checks := RowChecks(row, p);
    assert (forall i | 0 <= i < 9 :: checks[i].None?) <==>
      checks[0].None? && checks[1].None? && checks[2].None? && checks[3].None? && checks[4].None?
      && checks[5].None? && checks[6].None? && checks[7].None? && checks[8].None?;
  }

  lemma RowChecksGiveRowMessages(row: RowFields, p: Parsers)
    ensures forall i | 0 <= i < 9 :: RowChecks(row, p)[i].Some? ==> RowChecks(row, p)[i].value in RowMessages
  {
  }

  /** The message validateRow returns is that of the first rule the row breaks. */
  lemma ValidateRowReportsFirstFailure(row: RowFields, p: Parsers)
    ensures var r := ValidateRow(row, p);
      r.Some? ==> exists k | 0 <= k < 9 ::
        RowChecks(row, p)[k] == r && forall j | 0 <= j < k :: RowChecks(row, p)[j].None?
  {
    assert ValidateRow(row, p) == FirstError(RowChecks(row, p));
  }

  /** validateRow as written: its name rule uses the digit pattern. */
  predicate RowValidAsWritten(row: RowFields, p: Parsers) {
    && IdOk(row.studentId)
    && NameOkAsWritten(row.fullName)
    && ProgrammeOk(row.programme)
    && LevelTextOk(row.levelText, p)
    && GpaTextOk(row.gpaText, p)
    && EmailOk(row.email)
    && PhoneOk(row.phone)
    && DateOk(row.dateText, p)
    && StatusOk(row.status)
  }

  /** validateRow's rules as written, in the order it applies them. */
  function RowChecksAsWritten(row: RowFields, p: Parsers): (checks: seq<Option<string>>)
    ensures |checks| == 9
  {
    [ CheckRowId(row.studentId), CheckRowNameAsWritten(row.fullName),
      if IsBlank(row.programme) then Some(ProgrammeRequired) else None,
      CheckRowLevel(row.levelText, p), CheckRowGpa(row.gpaText, p),
      CheckRowEmail(row.email), CheckRowPhone(row.phone),
      CheckRowDate(row.dateText, p), CheckRowStatus(row.status) ]
  }

  function ValidateRowAsWritten(row: RowFields, p: Parsers): (r: Option<string>)
    ensures r.None? <==> RowValidAsWritten(row, p)
    ensures r.Some? ==> r.value in RowMessages
  {
    var checks := RowChecksAsWritten(row, p);
    RowChecksAsWrittenPassExactlyWhenValid(row, p);
    RowChecksAsWrittenGiveRowMessages(row, p);
    FirstError(checks)
  }

  lemma RowChecksAsWrittenPassExactlyWhenValid(row: RowFields, p: Parsers)
    ensures (forall i | 0 <= i < 9 :: RowChecksAsWritten(row, p)[i].None?) <==> RowValidAsWritten(row, p)
  {
    var checks := RowChecksAsWritten(row, p);
    assert (forall i | 0 <= i < 9 :: checks[i].None?) <==>
      checks[0].None? && checks[1].None? && checks[2].None? && checks[3].None? && checks[4].None?
      && checks[5].None? && checks[6].None? && checks[7].None? && checks[8].None?;
  }

  lemma RowChecksAsWrittenGiveRowMessages(row: RowFields, p: Parsers)
    ensures forall i | 0 <= i < 9 :: RowChecksAsWritten(row, p)[i].Some? ==>
      RowChecksAsWritten(row, p)[i].value in RowMessages
  {
  }

  /** The corrected validateRow refuses every row the one as written refuses, and the two
      return the same message for every row whose name holds no line terminator. */
  lemma ValidateRowAsWrittenAgrees(row: RowFields, p: Parsers)
    ensures ValidateRow(row, p).None? ==> ValidateRowAsWritten(row, p).None?
    ensures (forall i | 0 <= i < |row.fullName| :: !IsLineTerminator(row.fullName[i])) ==>
      ValidateRowAsWritten(row, p) == ValidateRow(row, p)
  {
    NameRulesAgree(row.fullName);
    if forall i | 0 <= i < |row.fullName| :: !IsLineTerminator(row.fullName[i]) {
      assert CheckRowNameAsWritten(row.fullName) == CheckRowName(row.fullName);
      assert RowChecksAsWritten(row, p) == RowChecks(row, p);
    }
  }

  // ---- StudentService.validate ----

  const IdRequiredForService := "Student ID is required."
  const IdPatternForService := "Student ID must be 4\U{2013}20 characters (letters and digits only)."
  const NameRequiredForService := "Full name is required."
  const NameLengthForService := "Full name must be 2\U{2013}60 characters."
  const NameDigitsForService := "Full name must not contain digits."
  const ProgrammeRequiredForService := "Programme is required."
  const LevelForService := "Level must be one of: 100, 200, 300, 400."
  const GpaForService := "GPA must be between 0.0 and 4.0."
  const EmailRequiredForService := "Email is required."
  const EmailFormatForService := "Email must contain an @ sign and a dot."
  const PhoneRequiredForService := "Phone number is required."
  const PhoneFormatForService := "Phone number must be exactly 10 digits (digits only)."

  /** Every message validate can throw. */
  const ServiceMessages: set<string> := {
    IdRequiredForService, IdPatternForService, NameRequiredForService, NameLengthForService,
    NameDigitsForService, ProgrammeRequiredForService, LevelForService, GpaForService,
    EmailRequiredForService, EmailFormatForService, PhoneRequiredForService, PhoneFormatForService }

  /** String.matches("[A-Za-z0-9]{4,20}"). */
  predicate MatchesIdPattern(id: string) {
    4 <= |id| <= 20 && forall i | 0 <= i < |id| :: IsAsciiLetterOrDigit(id[i])
  }

  /** The service's one-pattern id check and the import's blank, length and character
      checks accept the same ids. */
  lemma IdChecksAgree(id: string)
    ensures (!IsBlank(id) && MatchesIdPattern(id)) <==> CheckRowId(id).None?
  {
    if MatchesIdPattern(id) {
      assert !IsWhitespace(id[0]);
    }
  }

  /** Every rule of validate holds. */
  predicate StudentValid(s: Student) {
    && IdOk(s.studentId)
    && NameOk(s.fullName)
    && ProgrammeOk(s.programme)
    && LevelOk(s.level)
    && GpaOk(s.gpa)
    && EmailOk(s.email)
    && PhoneOk(s.phone)
  }

  function CheckStudentId(id: string): (r: Option<string>)
    ensures r.None? <==> IdOk(id)
    ensures r.Some? ==> r.value in ServiceMessages
  {
    IdChecksAgree(id);
    if IsBlank(id) then Some(IdRequiredForService)
    else if !MatchesIdPattern(id) then Some(IdPatternForService)
    else None
  }

  function CheckStudentName(name: string): (r: Option<string>)
    ensures r.None? <==> NameOk(name)
    ensures r.Some? ==> r.value in ServiceMessages
  {
    if IsBlank(name) then Some(NameRequiredForService)
    else if Utf16Length(name) < 2 || Utf16Length(name) > 60 then Some(NameLengthForService)
    else if HasDigit(name) then Some(NameDigitsForService)
    else None
  }

  /** StudentService.java's name rule as written, with the digit pattern. */
  function CheckStudentNameAsWritten(name: string): (r: Option<string>)
    ensures r.None? <==> NameOkAsWritten(name)
    ensures r.Some? ==> r.value in ServiceMessages
  {
    if IsBlank(name) then Some(NameRequiredForService)
    else if Utf16Length(name) < 2 || Utf16Length(name) > 60 then Some(NameLengthForService)
    else if MatchesDigitPattern(name) then Some(NameDigitsForService)
    else None
  }

  function CheckStudentEmail(email: string): (r: Option<string>)
    ensures r.None? <==> EmailOk(email)
    ensures r.Some? ==> r.value in ServiceMessages
  {
    if IsBlank(email) then Some(EmailRequiredForService)
    else if !('@' in email) || !('.' in email) then Some(EmailFormatForService)
    else None
  }

  function CheckStudentPhone(phone: string): (r: Option<string>)
    ensures r.None? <==> PhoneOk(phone)
    ensures r.Some? ==> r.value in ServiceMessages
  {
    if IsBlank(phone) then
      assert |phone| > 0 ==> !IsAsciiDigit(phone[0]);
      Some(PhoneRequiredForService)
    else if !PhoneOk(phone) then Some(PhoneFormatForService)
    else None
  }

  /** validate's rules, in the order it applies them. */
  function StudentChecks(s: Student): (checks: seq<Option<string>>)
    ensures |checks| == 7
  {
    [ CheckStudentId(s.studentId), CheckStudentName(s.fullName),
      if IsBlank(s.programme) then Some(ProgrammeRequiredForService) else None,
      if !LevelOk(s.level) then Some(LevelForService) else None,
      if s.gpa < 0.0 || s.gpa > 4.0 then Some(GpaForService) else None,
      CheckStudentEmail(s.email), CheckStudentPhone(s.phone) ]
  }

  /** StudentService.validate: None when it returns normally, otherwise the message of
      the first rule that fails, which it throws. */
  function Validate(s: Student): (r: Option<string>)
    ensures r.None? <==> StudentValid(s)
    ensures r.Some? ==> r.value in ServiceMessages
  {
    var checks := StudentChecks(s);
    var r := FirstError(checks);
    assert r.None? <==> StudentValid(s) by {
      assert (forall i | 0 <= i < 7 :: checks[i].None?) <==>
        checks[0].None? && checks[1].None? && checks[2].None? && checks[3].None? && checks[4].None?
        && checks[5].None? && checks[6].None?;
    }
    r
  }

  /** validate as written: its name rule uses the digit pattern. */
  predicate StudentValidAsWritten(s: Student) {
    && IdOk(s.studentId)
    && NameOkAsWritten(s.fullName)
    && ProgrammeOk(s.programme)
    && LevelOk(s.level)
    && GpaOk(s.gpa)
    && EmailOk(s.email)
    && PhoneOk(s.phone)
  }

  /** validate's rules as written, in the order it applies them. */
  function StudentChecksAsWritten(s: Student): (checks: seq<Option<string>>)
    ensures |checks| == 7
  {
    [ CheckStudentId(s.studentId), CheckStudentNameAsWritten(s.fullName),
      if IsBlank(s.programme) then Some(ProgrammeRequiredForService) else None,
      if !LevelOk(s.level) then Some(LevelForService) else None,
      if s.gpa < 0.0 || s.gpa > 4.0 then Some(GpaForService) else None,
      CheckStudentEmail(s.email), CheckStudentPhone(s.phone) ]
  }

  function ValidateAsWritten(s: Student): (r: Option<string>)
    ensures r.None? <==> StudentValidAsWritten(s)
    ensures r.Some? ==> r.value in ServiceMessages
  {
    var checks := StudentChecksAsWritten(s);
    var r := FirstError(checks);
    assert r.None? <==> StudentValidAsWritten(s) by {
      assert (forall i | 0 <= i < 7 :: checks[i].None?) <==>
        checks[0].None? && checks[1].None? && checks[2].None? && checks[3].None? && checks[4].None?
        && checks[5].None? && checks[6].None?;
    }
    r
  }

  /** The corrected validate refuses every record the one as written refuses, and the two
      throw the same message for every record whose name holds no line terminator. */
  lemma ValidateAsWrittenAgrees(s: Student)
    ensures Validate(s).None? ==> ValidateAsWritten(s).None?
    ensures (forall i | 0 <= i < |s.fullName| :: !IsLineTerminator(s.fullName[i])) ==>
      ValidateAsWritten(s) == Validate(s)
  {
    NameRulesAgree(s.fullName);
    if forall i | 0 <= i < |s.fullName| :: !IsLineTerminator(s.fullName[i]) {
      assert CheckStudentNameAsWritten(s.fullName) == CheckStudentName(s.fullName);
      assert StudentChecksAsWritten(s) == StudentChecks(s);
    }
  }

  /** String.length() counts UTF-16 code units: a name of one character above U+FFFF has
      length 2 and passes the name rules, and 31 such characters are too long. */
  lemma NameLengthCountsCodeUnits()
    ensures |"\U{1F600}"| == 1 && CheckRowName("\U{1F600}").None? && CheckStudentName("\U{1F600}").None?
    ensures var long := seq(31, i => '\U{1F600}');
      Utf16Length(long) == 62 && CheckRowName(long) == Some(NameLength)
  {
    assert !IsWhitespace("\U{1F600}"[0]);
    var long := seq(31, i => '\U{1F600}');
    Utf16LengthAbove(long);
    assert !IsWhitespace(long[0]);
  }

  /** The message validate throws is that of the first rule the record breaks. */
  lemma ValidateReportsFirstFailure(s: Student)
    ensures var r := Validate(s);
      r.Some? ==> exists k | 0 <= k < 7 ::
        StudentChecks(s)[k] == r && forall j | 0 <= j < k :: StudentChecks(s)[j].None?
  {
    assert Validate(s) == FirstError(StudentChecks(s));
  }

  /** The seven rules the validators share accept the same records: a row that passes
      validateRow becomes, once its level and gpa are parsed, a record validate accepts. */
  lemma RowRulesImplyStudentRules(row: RowFields, p: Parsers, s: Student)
    requires RowValid(row, p)
    requires s.studentId == row.studentId && s.fullName == row.fullName
    requires s.programme == row.programme && s.email == row.email && s.phone == row.phone
    requires Some(s.level) == p.parseInt(row.levelText)
    requires Some(s.gpa) == p.parseDouble(row.gpaText)
    ensures Validate(s).None?
  {
  }
}
