/**
 * The roster's records (Domain/Student, TopPerformerRow, ProgrammeSummaryRow) and the
 * JDK conversions the services call, which are passed in rather than modelled.
 */
module Domain {
  import opened Wrappers

  /** A java.time.LocalDate; the model never inspects its calendar rules. */
  datatype Date = Date(year: int, month: int, day: int)

  datatype Student = Student(
    studentId: string,
    fullName: string,
    programme: string,
    level: int,
    gpa: real,
    email: string,
    phone: string,
    dateAdded: Option<Date>,
    status: string)

  datatype TopPerformerRow = TopPerformerRow(
    rank: int,
    studentId: string,
    fullName: string,
    programme: string,
    level: int,
    gpa: real)

  datatype ProgrammeSummaryRow = ProgrammeSummaryRow(programme: string, totalStudents: int, avgGpa: real)

  /** Integer.parseInt, Double.parseDouble and LocalDate.parse as partial functions:
      None where the JDK would throw. */
  datatype Parsers = Parsers(
    parseInt: string -> Option<int>,
    parseDouble: string -> Option<real>,
    parseDate: string -> Option<Date>)

  /** String.valueOf(double) and LocalDate.toString. */
  datatype Formats = Formats(formatDouble: real -> string, formatDate: Date -> string)
}
