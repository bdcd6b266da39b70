/**
 * The students table (SQLiteStudentRepository over the schema DatabaseInitializer
 * creates) held in memory, and StudentService's add, update and delete on top of it.
 */
module Students {
  import opened Wrappers
  import opened Domain
  import opened Validation
  import Seqs

  const DuplicateId := "Student ID already exists. Use a different ID."
  const SaveFailed := "Failed to save student."
  const UpdateFailed := "Failed to update student."

  /** The CHECK constraints of the students table: a level from 100 to 700 in hundreds,
      a gpa in [0, 4] and a status of exactly "Active" or "Inactive". */
  predicate TableAccepts(s: Student) {
    && s.level in {100, 200, 300, 400, 500, 600, 700}
    && 0.0 <= s.gpa <= 4.0
    && (s.status == "Active" || s.status == "Inactive")
  }

  /** The student_id column, in row order. */
  function Ids(rows: seq<Student>): (ids: seq<string>)
    ensures |ids| == |rows|
    ensures forall i | 0 <= i < |rows| :: ids[i] == rows[i].studentId
  {
    if rows == [] then [] else [rows[0].studentId] + Ids(rows[1..])
  }

  lemma IdsSnoc(rows: seq<Student>, s: Student)
    ensures Ids(rows + [s]) == Ids(rows) + [s.studentId]
  {
  }

  /** What the table can hold: student_id is the primary key and every row meets the
      CHECK constraints. */
  predicate TableValid(rows: seq<Student>) {
    Seqs.Distinct(Ids(rows)) && forall i | 0 <= i < |rows| :: TableAccepts(rows[i])
  }

  /** SELECT * FROM students WHERE student_id = id. */
  function Lookup(rows: seq<Student>, id: string): (r: Option<Student>)
    ensures r.None? <==> id !in Ids(rows)
    ensures r.Some? ==> r.value in rows && r.value.studentId == id
  {
    if rows == [] then None
    else if rows[0].studentId == id then Some(rows[0])
    else Lookup(rows[1..], id)
  }

  /** The UPDATE statement: the row whose student_id is s's takes s's values. */
  function Replaced(rows: seq<Student>, s: Student): (r: seq<Student>)
    ensures |r| == |rows|
    ensures Ids(r) == Ids(rows)
  {
    if rows == [] then []
    else [if rows[0].studentId == s.studentId then s else rows[0]] + Replaced(rows[1..], s)
  }

  /** The DELETE statement: every row with that student_id goes, the rest keep their order. */
  function Removed(rows: seq<Student>, id: string): (r: seq<Student>)
    ensures |r| <= |rows|
    ensures id !in Ids(r)
    ensures forall k | k in Ids(r) :: k in Ids(rows)
    ensures forall x :: x in r <==> x in rows && x.studentId != id
  {
    if rows == [] then []
    else (if rows[0].studentId == id then [] else [rows[0]]) + Removed(rows[1..], id)
  }

  /** A successful INSERT is found again under its id, and leaves every other id's row as it was. */
  lemma {:induction false} LookupAfterInsert(rows: seq<Student>, s: Student, id: string)
    requires s.studentId !in Ids(rows)
    ensures Lookup(rows + [s], id) == if id == s.studentId then Some(s) else Lookup(rows, id)
  {
    if rows == [] {
      assert [s][1..] == [];
    } else {
      assert (rows + [s])[1..] == rows[1..] + [s];
      LookupAfterInsert(rows[1..], s, id);
    }
  }

  /** After the UPDATE, the row under s's id is s when there was one; no other id's row changes. */
  lemma {:induction false} LookupAfterUpdate(rows: seq<Student>, s: Student, id: string)
    ensures Lookup(Replaced(rows, s), id) ==
      if id == s.studentId && id in Ids(rows) then Some(s) else Lookup(rows, id)
  {
    if rows != [] {
      LookupAfterUpdate(rows[1..], s, id);
    }
  }

  /** After the DELETE the id is gone and every other id's row is as it was. */
  lemma {:induction false} LookupAfterDelete(rows: seq<Student>, id: string, other: string)
    ensures Lookup(Removed(rows, id), other) == if other == id then None else Lookup(rows, other)
  {
    if rows != [] {
      LookupAfterDelete(rows[1..], id, other);
      var rest := Removed(rows[1..], id);
      if rows[0].studentId != id {
        var r := [rows[0]] + rest;
        assert Removed(rows, id) == r;
        assert r[0] == rows[0] && r[1..] == rest;
      } else {
        assert Removed(rows, id) == rest;
      }
    }
  }

  /** Adding a row and then deleting its id gives back the table it was added to. */
  lemma {:induction false} DeleteUndoesInsert(rows: seq<Student>, s: Student)
    requires s.studentId !in Ids(rows)
    ensures Removed(rows + [s], s.studentId) == rows
  {
    if rows == [] {
      assert [s][1..] == [];
    } else {
      assert (rows + [s])[1..] == rows[1..] + [s];
      DeleteUndoesInsert(rows[1..], s);
    }
  }

  /** Each of the three writes keeps the primary key and the CHECK constraints. */
  lemma InsertKeepsTableValid(rows: seq<Student>, s: Student)
    requires TableValid(rows) && TableAccepts(s) && s.studentId !in Ids(rows)
    ensures TableValid(rows + [s])
  {
    IdsSnoc(rows, s);
  }

  lemma {:induction false} UpdateKeepsTableValid(rows: seq<Student>, s: Student)
    requires TableValid(rows) && TableAccepts(s)
    ensures TableValid(Replaced(rows, s))
  {
    if rows != [] {
      assert Ids(rows[1..]) == Ids(rows)[1..];
      UpdateKeepsTableValid(rows[1..], s);
    }
  }

  lemma {:induction false} DeleteKeepsTableValid(rows: seq<Student>, id: string)
    requires TableValid(rows)
    ensures TableValid(Removed(rows, id))
  {
    if rows != [] {
      assert Ids(rows[1..]) == Ids(rows)[1..];
      DeleteKeepsTableValid(rows[1..], id);
      var rest := Removed(rows[1..], id);
      if rows[0].studentId != id {
        var r := [rows[0]] + rest;
        assert Removed(rows, id) == r;
        assert Ids(r) == [rows[0].studentId] + Ids(rest);
        assert rows[0].studentId !in Ids(rows[1..]);
      }
    }
  }

  /** SQLiteStudentRepository: the students table. */
  class StudentRepository {
    var rows: seq<Student>

    ghost predicate Valid()
      reads this
    {
      TableValid(rows)
    }

    constructor ()
      ensures Valid() && rows == []
    {
      rows := [];
    }

    /** findAll: every row, in table order. */
    method FindAll() returns (all: seq<Student>)
      ensures all == rows
    {
      all := rows;
    }

    /** existsById. */
    method ExistsById(id: string) returns (b: bool)
      ensures b <==> id in Ids(rows)
      ensures b <==> Lookup(rows, id).Some?
    {
      b := id in Ids(rows);
    }

    /** save: the INSERT, which the primary key and the CHECK constraints may refuse. */
    method Save(s: Student) returns (outcome: Outcome<string>)
      requires Valid()
      modifies this
      ensures Valid()
      ensures outcome.Pass? <==> TableAccepts(s) && s.studentId !in Ids(old(rows))
      ensures outcome.Fail? ==> outcome.error == SaveFailed && rows == old(rows)
      ensures outcome.Pass? ==> rows == old(rows) + [s]
    {
      if !TableAccepts(s) || s.studentId in Ids(rows) {
        return Fail(SaveFailed);
      }
      InsertKeepsTableValid(rows, s);
      rows := rows + [s];
      outcome := Pass;
    }

    /** update: the UPDATE ... WHERE student_id = ?; a CHECK violation fails only when a
        row is actually rewritten, and no matching row means no change. */
    method Update(s: Student) returns (outcome: Outcome<string>)
      requires Valid()
      modifies this
      ensures Valid()
      ensures outcome.Fail? <==> s.studentId in Ids(old(rows)) && !TableAccepts(s)
      ensures outcome.Fail? ==> outcome.error == UpdateFailed && rows == old(rows)
      ensures outcome.Pass? ==> rows == Replaced(old(rows), s)
      ensures outcome.Pass? && s.studentId !in Ids(old(rows)) ==> rows == old(rows)
    {
      var present := s.studentId in Ids(rows);
      if present && !TableAccepts(s) {
        return Fail(UpdateFailed);
      }
      if !present {
        ReplaceAbsent(rows, s);
      } else {
        UpdateKeepsTableValid(rows, s);
      }
      rows := Replaced(rows, s);
      outcome := Pass;
    }

    /** delete: the DELETE; it never reports a failure. */
    method Delete(id: string)
      requires Valid()
      modifies this
      ensures Valid()
      ensures rows == Removed(old(rows), id)
    {
      DeleteKeepsTableValid(rows, id);
      rows := Removed(rows, id);
    }
  }

  /** An UPDATE that matches no row changes nothing. */
  lemma {:induction false} ReplaceAbsent(rows: seq<Student>, s: Student)
    requires s.studentId !in Ids(rows)
    ensures Replaced(rows, s) == rows
  {
    if rows != [] {
      ReplaceAbsent(rows[1..], s);
    }
  }

  /** StudentService: validation in front of the repository. */
  class StudentService {
    const repository: StudentRepository

    ghost predicate Valid()
      reads repository
    {
      repository.Valid()
    }

    constructor (repository: StudentRepository)
      requires repository.Valid()
      ensures this.repository == repository && Valid()
    {
      this.repository := repository;
    }

    /** getAllStudents. */
    method GetAllStudents() returns (all: seq<Student>)
      ensures all == repository.rows
    {
      all := repository.FindAll();
    }

    /** addStudent: the first rule validate rejects, else the duplicate-id message, else
        whatever save reports. */
    method AddStudent(s: Student) returns (outcome: Outcome<string>)
      requires Valid()
      modifies repository
      ensures Valid()
      ensures Validate(s).Some? ==> outcome == Fail(Validate(s).value)
      ensures Validate(s).None? && s.studentId in Ids(old(repository.rows)) ==> outcome == Fail(DuplicateId)
      ensures Validate(s).None? && s.studentId !in Ids(old(repository.rows)) ==>
        outcome == (if TableAccepts(s) then Pass else Fail(SaveFailed))
      ensures outcome.Pass? <==> StudentValid(s) && TableAccepts(s) && s.studentId !in Ids(old(repository.rows))
      ensures repository.rows == if outcome.Pass? then old(repository.rows) + [s] else old(repository.rows)
    {
      var error := Validate(s);
      if error.Some? {
        return Fail(error.value);
      }
      var taken := repository.ExistsById(s.studentId);
      if taken {
        return Fail(DuplicateId);
      }
      outcome := repository.Save(s);
    }

    /** updateStudent: the first rule validate rejects, else whatever update reports. */
    method UpdateStudent(s: Student) returns (outcome: Outcome<string>)
      requires Valid()
      modifies repository
      ensures Valid()
      ensures Validate(s).Some? ==> outcome == Fail(Validate(s).value)
      ensures Validate(s).None? ==>
        outcome == (if s.studentId in Ids(old(repository.rows)) && !TableAccepts(s) then Fail(UpdateFailed) else Pass)
      ensures repository.rows == if outcome.Pass? then Replaced(old(repository.rows), s) else old(repository.rows)
    {
      var error := Validate(s);
      if error.Some? {
        return Fail(error.value);
      }
      outcome := repository.Update(s);
    }

    /** deleteStudent. */
    method DeleteStudent(id: string)
      requires Valid()
      modifies repository
      ensures Valid()
      ensures repository.rows == Removed(old(repository.rows), id)
    {
      repository.Delete(id);
    }
  }
}
