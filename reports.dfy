/**
 * ReportService: the average, the top-performer ranking, the at-risk list, the GPA
 * distribution and the per-programme summary, each computed from the students that
 * findAll returns (passed in as all).
 */
module Reports {
  import opened Wrappers
  import opened Text
  import opened Domain
  import Seqs

  // ---- averageGpa ----

  function SumGpa(students: seq<Student>): real {
    if students == [] then 0.0 else SumGpa(students[..|students| - 1]) + students[|students| - 1].gpa
  }

  /** averageGpa: 0.0 for no students, otherwise the mean gpa. */
  function AverageGpa(students: seq<Student>): (r: real)
    ensures students == [] ==> r == 0.0
    ensures students != [] ==> r * (|students| as real) == SumGpa(students)
  {
    if students == [] then 0.0 else SumGpa(students) / (|students| as real)
  }

  lemma {:induction false} SumGpaBounds(students: seq<Student>, lo: real, hi: real)
    requires forall i | 0 <= i < |students| :: lo <= students[i].gpa <= hi
    ensures (|students| as real) * lo <= SumGpa(students) <= (|students| as real) * hi
  {
    if students != [] {
      SumGpaBounds(students[..|students| - 1], lo, hi);
    }
  }

  /** The mean lies between the lowest and highest gpa; with every gpa in [0, 4] so does it. */
  lemma AverageWithinBounds(students: seq<Student>, lo: real, hi: real)
    requires students != []
    requires forall i | 0 <= i < |students| :: lo <= students[i].gpa <= hi
    ensures lo <= AverageGpa(students) <= hi
  {
    SumGpaBounds(students, lo, hi);
    var n := |students| as real;
    assert AverageGpa(students) == SumGpa(students) / n;
  }

  // ---- getTopPerformers ----

  /** The programme filter: none or blank means no filter, otherwise equal ignoring case. */
  predicate ProgrammeMatches(programme: Option<string>, s: Student) {
    programme.None? || IsBlank(programme.value) || EqualsIgnoreCase(programme.value, s.programme)
  }

  /** The level filter: none or 0 means no filter, otherwise equal. */
  predicate LevelMatches(level: Option<int>, s: Student) {
    level.None? || level.value == 0 || level.value == s.level
  }

  /** The ranking comparator: higher gpa first, then full name ignoring case. */
  predicate TopOrder(a: Student, b: Student) {
    a.gpa > b.gpa || (a.gpa == b.gpa && IgnoreCaseLe(a.fullName, b.fullName))
  }

  lemma TopOrderIsTotalPreorder()
    ensures Seqs.TotalPreorder(TopOrder)
  {
    forall a, b ensures TopOrder(a, b) || TopOrder(b, a) {
      IgnoreCaseLeTotal(a.fullName, b.fullName);
    }
    forall a, b, c | TopOrder(a, b) && TopOrder(b, c) ensures TopOrder(a, c) {
      if a.gpa == b.gpa == c.gpa {
        IgnoreCaseLeTransitive(a.fullName, b.fullName, c.fullName);
      }
    }
  }

  /** The students both filters keep, in table order. */
  function Eligible(all: seq<Student>, programme: Option<string>, level: Option<int>): (r: seq<Student>)
    ensures forall i | 0 <= i < |r| :: ProgrammeMatches(programme, r[i]) && LevelMatches(level, r[i])
  {
    Seqs.Filter(all, (s: Student) => ProgrammeMatches(programme, s) && LevelMatches(level, s))
  }

  /** Eligible keeps every matching student as often as the table holds it, and no other. */
  lemma EligibleIsSubMultiset(all: seq<Student>, programme: Option<string>, level: Option<int>)
    ensures multiset(Eligible(all, programme, level)) <= multiset(all)
    ensures forall s: Student | ProgrammeMatches(programme, s) && LevelMatches(level, s) ::
      multiset(Eligible(all, programme, level))[s] == multiset(all)[s]
  {
    Seqs.FilterMultiset(all, (s: Student) => ProgrammeMatches(programme, s) && LevelMatches(level, s));
  }

  /** With neither filter set every student is eligible. */
  lemma EligibleUnfiltered(all: seq<Student>)
    ensures Eligible(all, None, None) == all
  {
    Seqs.FilterAll(all, (s: Student) => ProgrammeMatches(None, s) && LevelMatches(None, s));
  }

  /** The eligible students in ranking order. */
  function Ranking(all: seq<Student>, programme: Option<string>, level: Option<int>): (r: seq<Student>)
    ensures multiset(r) == multiset(Eligible(all, programme, level))
    ensures Seqs.Sorted(r, TopOrder)
  {
    var eligible := Eligible(all, programme, level);
    TopOrderIsTotalPreorder();
    Seqs.SortSorted(eligible, TopOrder);
    Seqs.Sort(eligible, TopOrder)
  }

  /** The students the ranking lists: the eligible ones in ranking order, cut at limit. */
  function TopSelection(all: seq<Student>, programme: Option<string>, level: Option<int>, limit: nat): (r: seq<Student>)
    ensures |r| == if limit < |Eligible(all, programme, level)| then limit else |Eligible(all, programme, level)|
    ensures r == Ranking(all, programme, level)[..|r|]
  {
    var ranked := Ranking(all, programme, level);
    assert |ranked| == |multiset(ranked)|;
    Seqs.Take(ranked, limit)
  }

  /** The listed students pass both filters and come in ranking order. */
  lemma TopSelectionFilteredAndOrdered(all: seq<Student>, programme: Option<string>, level: Option<int>, limit: nat)
    ensures var sel := TopSelection(all, programme, level, limit);
      && (forall i | 0 <= i < |sel| :: ProgrammeMatches(programme, sel[i]) && LevelMatches(level, sel[i]))
      && Seqs.Sorted(sel, TopOrder)
  {
    var ranked := Ranking(all, programme, level);
    var sel := TopSelection(all, programme, level, limit);
    forall i | 0 <= i < |sel| ensures ProgrammeMatches(programme, sel[i]) && LevelMatches(level, sel[i]) {
      assert sel[i] == ranked[i];
      assert ranked[i] in multiset(Eligible(all, programme, level));
    }
    forall i, j | 0 <= i < j < |sel| ensures TopOrder(sel[i], sel[j]) {
      assert sel[i] == ranked[i] && sel[j] == ranked[j];
    }
  }

  /** The ranking is the top of the eligible students: the ones left out are exactly the
      rest of them, and each one listed ranks no lower than each one left out. */
  lemma TopSelectionIsTop(all: seq<Student>, programme: Option<string>, level: Option<int>, limit: nat)
    ensures var sel := TopSelection(all, programme, level, limit);
      var rest := Ranking(all, programme, level)[|sel|..];
      && multiset(sel) + multiset(rest) == multiset(Eligible(all, programme, level))
      && forall i, j | 0 <= i < |sel| && 0 <= j < |rest| :: TopOrder(sel[i], rest[j])
  {
    var ranked := Ranking(all, programme, level);
    var sel := TopSelection(all, programme, level, limit);
    var rest := ranked[|sel|..];
    assert ranked == sel + rest;
    forall i, j | 0 <= i < |sel| && 0 <= j < |rest| ensures TopOrder(sel[i], rest[j]) {
      assert sel[i] == ranked[i] && rest[j] == ranked[|sel| + j];
    }
  }

  function Ranked(s: Student, rank: int): TopPerformerRow {
    TopPerformerRow(rank, s.studentId, s.fullName, s.programme, s.level, s.gpa)
  }

  /** getTopPerformers: row i is the i-th student of the ranking, with rank i + 1. */
  method GetTopPerformers(all: seq<Student>, programme: Option<string>, level: Option<int>, limit: nat)
    returns (rows: seq<TopPerformerRow>)
    ensures |rows| == |TopSelection(all, programme, level, limit)|
    ensures |rows| <= limit
    ensures forall i | 0 <= i < |rows| :: rows[i] == Ranked(TopSelection(all, programme, level, limit)[i], i + 1)
    ensures forall i | 0 <= i < |rows| :: rows[i].rank == i + 1
    ensures forall i, j | 0 <= i < j < |rows| :: rows[i].gpa >= rows[j].gpa
  {
    var filtered := TopSelection(all, programme, level, limit);
    rows := [];
    for i := 0 to |filtered|
      invariant |rows| == i
      invariant forall k | 0 <= k < i :: rows[k] == Ranked(filtered[k], k + 1)
    {
      var s := filtered[i];
      rows := rows + [TopPerformerRow(i + 1, s.studentId, s.fullName, s.programme, s.level, s.gpa)];
    }
    TopSelectionFilteredAndOrdered(all, programme, level, limit);
    forall i, j | 0 <= i < j < |rows| ensures rows[i].gpa >= rows[j].gpa {
      assert TopOrder(filtered[i], filtered[j]);
    }
  }

  // ---- getAtRiskStudents ----

  predicate GpaAscending(a: Student, b: Student) {
    a.gpa <= b.gpa
  }

  /** getAtRiskStudents: exactly the students below the threshold, each as often as in
      the table, in ascending gpa order. */
  function AtRiskStudents(all: seq<Student>, threshold: real): (r: seq<Student>)
    ensures forall i | 0 <= i < |r| :: r[i].gpa < threshold
    ensures forall s: Student | s.gpa < threshold :: multiset(r)[s] == multiset(all)[s]
    ensures multiset(r) <= multiset(all)
    ensures forall i, j | 0 <= i < j < |r| :: r[i].gpa <= r[j].gpa
  {
    var r := Seqs.Sort(Seqs.Filter(all, Below(threshold)), GpaAscending);
    AtRiskContents(all, threshold, r);
    AtRiskOrdered(all, threshold, r);
    r
  }

  /** The test the stream filters with. */
  function Below(threshold: real): Student -> bool {
    (s: Student) => s.gpa < threshold
  }

  lemma AtRiskContents(all: seq<Student>, threshold: real, r: seq<Student>)
    requires r == Seqs.Sort(Seqs.Filter(all, Below(threshold)), GpaAscending)
    ensures forall i | 0 <= i < |r| :: r[i].gpa < threshold
    ensures forall s: Student | s.gpa < threshold :: multiset(r)[s] == multiset(all)[s]
    ensures multiset(r) <= multiset(all)
  {
    var below := Seqs.Filter(all, Below(threshold));
    Seqs.FilterMultiset(all, Below(threshold));
    forall i | 0 <= i < |r| ensures r[i].gpa < threshold {
      assert r[i] in multiset(below);
    }
  }

  lemma AtRiskOrdered(all: seq<Student>, threshold: real, r: seq<Student>)
    requires r == Seqs.Sort(Seqs.Filter(all, Below(threshold)), GpaAscending)
    ensures forall i, j | 0 <= i < j < |r| :: r[i].gpa <= r[j].gpa
  {
    assert Seqs.TotalPreorder(GpaAscending);
    Seqs.SortSorted(Seqs.Filter(all, Below(threshold)), GpaAscending);
  }

  // ---- getGpaDistribution ----

  /** The five band labels, in the map's insertion order. */
  const BandLabels: seq<string> := ["0.0-0.9", "1.0-1.9", "2.0-2.9", "3.0-3.4", "3.5-4.0"]

  /** The lower bounds of bands 1 to 4. */
  const Cuts: seq<real> := [1.0, 2.0, 3.0, 3.5]

  /** The band of a gpa: the one whose interval holds it. */
  function BandOf(g: real): (b: nat)
    ensures b < 5
    ensures b == 0 || Cuts[b - 1] <= g
    ensures b == 4 || g < Cuts[b]
  {
    if g < 1.0 then 0
    else if g < 2.0 then 1
    else if g < 3.0 then 2
    else if g < 3.5 then 3
    else 4
  }

  /** The number of students in band b. */
  function CountInBand(students: seq<Student>, b: nat): nat {
    if students == [] then 0
    else CountInBand(students[..|students| - 1], b) + (if BandOf(students[|students| - 1].gpa) == b then 1 else 0)
  }

  /** Every student falls in exactly one band. */
  lemma {:induction false} BandsCoverAll(students: seq<Student>)
    ensures CountInBand(students, 0) + CountInBand(students, 1) + CountInBand(students, 2)
      + CountInBand(students, 3) + CountInBand(students, 4) == |students|
  {
    if students != [] {
      BandsCoverAll(students[..|students| - 1]);
    }
  }

  /** getGpaDistribution: the five bands in order, each with the number of students in it. */
  method GetGpaDistribution(all: seq<Student>) returns (dist: seq<(string, nat)>)
    ensures |dist| == 5
    ensures forall b | 0 <= b < 5 :: dist[b] == (BandLabels[b], CountInBand(all, b))
    ensures dist[0].1 + dist[1].1 + dist[2].1 + dist[3].1 + dist[4].1 == |all|
  {
    dist := seq(5, b requires 0 <= b < 5 => (BandLabels[b], 0));
    for i := 0 to |all|
      invariant |dist| == 5
      invariant forall b | 0 <= b < 5 :: dist[b] == (BandLabels[b], CountInBand(all[..i], b))
    {
      assert all[..i + 1][..i] == all[..i];
      var band := BandOf(all[i].gpa);
      dist := dist[band := (dist[band].0, dist[band].1 + 1)];
    }
    assert all[..|all|] == all;
    BandsCoverAll(all);
  }

  // ---- getProgrammeSummary ----

  /** The programme column of the table, in row order. */
  function ProgrammesOf(all: seq<Student>): seq<string> {
    Seqs.Map(all, (s: Student) => s.programme)
  }

  /** The distinct programme names, exact case, in order of first appearance. */
  function Programmes(all: seq<Student>): (r: seq<string>)
    ensures Seqs.Distinct(r)
    ensures forall p :: p in r <==> p in ProgrammesOf(all)
  {
    if all == [] then []
    else
      var init := all[..|all| - 1];
      var p := all[|all| - 1].programme;
      assert ProgrammesOf(all) == ProgrammesOf(init) + [p];
      var ps := Programmes(init);
      if p in ps then ps else ps + [p]
  }

  /** The students of one programme (Collectors.groupingBy, exact case). */
  function Group(all: seq<Student>, p: string): (r: seq<Student>)
    ensures forall i | 0 <= i < |r| :: r[i].programme == p
  {
    Seqs.Filter(all, (s: Student) => s.programme == p)
  }

  /** A group holds every student of its programme, as often as the table does, and no other. */
  lemma GroupIsSubMultiset(all: seq<Student>, p: string)
    ensures multiset(Group(all, p)) <= multiset(all)
    ensures forall s: Student | s.programme == p :: multiset(Group(all, p))[s] == multiset(all)[s]
  {
    Seqs.FilterMultiset(all, (s: Student) => s.programme == p);
  }

  /** The summary row of one programme: its name, its head count and its mean gpa. */
  function SummaryOf(all: seq<Student>, p: string): (row: ProgrammeSummaryRow) {
    ProgrammeSummaryRow(p, |Group(all, p)|, AverageGpa(Group(all, p)))
  }

  predicate SummaryOrder(a: ProgrammeSummaryRow, b: ProgrammeSummaryRow) {
    IgnoreCaseLe(a.programme, b.programme)
  }

  lemma SummaryOrderIsTotalPreorder()
    ensures Seqs.TotalPreorder(SummaryOrder)
  {
    forall a, b ensures SummaryOrder(a, b) || SummaryOrder(b, a) {
      IgnoreCaseLeTotal(a.programme, b.programme);
    }
    forall a, b, c | SummaryOrder(a, b) && SummaryOrder(b, c) ensures SummaryOrder(a, c) {
      IgnoreCaseLeTransitive(a.programme, b.programme, c.programme);
    }
  }

  function TotalStudents(rows: seq<ProgrammeSummaryRow>): int {
    if rows == [] then 0 else TotalStudents(rows[..|rows| - 1]) + rows[|rows| - 1].totalStudents
  }

  lemma {:induction false} TotalStudentsCons(row: ProgrammeSummaryRow, rows: seq<ProgrammeSummaryRow>)
    ensures TotalStudents([row] + rows) == row.totalStudents + TotalStudents(rows)
  {
    if rows != [] {
      var init := rows[..|rows| - 1];
      assert ([row] + rows)[..|rows|] == [row] + init;
      TotalStudentsCons(row, init);
    }
  }

  lemma {:induction false} TotalStudentsInsert(row: ProgrammeSummaryRow, rows: seq<ProgrammeSummaryRow>)
    ensures TotalStudents(Seqs.Insert(row, rows, SummaryOrder)) == row.totalStudents + TotalStudents(rows)
  {
    if rows == [] || SummaryOrder(row, rows[0]) {
      TotalStudentsCons(row, rows);
    } else {
      TotalStudentsInsert(row, rows[1..]);
      TotalStudentsCons(rows[0], Seqs.Insert(row, rows[1..], SummaryOrder));
      assert rows == [rows[0]] + rows[1..];
      TotalStudentsCons(rows[0], rows[1..]);
    }
  }

  /** Sorting the rows does not change the head-count total. */
  lemma {:induction false} TotalStudentsSort(rows: seq<ProgrammeSummaryRow>)
    ensures TotalStudents(Seqs.Sort(rows, SummaryOrder)) == TotalStudents(rows)
  {
    if rows != [] {
      TotalStudentsSort(rows[1..]);
      TotalStudentsInsert(rows[0], Seqs.Sort(rows[1..], SummaryOrder));
      assert rows == [rows[0]] + rows[1..];
      TotalStudentsCons(rows[0], rows[1..]);
    }
  }

  /** The number of students whose programme is among ps. */
  function CountAmong(all: seq<Student>, ps: seq<string>): nat {
    if all == [] then 0
    else CountAmong(all[..|all| - 1], ps) + (if all[|all| - 1].programme in ps then 1 else 0)
  }

  /** Adding a new name p to ps adds the size of p's group. */
  lemma {:induction false} CountAmongSnoc(all: seq<Student>, ps: seq<string>, p: string)
    requires p !in ps
    ensures CountAmong(all, ps + [p]) == CountAmong(all, ps) + |Group(all, p)|
  {
    if all != [] {
      var init := all[..|all| - 1];
      var x := all[|all| - 1];
      assert all == init + [x];
      CountAmongSnoc(init, ps, p);
      Seqs.FilterSnoc(init, x, (s: Student) => s.programme == p);
    }
  }

  lemma {:induction false} CountAmongAll(all: seq<Student>, ps: seq<string>)
    requires forall i | 0 <= i < |all| :: all[i].programme in ps
    ensures CountAmong(all, ps) == |all|
  {
    if all != [] {
      CountAmongAll(all[..|all| - 1], ps);
    }
  }

  /** The rows built for the names ps, before sorting. */
  function SummaryRows(all: seq<Student>, ps: seq<string>): (rows: seq<ProgrammeSummaryRow>)
    ensures |rows| == |ps|
    ensures forall i | 0 <= i < |ps| :: rows[i] == SummaryOf(all, ps[i])
  {
    if ps == [] then [] else SummaryRows(all, ps[..|ps| - 1]) + [SummaryOf(all, ps[|ps| - 1])]
  }

  /** For distinct names, the rows' head counts add up to the students among those names. */
  lemma {:induction false} SummaryRowsTotal(all: seq<Student>, ps: seq<string>)
    requires Seqs.Distinct(ps)
    ensures TotalStudents(SummaryRows(all, ps)) == CountAmong(all, ps)
  {
    if ps == [] {
      CountAmongAll([], ps);
      assert CountAmong(all, []) == 0 by {
        CountAmongNone(all);
      }
    } else {
      var init := ps[..|ps| - 1];
      var p := ps[|ps| - 1];
      assert ps == init + [p];
      SummaryRowsTotal(all, init);
      CountAmongSnoc(all, init, p);
    }
  }

  lemma {:induction false} CountAmongNone(all: seq<Student>)
    ensures CountAmong(all, []) == 0
  {
    if all != [] {
      CountAmongNone(all[..|all| - 1]);
    }
  }

  /** The column of programme names. */
  function ProgrammeColumn(rows: seq<ProgrammeSummaryRow>): seq<string> {
    Seqs.Map(rows, (row: ProgrammeSummaryRow) => row.programme)
  }

  /** getProgrammeSummary: one row per distinct programme, holding its head count and mean
      gpa, ordered by name ignoring case; the head counts add up to the number of students. */
  method GetProgrammeSummary(all: seq<Student>) returns (rows: seq<ProgrammeSummaryRow>)
    ensures |rows| == |Programmes(all)|
    ensures forall i | 0 <= i < |rows| :: rows[i] == SummaryOf(all, rows[i].programme)
    ensures forall p :: p in ProgrammeColumn(rows) <==> p in ProgrammesOf(all)
    ensures Seqs.Distinct(ProgrammeColumn(rows))
    ensures Seqs.Sorted(rows, SummaryOrder)
    ensures TotalStudents(rows) == |all|
  {
    var keys := Programmes(all);
    var unsorted: seq<ProgrammeSummaryRow> := [];
    for i := 0 to |keys|
      invariant unsorted == SummaryRows(all, keys[..i])
    {
      assert keys[..i + 1][..i] == keys[..i];
      var students := Group(all, keys[i]);
      var count := |students|;
      var avg := AverageGpa(students);
      unsorted := unsorted + [ProgrammeSummaryRow(keys[i], count, avg)];
    }
    assert keys[..|keys|] == keys;
    rows := Seqs.Sort(unsorted, SummaryOrder);
    SortedSummary(all, unsorted, rows);
  }

  /** The sorted rows for the distinct programmes of all have every property the summary promises. */
  lemma SortedSummary(all: seq<Student>, unsorted: seq<ProgrammeSummaryRow>, rows: seq<ProgrammeSummaryRow>)
    requires unsorted == SummaryRows(all, Programmes(all))
    requires rows == Seqs.Sort(unsorted, SummaryOrder)
    ensures |rows| == |Programmes(all)|
    ensures forall i | 0 <= i < |rows| :: rows[i] == SummaryOf(all, rows[i].programme)
    ensures forall p :: p in ProgrammeColumn(rows) <==> p in ProgrammesOf(all)
    ensures Seqs.Distinct(ProgrammeColumn(rows))
    ensures Seqs.Sorted(rows, SummaryOrder)
    ensures TotalStudents(rows) == |all|
  {
    var keys := Programmes(all);
    SummaryOrderIsTotalPreorder();
    Seqs.SortSorted(unsorted, SummaryOrder);
    PermutedSummaries(all, keys, unsorted, rows);
    PermutedSummariesCover(all, keys, unsorted, rows);
    PermutedSummariesDistinct(all, keys, unsorted, rows);
    SortedSummaryTotal(all, unsorted, rows);
  }

  lemma SortedSummaryTotal(all: seq<Student>, unsorted: seq<ProgrammeSummaryRow>, rows: seq<ProgrammeSummaryRow>)
    requires unsorted == SummaryRows(all, Programmes(all))
    requires rows == Seqs.Sort(unsorted, SummaryOrder)
    ensures TotalStudents(rows) == |all|
  {
    var keys := Programmes(all);
    TotalStudentsSort(unsorted);
    SummaryRowsTotal(all, keys);
    CountAmongAll(all, keys);
  }

  lemma PermutedSummaries(all: seq<Student>, keys: seq<string>, unsorted: seq<ProgrammeSummaryRow>,
                          rows: seq<ProgrammeSummaryRow>)
    requires unsorted == SummaryRows(all, keys) && multiset(rows) == multiset(unsorted)
    ensures |rows| == |keys|
    ensures forall i | 0 <= i < |rows| :: rows[i] == SummaryOf(all, rows[i].programme) && rows[i].programme in keys
  {
    assert |rows| == |multiset(rows)| == |multiset(unsorted)| == |unsorted|;
    forall i | 0 <= i < |rows| ensures rows[i] == SummaryOf(all, rows[i].programme) && rows[i].programme in keys {
      assert rows[i] in multiset(unsorted);
      var j :| 0 <= j < |unsorted| && unsorted[j] == rows[i];
    }
  }

  lemma PermutedSummariesCover(all: seq<Student>, keys: seq<string>, unsorted: seq<ProgrammeSummaryRow>,
                               rows: seq<ProgrammeSummaryRow>)
    requires unsorted == SummaryRows(all, keys) && multiset(rows) == multiset(unsorted)
    ensures forall p | p in keys :: p in ProgrammeColumn(rows)
  {
    forall p | p in keys ensures p in ProgrammeColumn(rows) {
      var j :| 0 <= j < |keys| && keys[j] == p;
      assert unsorted[j] in multiset(rows);
      var i :| 0 <= i < |rows| && rows[i] == unsorted[j];
      assert ProgrammeColumn(rows)[i] == p;
    }
  }

  lemma PermutedSummariesDistinct(all: seq<Student>, keys: seq<string>, unsorted: seq<ProgrammeSummaryRow>,
                                  rows: seq<ProgrammeSummaryRow>)
    requires Seqs.Distinct(keys)
    requires unsorted == SummaryRows(all, keys) && multiset(rows) == multiset(unsorted)
    requires forall i | 0 <= i < |rows| :: rows[i] == SummaryOf(all, rows[i].programme)
    ensures Seqs.Distinct(ProgrammeColumn(rows))
  {
    assert Seqs.Distinct(unsorted) by {
      forall a, b | 0 <= a < b < |unsorted| ensures unsorted[a] != unsorted[b] {
        assert unsorted[a].programme == keys[a] && unsorted[b].programme == keys[b];
      }
    }
    Seqs.DistinctSubMultiset(unsorted, rows);
    forall a, b | 0 <= a < b < |rows| ensures ProgrammeColumn(rows)[a] != ProgrammeColumn(rows)[b] {
      assert rows[a] != rows[b];
    }
  }
}
