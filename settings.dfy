/**
 * The settings and programmes tables (SQLiteSettingsRepository) held in memory, and
 * SettingsService's threshold and programme-list operations on top of them.
 */
module Settings {
  import opened Wrappers
  import opened Text
  import Seqs

  const DefaultThreshold: real := 2.0
  const ThresholdRange := "Threshold must be between 0.0 and 4.0."
  const ProgrammeRequired := "Programme name is required."
  const ProgrammeExists := "Programme already exists."
  const AddFailed := "Failed to add programme."
  const UpdateFailed := "Failed to update programme."

  /** The UPDATE on programmes: the row named from takes the name to. */
  function Renamed(names: seq<string>, from: string, to: string): (r: seq<string>)
    ensures |r| == |names|
    ensures forall i | 0 <= i < |names| :: r[i] == if names[i] == from then to else names[i]
  {
    seq(|names|, i requires 0 <= i < |names| => if names[i] == from then to else names[i])
  }

  /** The DELETE on programmes. */
  function Without(names: seq<string>, name: string): (r: seq<string>)
    ensures forall x :: x in r <==> x in names && x != name
    ensures |r| <= |names|
  {
    Seqs.Filter(names, (x: string) => x != name)
  }

  /** After a rename, the table holds every other name it held, plus to when from
      was there. */
  lemma RenamedNames(names: seq<string>, from: string, to: string, x: string)
    ensures x in Renamed(names, from, to) <==> (x in names && x != from) || (x == to && from in names)
  {
    var r := Renamed(names, from, to);
    if x in names && x != from {
      var i :| 0 <= i < |names| && names[i] == x;
      assert r[i] == x;
    }
    if x == to && from in names {
      var i :| 0 <= i < |names| && names[i] == from;
      assert r[i] == to;
    }
  }

  /** The primary key survives a rename exactly when to is from, or to
      is not taken, or there was nothing to rename. */
  lemma RenameKeepsDistinct(names: seq<string>, from: string, to: string)
    requires Seqs.Distinct(names)
    ensures Seqs.Distinct(Renamed(names, from, to)) <==> (to == from || to !in names || from !in names)
  {
    var r := Renamed(names, from, to);
    if to != from && to in names && from in names {
      var i :| 0 <= i < |names| && names[i] == from;
      var j :| 0 <= j < |names| && names[j] == to;
      assert r[i] == r[j] && i != j;
    } else {
      forall a, b | 0 <= a < b < |r| ensures r[a] != r[b] {
        assert names[a] != names[b];
      }
    }
  }

  /** Deleting a name that was just added gives back the list it was added to. */
  lemma {:induction false} WithoutUndoesAdd(names: seq<string>, name: string)
    requires name !in names
    ensures Without(names + [name], name) == names
  {
    var keep := (x: string) => x != name;
    Seqs.FilterSnoc(names, name, keep);
    Seqs.FilterAll(names, keep);
  }

  lemma WithoutKeepsDistinct(names: seq<string>, name: string)
    requires Seqs.Distinct(names)
    ensures Seqs.Distinct(Without(names, name))
  {
    Seqs.FilterMultiset(names, (x: string) => x != name);
    Seqs.DistinctSubMultiset(names, Without(names, name));
  }

  /** Binary string order, which is what ORDER BY name ASC uses, is a total preorder. */
  lemma LexLeIsTotalPreorder()
    ensures Seqs.TotalPreorder(LexLe)
  {
    forall x, y ensures LexLe(x, y) || LexLe(y, x) {
      LexLeTotal(x, y);
    }
    forall x, y, z | LexLe(x, y) && LexLe(y, z) ensures LexLe(x, z) {
      LexLeTransitive(x, y, z);
    }
  }

  /** The threshold getAtRiskThreshold reads from the stored row, 2.0 when there is none. */
  function EffectiveThreshold(stored: Option<real>): (t: real)
    ensures stored.None? ==> t == DefaultThreshold
    ensures stored.Some? ==> t == stored.value
  {
    if stored.Some? then stored.value else DefaultThreshold
  }

  /** SQLiteSettingsRepository: the at_risk_threshold row of settings and the programmes table. */
  class SettingsRepository {
    /** The stored threshold, None when the row is missing. */
    var threshold: Option<real>
    var programmes: seq<string>

    ghost predicate Valid()
      reads this
    {
      Seqs.Distinct(programmes)
    }

    /** A database as DatabaseInitializer leaves it: threshold 2.0, no programmes. */
    constructor ()
      ensures Valid() && threshold == Some(DefaultThreshold) && programmes == []
    {
      threshold := Some(DefaultThreshold);
      programmes := [];
    }

    method GetAtRiskThreshold() returns (t: real)
      ensures t == EffectiveThreshold(threshold)
    {
      t := if threshold.Some? then threshold.value else DefaultThreshold;
    }

    /** INSERT OR REPLACE of the threshold row. */
    method SetAtRiskThreshold(value: real)
      modifies this
      ensures threshold == Some(value) && programmes == old(programmes)
    {
      threshold := Some(value);
    }

    /** getAllProgrammes: every name, in binary order. */
    method GetAllProgrammes() returns (names: seq<string>)
      ensures multiset(names) == multiset(programmes)
      ensures Seqs.Sorted(names, LexLe)
    {
      LexLeIsTotalPreorder();
      Seqs.SortSorted(programmes, LexLe);
      names := Seqs.Sort(programmes, LexLe);
    }

    method ProgrammeExists(name: string) returns (b: bool)
      ensures b <==> name in programmes
    {
      b := name in programmes;
    }

    /** The INSERT, which the primary key refuses for a name already present. */
    method AddProgramme(name: string) returns (outcome: Outcome<string>)
      requires Valid()
      modifies this
      ensures Valid() && threshold == old(threshold)
      ensures outcome == if name in old(programmes) then Fail(AddFailed) else Pass
      ensures programmes == if outcome.Pass? then old(programmes) + [name] else old(programmes)
    {
      if name in programmes {
        return Fail(AddFailed);
      }
      programmes := programmes + [name];
      outcome := Pass;
    }

    /** The UPDATE, which the primary key refuses when it would make two rows share a name. */
    method UpdateProgramme(oldName: string, newName: string) returns (outcome: Outcome<string>)
      requires Valid()
      modifies this
      ensures Valid() && threshold == old(threshold)
      ensures outcome.Fail? <==> newName != oldName && newName in old(programmes) && oldName in old(programmes)
      ensures outcome.Fail? ==> outcome.error == UpdateFailed
      ensures programmes == if outcome.Pass? then Renamed(old(programmes), oldName, newName) else old(programmes)
    {
      RenameKeepsDistinct(programmes, oldName, newName);
      if newName != oldName && newName in programmes && oldName in programmes {
        return Fail(UpdateFailed);
      }
      programmes := Renamed(programmes, oldName, newName);
      outcome := Pass;
    }

    method DeleteProgramme(name: string)
      requires Valid()
      modifies this
      ensures Valid() && threshold == old(threshold)
      ensures programmes == Without(old(programmes), name)
    {
      WithoutKeepsDistinct(programmes, name);
      programmes := Without(programmes, name);
    }
  }

  /** SettingsService: the checks in front of the repository. */
  class SettingsService {
    const repo: SettingsRepository

    ghost predicate Valid()
      reads repo
    {
      repo.Valid() && (repo.threshold.Some? ==> 0.0 <= repo.threshold.value <= 4.0)
    }

    constructor (repo: SettingsRepository)
      requires repo.Valid() && (repo.threshold.Some? ==> 0.0 <= repo.threshold.value <= 4.0)
      ensures this.repo == repo && Valid()
    {
      this.repo := repo;
    }

    /** getAtRiskThreshold: the stored value, 2.0 when there is none; always in [0, 4]. */
    method GetAtRiskThreshold() returns (t: real)
      requires Valid()
      ensures 0.0 <= t <= 4.0
      ensures t == EffectiveThreshold(repo.threshold)
    {
      t := repo.GetAtRiskThreshold();
    }

    /** setAtRiskThreshold: refuses a value outside [0, 4]; otherwise the next read returns it. */
    method SetAtRiskThreshold(value: real) returns (outcome: Outcome<string>)
      requires Valid()
      modifies repo
      ensures Valid() && repo.programmes == old(repo.programmes)
      ensures outcome == if value < 0.0 || value > 4.0 then Fail(ThresholdRange) else Pass
      ensures repo.threshold == if outcome.Pass? then Some(value) else old(repo.threshold)
    {
      if value < 0.0 || value > 4.0 {
        return Fail(ThresholdRange);
      }
      repo.SetAtRiskThreshold(value);
      outcome := Pass;
    }

    /** getProgrammes. */
    method GetProgrammes() returns (names: seq<string>)
      ensures multiset(names) == multiset(repo.programmes)
      ensures Seqs.Sorted(names, LexLe)
    {
      names := repo.GetAllProgrammes();
    }

    /** addProgramme: a blank name is refused, otherwise its trimmed form is added unless
        exactly that name is already present. */
    method AddProgramme(name: string) returns (outcome: Outcome<string>)
      requires Valid()
      modifies repo
      ensures Valid() && repo.threshold == old(repo.threshold)
      ensures IsBlank(name) ==> outcome == Fail(ProgrammeRequired)
      ensures !IsBlank(name) ==>
        outcome == if Trim(name) in old(repo.programmes) then Fail(ProgrammeExists) else Pass
      ensures repo.programmes == if outcome.Pass? then old(repo.programmes) + [Trim(name)] else old(repo.programmes)
      ensures outcome.Pass? ==> Trim(name) !in old(repo.programmes) && Seqs.Distinct(repo.programmes)
    {
      if IsBlank(name) {
        return Fail(ProgrammeRequired);
      }
      var cleaned := Trim(name);
      var taken := repo.ProgrammeExists(cleaned);
      if taken {
        return Fail(ProgrammeExists);
      }
      outcome := repo.AddProgramme(cleaned);
    }

    /** updateProgramme: a blank new name is refused; the trimmed new name is refused when
        it differs from the old one other than by case and is already taken; otherwise the
        rename goes to the table, whose primary key still refuses a case-only rename onto
        a name that is present. */
    method UpdateProgramme(oldName: string, newName: string) returns (outcome: Outcome<string>)
      requires Valid()
      modifies repo
      ensures Valid() && repo.threshold == old(repo.threshold)
      ensures IsBlank(newName) ==> outcome == Fail(ProgrammeRequired)
      ensures !IsBlank(newName) && !EqualsIgnoreCase(oldName, Trim(newName)) && Trim(newName) in old(repo.programmes) ==>
        outcome == Fail(ProgrammeExists)
      ensures !IsBlank(newName) && EqualsIgnoreCase(oldName, Trim(newName)) ==>
        outcome == if Trim(newName) != oldName && Trim(newName) in old(repo.programmes) && oldName in old(repo.programmes)
                   then Fail(UpdateFailed) else Pass
      ensures !IsBlank(newName) && Trim(newName) !in old(repo.programmes) ==> outcome == Pass
      ensures repo.programmes ==
        if outcome.Pass? then Renamed(old(repo.programmes), oldName, Trim(newName)) else old(repo.programmes)
    {
      if IsBlank(newName) {
        return Fail(ProgrammeRequired);
      }
      var cleaned := Trim(newName);
      var taken := repo.ProgrammeExists(cleaned);
      if !EqualsIgnoreCase(oldName, cleaned) && taken {
        return Fail(ProgrammeExists);
      }
      outcome := repo.UpdateProgramme(oldName, cleaned);
    }

    /** deleteProgramme. */
    method DeleteProgramme(name: string)
      requires Valid()
      modifies repo
      ensures Valid() && repo.threshold == old(repo.threshold)
      ensures repo.programmes == Without(old(repo.programmes), name)
    {
      repo.DeleteProgramme(name);
    }
  }

  /** The one way a rename that passes the service's checks still fails: the new name
      differs from the old only in case, and both names are in the table. */
  lemma CaseOnlyRenameOntoExistingName()
    ensures var names := ["CS", "cs"];
      Seqs.Distinct(names) && EqualsIgnoreCase("cs", "CS") && "CS" in names && "cs" in names
      && !Seqs.Distinct(Renamed(names, "cs", "CS"))
  {
    var names := ["CS", "cs"];
    RenameKeepsDistinct(names, "cs", "CS");
    assert ToLower("cs") == "cs" && ToLower("CS") == "cs" by {
      assert LowerChar('C') == 'c' && LowerChar('S') == 's';
    }
  }

  /** The blank test (String.isBlank) and the cleaning (String.trim) disagree on control
      characters: a name made of U+0000 is not blank, yet trims to the empty name, which
      addProgramme then stores. */
  lemma ControlCharacterNameTrimsToEmpty()
    ensures !IsBlank("\U{0}") && Trim("\U{0}") == ""
  {
    assert !IsWhitespace("\U{0}"[0]);
  }
}
