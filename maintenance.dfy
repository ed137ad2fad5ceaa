/**
 * Data maintenance: the data migration that creates the default evaluation
 * rubric and moves each evaluation sheet's eight legacy fields into its
 * keyed `evaluations` map (labs/migrations/0004_migrate_evaluation_data.py),
 * and the management command that asks every part without quality
 * criteria for its defaults (labs/management/commands/create_default_criteria.py).
 */
module Maintenance {
  import opened Strings
  import opened Records
  import Grading
  import Database

  // ---------------------------------------------------------------------
  // Migration 0004: the default rubric
  // ---------------------------------------------------------------------

  type RubricPk = nat
  type SheetPk = nat

  /** One entry of a rubric's `criteria_data`: display name and maximum marks. */
  datatype CriterionData = CriterionData(name: string, maxMarks: nat)

  /** An `EvaluationRubric` row; the name is unique across rubrics. */
  datatype Rubric = Rubric(name: string, description: string, isDefault: bool, criteria: map<string, CriterionData>)

  /**
   * An `EvaluationSheet` row as the migration sees it: the legacy fields it
   * can read (a field missing from `legacy` raises when read), the keyed
   * evaluations and the rubric reference.
   */
  datatype Sheet = Sheet(legacy: map<string, string>, evaluations: map<string, string>, rubric: Option<RubricPk>)

  /** The legacy fields, in the order the migration reads them. */
  const LegacyFields: seq<string> := [
    "cleanliness", "hardware", "timeliness", "student_preparation",
    "code_implementation", "commenting", "schematic", "course_participation"
  ]

  const DefaultRubricName: string := "Default Rubric"
  const DefaultRubricDescription: string := "Standard evaluation criteria for lab signoffs"

  /** The `default_criteria` dictionary the migration writes into the rubric. */
  const DefaultCriteriaData: map<string, CriterionData> := map[
    "cleanliness" := CriterionData("Cleanliness", 5),
    "hardware" := CriterionData("Hardware", 10),
    "timeliness" := CriterionData("Timeliness", 5),
    "student_preparation" := CriterionData("Student Preparation", 10),
    "code_implementation" := CriterionData("Code Implementation", 15),
    "commenting" := CriterionData("Commenting", 5),
    "schematic" := CriterionData("Schematic", 10),
    "course_participation" := CriterionData("Course Participation", 5)
  ]

  function DefaultRubric(): Rubric {
    Rubric(DefaultRubricName, DefaultRubricDescription, true, DefaultCriteriaData)
  }

  /**
   * The rubric the migration creates has the client's default evaluation
   * criteria: the same eight keys, in the order the legacy fields are read,
   * with the same names and marks, 65 in total.
   */
  lemma DefaultRubricMatchesClient()
    ensures |LegacyFields| == |Grading.DefaultEvaluationCriteria| == 8
    ensures forall i :: 0 <= i < 8 ==> LegacyFields[i] == Grading.DefaultEvaluationCriteria[i].key
    ensures forall i :: 0 <= i < 8 ==> RubricEntryMatches(i)
    ensures Grading.TotalMarks(Grading.DefaultEvaluationCriteria) == 65
  {
    RubricEntries0To3();
    RubricEntries4To7();
    Grading.DefaultTotals();
  }

  /** The rubric's keys are exactly the legacy fields. */
  lemma RubricKeysAreLegacyFields()
    ensures DefaultCriteriaData.Keys == set i | 0 <= i < |LegacyFields| :: LegacyFields[i]
  {
    var keys := set i | 0 <= i < |LegacyFields| :: LegacyFields[i];
    assert keys == {LegacyFields[0], LegacyFields[1], LegacyFields[2], LegacyFields[3],
                    LegacyFields[4], LegacyFields[5], LegacyFields[6], LegacyFields[7]};
  }

  /** Entry `i` of the client's defaults is in the rubric with the same name and marks. */
  predicate RubricEntryMatches(i: nat)
    requires i < 8
  {
    var item := Grading.DefaultEvaluationCriteria[i];
    item.key in DefaultCriteriaData && DefaultCriteriaData[item.key] == CriterionData(item.name, item.maxMarks)
  }

  lemma RubricEntries0To3()
    ensures RubricEntryMatches(0) && RubricEntryMatches(1) && RubricEntryMatches(2) && RubricEntryMatches(3)
  {
    assert Grading.DefaultEvaluationCriteria[0] == Grading.RubricItem("cleanliness", "Cleanliness", 5);
    assert Grading.DefaultEvaluationCriteria[1] == Grading.RubricItem("hardware", "Hardware", 10);
    assert Grading.DefaultEvaluationCriteria[2] == Grading.RubricItem("timeliness", "Timeliness", 5);
    assert Grading.DefaultEvaluationCriteria[3] == Grading.RubricItem("student_preparation", "Student Preparation", 10);
  }

  lemma RubricEntries4To7()
    ensures RubricEntryMatches(4) && RubricEntryMatches(5) && RubricEntryMatches(6) && RubricEntryMatches(7)
  {
    assert Grading.DefaultEvaluationCriteria[4] == Grading.RubricItem("code_implementation", "Code Implementation", 15);
    assert Grading.DefaultEvaluationCriteria[5] == Grading.RubricItem("commenting", "Commenting", 5);
    assert Grading.DefaultEvaluationCriteria[6] == Grading.RubricItem("schematic", "Schematic", 10);
    assert Grading.DefaultEvaluationCriteria[7] == Grading.RubricItem("course_participation", "Course Participation", 5);
  }

  // ---------------------------------------------------------------------
  // Migration 0004: copying the legacy fields
  // ---------------------------------------------------------------------

  /** Every legacy field can be read. */
  predicate HasLegacyFields(sh: Sheet) {
    forall i :: 0 <= i < |LegacyFields| ==> LegacyFields[i] in sh.legacy
  }

  /** The `evaluations` dictionary after the assignments for `fields`, in order. */
  function Copied(legacy: map<string, string>, fields: seq<string>): map<string, string>
    requires forall i :: 0 <= i < |fields| ==> fields[i] in legacy
  {
    if fields == [] then map[]
    else Copied(legacy, fields[..|fields| - 1])[fields[|fields| - 1] := legacy[fields[|fields| - 1]]]
  }

  /** The copied dictionary has exactly the given fields as keys, each with the legacy value. */
  lemma {:induction false} CopiedSpec(legacy: map<string, string>, fields: seq<string>)
    requires forall i :: 0 <= i < |fields| ==> fields[i] in legacy
    ensures Copied(legacy, fields).Keys == set i | 0 <= i < |fields| :: fields[i]
    ensures forall f :: f in Copied(legacy, fields) ==> f in legacy && Copied(legacy, fields)[f] == legacy[f]
  {
    if fields != [] {
      var front := fields[..|fields| - 1];
      CopiedSpec(legacy, front);
      var all := set i | 0 <= i < |fields| :: fields[i];
      var before := set i | 0 <= i < |front| :: front[i];
      forall f | f in all
        ensures f in before + {fields[|fields| - 1]}
      {
        var i :| 0 <= i < |fields| && fields[i] == f;
        if i < |front| { assert front[i] == f; }
      }
      forall f | f in before
        ensures f in all
      {
        var i :| 0 <= i < |front| && front[i] == f;
        assert fields[i] == f;
      }
      assert all == before + {fields[|fields| - 1]};
    }
  }

  /**
   * What the migration does to one sheet: when every legacy field can be
   * read, the evaluations become the copied fields and the rubric the
   * default one; otherwise the sheet is left as it was.
   */
  function Migrated(sh: Sheet, rubric: RubricPk): Sheet {
    if HasLegacyFields(sh) then sh.(evaluations := Copied(sh.legacy, LegacyFields), rubric := Some(rubric))
    else sh
  }

  /**
   * A migrated sheet's evaluations are keyed by exactly the rubric's keys
   * and hold the legacy values, and it refers to the new rubric; a sheet
   * missing a legacy field is unchanged.
   */
  lemma MigratedSpec(sh: Sheet, rubric: RubricPk)
    ensures HasLegacyFields(sh) ==> Migrated(sh, rubric).evaluations.Keys == DefaultCriteriaData.Keys
    ensures HasLegacyFields(sh) ==> forall f :: f in Migrated(sh, rubric).evaluations ==>
      f in sh.legacy && Migrated(sh, rubric).evaluations[f] == sh.legacy[f]
    ensures HasLegacyFields(sh) ==> Migrated(sh, rubric).rubric == Some(rubric) && Migrated(sh, rubric).legacy == sh.legacy
    ensures !HasLegacyFields(sh) ==> Migrated(sh, rubric) == sh
  {
    if HasLegacyFields(sh) {
      CopiedSpec(sh.legacy, LegacyFields);
      RubricKeysAreLegacyFields();
    }
  }

  /**
   * The `try` block for one sheet: read the eight fields in order into a
   * fresh dictionary; `None` when a read raises.
   */
  method ReadLegacy(sh: Sheet) returns (r: Option<map<string, string>>)
    ensures r.Some? <==> HasLegacyFields(sh)
    ensures r.Some? ==> r.value == Copied(sh.legacy, LegacyFields)
  {
    var evaluations: map<string, string> := map[];
    for j := 0 to |LegacyFields|
      invariant forall i :: 0 <= i < j ==> LegacyFields[i] in sh.legacy
      invariant evaluations == Copied(sh.legacy, LegacyFields[..j])
    {
      var field := LegacyFields[j];
      if field !in sh.legacy {
        return None;
      }
      assert LegacyFields[..j + 1][..j] == LegacyFields[..j];
      evaluations := evaluations[field := sh.legacy[field]];
    }
    assert LegacyFields[..|LegacyFields|] == LegacyFields;
    return Some(evaluations);
  }

  /** Some rubric already has this name. */
  predicate NameTaken(rubrics: map<RubricPk, Rubric>, name: string) {
    exists k :: k in rubrics && rubrics[k].name == name
  }

  /** The rubric and sheet tables the migration works on. */
  class EvaluationTables {
    var rubrics: map<RubricPk, Rubric>
    var sheets: map<SheetPk, Sheet>

    constructor (rubrics: map<RubricPk, Rubric>, sheets: map<SheetPk, Sheet>)
      ensures this.rubrics == rubrics && this.sheets == sheets
    {
      this.rubrics := rubrics;
      this.sheets := sheets;
    }

    /**
     * `create_default_rubric_and_migrate`: create the default rubric under
     * the primary key the database hands out, then migrate every sheet.
     * Creating the rubric fails, and the migration changes nothing, when a
     * rubric of that name exists already. Afterwards there is exactly one
     * more rubric, and every sheet is `Migrated`.
     */
    method CreateDefaultRubricAndMigrate(newPk: RubricPk) returns (ok: bool)
      requires newPk !in rubrics
      modifies this
      ensures ok <==> !old(NameTaken(rubrics, DefaultRubricName))
      ensures !ok ==> rubrics == old(rubrics) && sheets == old(sheets)
      ensures ok ==> rubrics == old(rubrics)[newPk := DefaultRubric()] && |rubrics| == |old(rubrics)| + 1
      ensures ok ==> sheets.Keys == old(sheets).Keys
      ensures ok ==> forall k :: k in sheets ==> sheets[k] == Migrated(old(sheets)[k], newPk)
    {
      if NameTaken(rubrics, DefaultRubricName) {
        return false;
      }
      rubrics := rubrics[newPk := DefaultRubric()];
      MigrateSheets(newPk);
      return true;
    }

    /** `for sheet in EvaluationSheet.objects.all()`: every sheet is migrated once. */
    method MigrateSheets(newPk: RubricPk)
      modifies this
      ensures rubrics == old(rubrics) && sheets.Keys == old(sheets).Keys
      ensures forall k :: k in sheets ==> sheets[k] == Migrated(old(sheets)[k], newPk)
    {
      var remaining := sheets.Keys;
      while remaining != {}
        invariant remaining <= sheets.Keys && sheets.Keys == old(sheets).Keys
        invariant rubrics == old(rubrics)
        invariant forall k :: k in sheets ==> sheets[k] == if k in remaining then old(sheets)[k] else Migrated(old(sheets)[k], newPk)
        decreases |remaining|
      {
        var k :| k in remaining;
        var sheet, saved := MigrateSheet(sheets[k], newPk);
        if saved {
          sheets := sheets[k := sheet];
        }
        remaining := remaining - {k};
      }
    }
  }

  /**
   * The body of the loop for one sheet: on success the sheet gets the
   * copied evaluations and the rubric and is saved; when a read raises
   * it is skipped and not saved.
   */
  method MigrateSheet(sheet: Sheet, newPk: RubricPk) returns (r: Sheet, saved: bool)
    ensures saved <==> HasLegacyFields(sheet)
    ensures r == Migrated(sheet, newPk)
  {
    var evaluations := ReadLegacy(sheet);
    if evaluations.Some? {
      return sheet.(evaluations := evaluations.value, rubric := Some(newPk)), true;
    }
    return sheet, false;
  }

  // ---------------------------------------------------------------------
  // create_default_criteria
  // ---------------------------------------------------------------------

  /** `part.quality_criteria.exists()`. */
  predicate HasCriteria(criteria: map<CriteriaPk, QualityCriteria>, part: PartPk) {
    exists c :: c in criteria && criteria[c].part == part
  }

  /** The parts that have no quality criteria. */
  function CriterialessParts(parts: map<PartPk, Part>, criteria: map<CriteriaPk, QualityCriteria>): set<PartPk> {
    set p | p in parts && !HasCriteria(criteria, p)
  }

  /**
   * `Command.handle`: visit every part once and call
   * `create_default_criteria` on exactly the parts without criteria,
   * counting them. `calls` records those calls; the operation itself is
   * not defined in the models and is not modelled. The count is the
   * number of criteria-less parts, so at most the number of parts.
   */
  method CreateDefaultCriteria(parts: map<PartPk, Part>, criteria: map<CriteriaPk, QualityCriteria>)
    returns (totalParts: nat, updatedParts: nat, calls: set<PartPk>)
    ensures totalParts == |parts|
    ensures calls == CriterialessParts(parts, criteria)
    ensures updatedParts == |calls| && updatedParts <= totalParts
    ensures forall p :: p in parts && HasCriteria(criteria, p) ==> p !in calls
  {
    totalParts := |parts|;
    updatedParts := 0;
    calls := {};
    var remaining := parts.Keys;
    while remaining != {}
      invariant remaining <= parts.Keys
      invariant calls == set p | p in parts && p !in remaining && !HasCriteria(criteria, p)
      invariant updatedParts == |calls|
      decreases |remaining|
    {
      var p :| p in remaining;
      if !HasCriteria(criteria, p) {
        calls := calls + {p};
        updatedParts := updatedParts + 1;
      }
      remaining := remaining - {p};
    }
    Database.SubsetCardinality(calls, parts.Keys);
  }
}
