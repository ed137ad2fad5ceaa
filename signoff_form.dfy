/**
 * The signoff page's form state (static/labs/js/signoff.js): the selected
 * student, the hidden student and part inputs, the comments box, the radio
 * buttons of the overall score and of the quality criteria, the evaluation
 * selects and max-marks inputs drawn in the criteria container, and the
 * handlers that read and reset them: `handleStudentSelection`, the success
 * path of `loadCriteria`, `checkExistingSignoff`, `submitSignoff`,
 * `resetFormInputs`, `resetForm` and `newSignoff`.
 *
 * Controls are listed in document order. Each radio carries its own
 * checkedness; checking one unchecks the rest of its group, as the browser
 * does for radios sharing a name in one form.
 */
module SignoffForm {
  import opened Strings
  import Records
  import Grading

  /** A radio button: group name, value attribute, whether it sits in the criteria container, checkedness. */
  datatype Radio = Radio(name: string, value: string, inContainer: bool, checked: bool)

  /** An evaluation `<select>`: its name, the values of its options, and its current value. */
  datatype Select = Select(name: string, options: seq<string>, value: string)

  /** A max-marks number input: its name and current value. */
  datatype MarksInput = MarksInput(name: string, value: string)

  /** A student as the autocomplete hands it over; `email` may be missing. */
  datatype StudentPick = StudentPick(id: nat, studentId: string, name: string, email: Option<string>)

  /** The page's `currentStudent`. */
  datatype CurrentStudent = CurrentStudent(id: nat, studentId: string, name: string, email: string)

  /** The JSON body `submitSignoff` posts. */
  datatype Payload = Payload(studentId: string, partId: string, comments: string, overallScore: string,
                             criteriaScores: map<string, string>, rubricEvaluations: map<string, string>)

  /** What a submit does: warn and stop, throw a TypeError, or post a payload. */
  datatype Submission = Warned(message: string) | Threw | Sent(payload: Payload)

  /** A stored quality score as `get-signoff-details` reports it. */
  datatype QualityScore = QualityScore(criteriaId: nat, score: int, maxPoints: nat)

  /**
   * One entry of a stored evaluation sheet, in the order `Object.entries`
   * lists it: the criterion key, the stored status value and the maximum
   * marks (`""` and 0 are the falsy values the restore skips).
   */
  datatype EvalEntry = EvalEntry(criterion: string, value: string, maxMarks: nat)

  /**
   * The `get-signoff-details` answer: nothing stored, or the stored signoff,
   * with its evaluation sheet when `has_evaluation_sheet` is set.
   */
  datatype SignoffDetails =
    | NotFound
    | Found(comments: Option<string>, status: string, overallScore: int, qualityScores: seq<QualityScore>,
            evaluationSheet: Option<seq<EvalEntry>>)

  const OverallName: string := "overall_score"
  const NoStudentWarning: string := "Please select a student first"
  const NoPartWarning: string := "Please select a part to grade"
  /** The value attribute of the "Meets Requirements" radios. */
  const ResetLevel: string := "2"

  // ---------------------------------------------------------------------
  // Radio groups
  // ---------------------------------------------------------------------

  /** Two radios are the same control, whatever their checkedness. */
  predicate SameControl(a: Radio, b: Radio) {
    a.name == b.name && a.value == b.value && a.inContainer == b.inContainer
  }

  /** The radios outside the container (the overall-score group) do not carry the criteria prefix. */
  predicate OutsideUnprefixed(rs: seq<Radio>) {
    forall j :: 0 <= j < |rs| && !rs[j].inContainer ==> !StartsWith(rs[j].name, Grading.CriteriaPrefix)
  }

  /** At most one radio of each group is checked. */
  predicate OneCheckedPerGroup(rs: seq<Radio>) {
    forall i, j :: 0 <= i < j < |rs| && rs[i].checked && rs[j].checked ==> rs[i].name != rs[j].name
  }

  /**
   * `radio.checked = true` on radio `i`: it becomes checked, the other
   * radios of its group become unchecked, and nothing else changes.
   */
  function CheckAt(rs: seq<Radio>, i: nat): (r: seq<Radio>)
    requires i < |rs|
    ensures |r| == |rs| && r[i].checked
    ensures forall j :: 0 <= j < |rs| ==> SameControl(r[j], rs[j])
    ensures forall j :: 0 <= j < |rs| && j != i && rs[j].name == rs[i].name ==> !r[j].checked
    ensures forall j :: 0 <= j < |rs| && rs[j].name != rs[i].name ==> r[j] == rs[j]
    ensures OneCheckedPerGroup(rs) ==> OneCheckedPerGroup(r)
  {
    seq(|rs|, j requires 0 <= j < |rs| =>
      if j == i then rs[j].(checked := true)
      else if rs[j].name == rs[i].name then rs[j].(checked := false)
      else rs[j])
  }

  /** `querySelector('input[name=…][value=…]')` over the radios: the first with that name and value. */
  function FindRadio(rs: seq<Radio>, name: string, value: string): (r: Option<nat>)
    ensures r.Some? ==> r.value < |rs| && rs[r.value].name == name && rs[r.value].value == value
    ensures r.Some? ==> forall j :: 0 <= j < r.value ==> !(rs[j].name == name && rs[j].value == value)
    ensures r.None? ==> forall j :: 0 <= j < |rs| ==> !(rs[j].name == name && rs[j].value == value)
    decreases |rs|
  {
    if rs == [] then None
    else if rs[0].name == name && rs[0].value == value then Some(0)
    else match FindRadio(rs[1..], name, value)
      case None => None
      case Some(k) => Some(k + 1)
  }

  /** `querySelector('input[name=…]:checked')` over the radios: the first checked one of a group. */
  function FindChecked(rs: seq<Radio>, name: string): (r: Option<nat>)
    ensures r.Some? ==> r.value < |rs| && rs[r.value].name == name && rs[r.value].checked
    ensures r.None? ==> forall j :: 0 <= j < |rs| ==> !(rs[j].name == name && rs[j].checked)
    decreases |rs|
  {
    if rs == [] then None
    else if rs[0].name == name && rs[0].checked then Some(0)
    else match FindChecked(rs[1..], name)
      case None => None
      case Some(k) => Some(k + 1)
  }

  /** Finding a radio by name and value does not depend on which radios are checked. */
  lemma {:induction false} FindRadioIgnoresChecks(rs: seq<Radio>, ts: seq<Radio>, name: string, value: string)
    requires |rs| == |ts| && forall j :: 0 <= j < |rs| ==> SameControl(rs[j], ts[j])
    ensures FindRadio(rs, name, value) == FindRadio(ts, name, value)
    decreases |rs|
  {
    if rs != [] {
      FindRadioIgnoresChecks(rs[1..], ts[1..], name, value);
    }
  }

  // ---------------------------------------------------------------------
  // What a submit collects
  // ---------------------------------------------------------------------

  /** A radio matched by `input[name^="criteria_"]:checked`. */
  predicate IsCriteriaChoice(r: Radio) {
    r.checked && StartsWith(r.name, Grading.CriteriaPrefix)
  }

  /**
   * The `criteria_scores` object the submit loop fills: for each checked
   * criteria radio, in document order, its key gets its value.
   */
  function CriteriaScores(rs: seq<Radio>): map<string, string>
    decreases |rs|
  {
    if rs == [] then map[]
    else
      var m := CriteriaScores(rs[..|rs| - 1]);
      var r := rs[|rs| - 1];
      if IsCriteriaChoice(r) then m[Grading.CriteriaKeyOf(r.name) := r.value] else m
  }

  /** A select matched by `select[name^="eval_"]` that passes the `_max` test. */
  predicate IsEvalStatus(s: Select) {
    StartsWith(s.name, Grading.EvalPrefix) && !Contains(s.name, Grading.MaxSuffix)
  }

  /**
   * The `rubric_evaluations` object the submit loop fills: for each
   * evaluation select, in document order, its key gets its value.
   */
  function EvalScores(ss: seq<Select>): map<string, string>
    decreases |ss|
  {
    if ss == [] then map[]
    else
      var m := EvalScores(ss[..|ss| - 1]);
      var s := ss[|ss| - 1];
      if IsEvalStatus(s) then m[Grading.EvalKeyOf(s.name) := s.value] else m
  }

  /** A name carrying the criteria prefix is the radio-group name of its key. */
  lemma CriteriaNameOfKey(name: string)
    requires StartsWith(name, Grading.CriteriaPrefix)
    ensures Grading.CriteriaInputName(Grading.CriteriaKeyOf(name)) == name
  {
    Grading.InputNamesRoundTrip("", name);
    assert name == name[..|Grading.CriteriaPrefix|] + name[|Grading.CriteriaPrefix|..];
  }

  /** A name carrying the evaluation prefix is the select name of its key. */
  lemma EvalNameOfKey(name: string)
    requires StartsWith(name, Grading.EvalPrefix)
    ensures Grading.EvalSelectName(Grading.EvalKeyOf(name)) == name
  {
    Grading.InputNamesRoundTrip("", name);
    assert name == name[..|Grading.EvalPrefix|] + name[|Grading.EvalPrefix|..];
  }

  /**
   * The submitted criteria scores name exactly the criteria whose group has
   * a checked radio, and each carries the value of that radio.
   */
  lemma {:induction false} CriteriaScoresSpec(rs: seq<Radio>)
    requires OneCheckedPerGroup(rs)
    ensures forall k :: k in CriteriaScores(rs) <==>
              exists i :: 0 <= i < |rs| && rs[i].checked && rs[i].name == Grading.CriteriaInputName(k)
    ensures forall i :: 0 <= i < |rs| && IsCriteriaChoice(rs[i]) ==>
              && Grading.CriteriaKeyOf(rs[i].name) in CriteriaScores(rs)
              && CriteriaScores(rs)[Grading.CriteriaKeyOf(rs[i].name)] == rs[i].value
    decreases |rs|
  {
    if rs != [] {
      var init := rs[..|rs| - 1];
      var last := rs[|rs| - 1];
      assert OneCheckedPerGroup(init);
      CriteriaScoresSpec(init);
      var m := CriteriaScores(rs);
      forall k ensures k in m <==>
          exists i :: 0 <= i < |rs| && rs[i].checked && rs[i].name == Grading.CriteriaInputName(k)
      {
        if k in m {
          if IsCriteriaChoice(last) && k == Grading.CriteriaKeyOf(last.name) {
            CriteriaNameOfKey(last.name);
            assert rs[|rs| - 1].checked && rs[|rs| - 1].name == Grading.CriteriaInputName(k);
          } else {
            var i :| 0 <= i < |init| && init[i].checked && init[i].name == Grading.CriteriaInputName(k);
            assert rs[i] == init[i];
          }
        }
        if exists i :: 0 <= i < |rs| && rs[i].checked && rs[i].name == Grading.CriteriaInputName(k) {
          var i :| 0 <= i < |rs| && rs[i].checked && rs[i].name == Grading.CriteriaInputName(k);
          Grading.InputNamesRoundTrip(k, "");
          assert StartsWith(Grading.CriteriaInputName(k), Grading.CriteriaPrefix);
          if i == |rs| - 1 {
            assert IsCriteriaChoice(last) && Grading.CriteriaKeyOf(last.name) == k;
          } else {
            assert init[i] == rs[i];
          }
        }
      }
      forall i | 0 <= i < |rs| && IsCriteriaChoice(rs[i])
        ensures Grading.CriteriaKeyOf(rs[i].name) in m && m[Grading.CriteriaKeyOf(rs[i].name)] == rs[i].value
      {
        if i < |rs| - 1 {
          assert init[i] == rs[i];
          CriteriaNameOfKey(rs[i].name);
          if IsCriteriaChoice(last) {
            CriteriaNameOfKey(last.name);
          }
        }
      }
    }
  }

  /**
   * The submitted rubric evaluations name exactly the keys of the
   * evaluation selects that pass the `_max` test.
   */
  lemma {:induction false} EvalScoresKeys(ss: seq<Select>)
    ensures forall k :: k in EvalScores(ss) <==>
              exists i :: 0 <= i < |ss| && IsEvalStatus(ss[i]) && ss[i].name == Grading.EvalSelectName(k)
    decreases |ss|
  {
    if ss != [] {
      var init := ss[..|ss| - 1];
      var last := ss[|ss| - 1];
      EvalScoresKeys(init);
      var m := EvalScores(ss);
      forall k ensures k in m <==>
          exists i :: 0 <= i < |ss| && IsEvalStatus(ss[i]) && ss[i].name == Grading.EvalSelectName(k)
      {
        if k in m {
          if IsEvalStatus(last) && k == Grading.EvalKeyOf(last.name) {
            EvalNameOfKey(last.name);
            assert IsEvalStatus(ss[|ss| - 1]) && ss[|ss| - 1].name == Grading.EvalSelectName(k);
          } else {
            assert k in EvalScores(init);
            var i :| 0 <= i < |init| && IsEvalStatus(init[i]) && init[i].name == Grading.EvalSelectName(k);
            assert ss[i] == init[i];
          }
        }
        if exists i :: 0 <= i < |ss| && IsEvalStatus(ss[i]) && ss[i].name == Grading.EvalSelectName(k) {
          var i :| 0 <= i < |ss| && IsEvalStatus(ss[i]) && ss[i].name == Grading.EvalSelectName(k);
          Grading.InputNamesRoundTrip(k, "");
          if i == |ss| - 1 {
            assert Grading.EvalKeyOf(last.name) == k;
          } else {
            assert init[i] == ss[i];
          }
        }
      }
    }
  }

  /** No select after `i` has the name of select `i`. */
  predicate LastOfName(ss: seq<Select>, i: nat)
    requires i < |ss|
  {
    forall j :: i < j < |ss| ==> ss[j].name != ss[i].name
  }

  /** Each key of the rubric evaluations carries the value of the last select with that key. */
  lemma {:induction false} EvalScoresLast(ss: seq<Select>)
    ensures forall i :: 0 <= i < |ss| && IsEvalStatus(ss[i]) && LastOfName(ss, i) ==>
              && Grading.EvalKeyOf(ss[i].name) in EvalScores(ss)
              && EvalScores(ss)[Grading.EvalKeyOf(ss[i].name)] == ss[i].value
    decreases |ss|
  {
    if ss != [] {
      var init := ss[..|ss| - 1];
      var last := ss[|ss| - 1];
      EvalScoresLast(init);
      var m := EvalScores(ss);
      forall i | 0 <= i < |ss| && IsEvalStatus(ss[i]) && LastOfName(ss, i)
        ensures Grading.EvalKeyOf(ss[i].name) in m && m[Grading.EvalKeyOf(ss[i].name)] == ss[i].value
      {
        if i < |ss| - 1 {
          assert init[i] == ss[i];
          assert LastOfName(init, i);
          assert last.name != ss[i].name;
          EvalNameOfKey(ss[i].name);
          if IsEvalStatus(last) {
            EvalNameOfKey(last.name);
          }
        }
      }
    }
  }

  // ---------------------------------------------------------------------
  // What a reset does to the controls
  // ---------------------------------------------------------------------

  /** A radio `criteriaContainer.querySelectorAll('input[value="2"]')` matches. */
  predicate IsResetTarget(r: Radio) {
    r.inContainer && r.value == ResetLevel
  }

  /** The radios after the reset loop has checked the targets among the first `n`, in order. */
  function CheckResetTargets(rs: seq<Radio>, n: nat): (r: seq<Radio>)
    requires n <= |rs|
    ensures |r| == |rs| && forall j :: 0 <= j < |rs| ==> SameControl(r[j], rs[j])
    decreases n
  {
    if n == 0 then rs
    else
      var prev := CheckResetTargets(rs, n - 1);
      if IsResetTarget(rs[n - 1]) then CheckAt(prev, n - 1) else prev
  }

  /** Some target among the first `n` radios belongs to group `g`. */
  predicate GroupHasTarget(rs: seq<Radio>, n: nat, g: string)
    requires n <= |rs|
  {
    exists k :: 0 <= k < n && IsResetTarget(rs[k]) && rs[k].name == g
  }

  /** The reset loop leaves every group without a level-2 container radio as it was. */
  lemma {:induction false} ResetSparesOtherGroups(rs: seq<Radio>, n: nat)
    requires n <= |rs|
    ensures forall j :: 0 <= j < |rs| && !GroupHasTarget(rs, n, rs[j].name) ==> CheckResetTargets(rs, n)[j] == rs[j]
    decreases n
  {
    if n > 0 {
      ResetSparesOtherGroups(rs, n - 1);
      forall j | 0 <= j < |rs| && !GroupHasTarget(rs, n, rs[j].name)
        ensures CheckResetTargets(rs, n)[j] == rs[j]
      {
        assert !GroupHasTarget(rs, n - 1, rs[j].name);
        assert !(IsResetTarget(rs[n - 1]) && rs[n - 1].name == rs[j].name);
      }
    }
  }

  /** After the reset loop, a checked radio of a group with a level-2 container radio is one of those. */
  lemma {:induction false} ResetChecksOnlyTargets(rs: seq<Radio>, n: nat)
    requires n <= |rs|
    ensures forall j :: 0 <= j < |rs| && GroupHasTarget(rs, n, rs[j].name) && CheckResetTargets(rs, n)[j].checked ==>
              IsResetTarget(rs[j])
    decreases n
  {
    if n > 0 {
      ResetChecksOnlyTargets(rs, n - 1);
      var prev := CheckResetTargets(rs, n - 1);
      var r := CheckResetTargets(rs, n);
      forall j | 0 <= j < |rs| && GroupHasTarget(rs, n, rs[j].name) && r[j].checked
        ensures IsResetTarget(rs[j])
      {
        if !(IsResetTarget(rs[n - 1]) && rs[j].name == rs[n - 1].name) {
          assert r[j] == prev[j];
          var k :| 0 <= k < n && IsResetTarget(rs[k]) && rs[k].name == rs[j].name;
          assert k != n - 1;
          assert GroupHasTarget(rs, n - 1, rs[j].name);
        }
      }
    }
  }

  /** After the reset loop, every group with a level-2 container radio has a checked radio. */
  lemma {:induction false} ResetChecksEveryTargetGroup(rs: seq<Radio>, n: nat)
    requires n <= |rs|
    ensures forall k :: 0 <= k < n && IsResetTarget(rs[k]) ==>
              exists j :: 0 <= j < |rs| && CheckResetTargets(rs, n)[j].checked && rs[j].name == rs[k].name
    decreases n
  {
    if n > 0 {
      ResetChecksEveryTargetGroup(rs, n - 1);
      var prev := CheckResetTargets(rs, n - 1);
      var r := CheckResetTargets(rs, n);
      forall k | 0 <= k < n && IsResetTarget(rs[k])
        ensures exists j :: 0 <= j < |rs| && r[j].checked && rs[j].name == rs[k].name
      {
        if IsResetTarget(rs[n - 1]) && rs[k].name == rs[n - 1].name {
          assert r[n - 1].checked;
        } else {
          var j :| 0 <= j < |rs| && prev[j].checked && rs[j].name == rs[k].name;
          assert r[j] == prev[j];
        }
      }
    }
  }

  /** The reset loop keeps at most one radio checked per group. */
  lemma {:induction false} CheckResetTargetsKeepsGroups(rs: seq<Radio>, n: nat)
    requires n <= |rs| && OneCheckedPerGroup(rs)
    ensures OneCheckedPerGroup(CheckResetTargets(rs, n))
    decreases n
  {
    if n > 0 {
      CheckResetTargetsKeepsGroups(rs, n - 1);
    }
  }

  /**
   * The radios after a reset that found the overall radio of value "2":
   * that radio checked, then every level-2 radio of the container.
   */
  function ResetRadios(rs: seq<Radio>): seq<Radio>
    requires FindRadio(rs, OverallName, ResetLevel).Some?
  {
    var checked := CheckAt(rs, FindRadio(rs, OverallName, ResetLevel).value);
    CheckResetTargets(checked, |checked|)
  }

  /** `select.value = v`: the select shows `v` if it offers it, and nothing otherwise. */
  function Choose(s: Select, v: string): (r: Select)
    ensures r.name == s.name && r.options == s.options
    ensures v in s.options ==> r.value == v
    ensures v !in s.options ==> r.value == ""
  {
    s.(value := if v in s.options then v else "")
  }

  /** `select.value = "MR"` on an evaluation select. */
  function ResetSelect(s: Select): (r: Select)
    ensures r.name == s.name && r.options == s.options
    ensures StartsWith(s.name, Grading.EvalPrefix) ==>
              (r.value == Grading.DefaultEvaluationStatus <==> Grading.DefaultEvaluationStatus in s.options)
    ensures StartsWith(s.name, Grading.EvalPrefix) && r.value != Grading.DefaultEvaluationStatus ==> r.value == ""
    ensures !StartsWith(s.name, Grading.EvalPrefix) ==> r == s
  {
    if StartsWith(s.name, Grading.EvalPrefix) then Choose(s, Grading.DefaultEvaluationStatus) else s
  }

  /** `querySelector('input[name=…]')` over the max-marks inputs: the first with that name. */
  function FirstNamed(ms: seq<MarksInput>, name: string): (r: Option<nat>)
    ensures r.Some? ==> r.value < |ms|
    decreases |ms|
  {
    if ms == [] then None
    else if ms[0].name == name then Some(0)
    else match FirstNamed(ms[1..], name)
      case None => None
      case Some(k) => Some(k + 1)
  }

  /** The lookup finds the first input with the name, and none when no input has it. */
  lemma {:induction false} FirstNamedSpec(ms: seq<MarksInput>, name: string)
    ensures FirstNamed(ms, name).Some? ==> ms[FirstNamed(ms, name).value].name == name
    ensures FirstNamed(ms, name).Some? ==> forall j :: 0 <= j < FirstNamed(ms, name).value ==> ms[j].name != name
    ensures FirstNamed(ms, name).None? ==> forall j :: 0 <= j < |ms| ==> ms[j].name != name
    decreases |ms|
  {
    if ms != [] && ms[0].name != name {
      FirstNamedSpec(ms[1..], name);
    }
  }

  /** Lookup by name only sees names. */
  lemma {:induction false} FirstNamedIgnoresValues(ms: seq<MarksInput>, ts: seq<MarksInput>, name: string)
    requires |ms| == |ts| && forall j :: 0 <= j < |ms| ==> ms[j].name == ts[j].name
    ensures FirstNamed(ms, name) == FirstNamed(ts, name)
    decreases |ms|
  {
    if ms != [] {
      FirstNamedIgnoresValues(ms[1..], ts[1..], name);
    }
  }

  /** The inputs after the max-marks loop has written the first `n` entries of `entries`. */
  function ApplyMaxMarks(ms: seq<MarksInput>, entries: seq<(string, nat)>, n: nat): (r: seq<MarksInput>)
    requires n <= |entries|
    ensures |r| == |ms|
    decreases n
  {
    if n == 0 then ms
    else
      var prev := ApplyMaxMarks(ms, entries, n - 1);
      match FirstNamed(prev, entries[n - 1].0)
      case None => prev
      case Some(j) => prev[j := prev[j].(value := NatToString(entries[n - 1].1))]
  }

  /** Writing marks never renames an input. */
  lemma {:induction false} ApplyMaxMarksKeepsNames(ms: seq<MarksInput>, entries: seq<(string, nat)>, n: nat)
    requires n <= |entries|
    ensures forall j :: 0 <= j < |ms| ==> ApplyMaxMarks(ms, entries, n)[j].name == ms[j].name
    decreases n
  {
    if n > 0 {
      ApplyMaxMarksKeepsNames(ms, entries, n - 1);
    }
  }

  /** The entries name distinct inputs. */
  predicate DistinctNames(entries: seq<(string, nat)>) {
    forall a, b :: 0 <= a < b < |entries| ==> entries[a].0 != entries[b].0
  }

  /** After the max-marks loop, the first input carrying each entry's name holds that entry's mark. */
  lemma {:induction false} MaxMarksWritten(ms: seq<MarksInput>, entries: seq<(string, nat)>, n: nat)
    requires n <= |entries| && DistinctNames(entries)
    ensures forall e :: 0 <= e < n && FirstNamed(ms, entries[e].0).Some? ==>
              ApplyMaxMarks(ms, entries, n)[FirstNamed(ms, entries[e].0).value].value == NatToString(entries[e].1)
    decreases n
  {
    if n > 0 {
      MaxMarksWritten(ms, entries, n - 1);
      var prev := ApplyMaxMarks(ms, entries, n - 1);
      var r := ApplyMaxMarks(ms, entries, n);
      ApplyMaxMarksKeepsNames(ms, entries, n - 1);
      FirstNamedIgnoresValues(prev, ms, entries[n - 1].0);
      var target := FirstNamed(ms, entries[n - 1].0);
      if target.Some? {
        var p := target.value;
        assert r == prev[p := prev[p].(value := NatToString(entries[n - 1].1))];
        forall e | 0 <= e < n - 1 && FirstNamed(ms, entries[e].0).Some?
          ensures r[FirstNamed(ms, entries[e].0).value].value == NatToString(entries[e].1)
        {
          assert entries[e].0 != entries[n - 1].0;
          FirstNamedSpec(ms, entries[e].0);
          FirstNamedSpec(ms, entries[n - 1].0);
        }
      }
    }
  }

  /** No one of the first `n` entries names input `j` first. */
  predicate Untargeted(ms: seq<MarksInput>, entries: seq<(string, nat)>, n: nat, j: nat)
    requires n <= |entries|
  {
    forall e :: 0 <= e < n ==> FirstNamed(ms, entries[e].0) != Some(j)
  }

  /** The max-marks loop leaves every input that is not the first of an entry's name as it was. */
  lemma {:induction false} MaxMarksUntouched(ms: seq<MarksInput>, entries: seq<(string, nat)>, n: nat)
    requires n <= |entries|
    ensures forall j :: 0 <= j < |ms| && Untargeted(ms, entries, n, j) ==> ApplyMaxMarks(ms, entries, n)[j] == ms[j]
    decreases n
  {
    if n > 0 {
      MaxMarksUntouched(ms, entries, n - 1);
      var prev := ApplyMaxMarks(ms, entries, n - 1);
      ApplyMaxMarksKeepsNames(ms, entries, n - 1);
      FirstNamedIgnoresValues(prev, ms, entries[n - 1].0);
      forall j | 0 <= j < |ms| && Untargeted(ms, entries, n, j)
        ensures ApplyMaxMarks(ms, entries, n)[j] == ms[j]
      {
        assert Untargeted(ms, entries, n - 1, j);
        assert FirstNamed(ms, entries[n - 1].0) != Some(j);
      }
    }
  }

  /** The names `resetFormInputs` writes marks to are all different. */
  lemma ResetMaxMarksDistinct()
    ensures DistinctNames(Grading.ResetMaxMarks)
  {
    var t := Grading.ResetMaxMarks;
    assert t[0].0[5] == 'c' && t[1].0[5] == 'h' && t[2].0[5] == 't' && t[3].0[5] == 's';
    assert t[4].0[5] == 'c' && t[5].0[5] == 'c' && t[6].0[5] == 's' && t[7].0[5] == 'c';
    assert t[4].0[6] == 'o' && t[5].0[6] == 'o' && t[7].0[6] == 'o' && t[0].0[6] == 'l';
    assert t[4].0[8] == 'e' && t[5].0[8] == 'm' && t[7].0[8] == 'r';
    assert t[3].0[6] == 't' && t[6].0[6] == 'c';
  }

  // ---------------------------------------------------------------------
  // Restoring a stored evaluation sheet
  // ---------------------------------------------------------------------

  /** The entries of the sheet that are totals, not criteria, and are skipped. */
  predicate IsSheetTotal(criterion: string) {
    criterion == "total_marks" || criterion == "total_max_marks" || criterion == "percentage"
  }

  /** An entry whose status the restore writes. */
  predicate RestoresStatus(e: EvalEntry) {
    !IsSheetTotal(e.criterion) && e.value != ""
  }

  /** An entry whose max marks the restore writes. */
  predicate RestoresMarks(e: EvalEntry) {
    !IsSheetTotal(e.criterion) && e.maxMarks != 0
  }

  /** The keys of a JavaScript object are distinct. */
  predicate DistinctCriteria(entries: seq<EvalEntry>) {
    forall a, b :: 0 <= a < b < |entries| ==> entries[a].criterion != entries[b].criterion
  }

  /** `querySelector('select[name=…]')` over the selects: the first with that name. */
  function FirstSelect(ss: seq<Select>, name: string): (r: Option<nat>)
    ensures r.Some? ==> r.value < |ss|
    decreases |ss|
  {
    if ss == [] then None
    else if ss[0].name == name then Some(0)
    else match FirstSelect(ss[1..], name)
      case None => None
      case Some(k) => Some(k + 1)
  }

  /** The lookup finds the first select with the name, and none when no select has it. */
  lemma {:induction false} FirstSelectSpec(ss: seq<Select>, name: string)
    ensures FirstSelect(ss, name).Some? ==> ss[FirstSelect(ss, name).value].name == name
    ensures FirstSelect(ss, name).Some? ==> forall j :: 0 <= j < FirstSelect(ss, name).value ==> ss[j].name != name
    ensures FirstSelect(ss, name).None? ==> forall j :: 0 <= j < |ss| ==> ss[j].name != name
    decreases |ss|
  {
    if ss != [] && ss[0].name != name {
      FirstSelectSpec(ss[1..], name);
    }
  }

  /** Lookup by name only sees names. */
  lemma {:induction false} FirstSelectIgnoresValues(ss: seq<Select>, ts: seq<Select>, name: string)
    requires |ss| == |ts| && forall j :: 0 <= j < |ss| ==> ss[j].name == ts[j].name
    ensures FirstSelect(ss, name) == FirstSelect(ts, name)
    decreases |ss|
  {
    if ss != [] {
      FirstSelectIgnoresValues(ss[1..], ts[1..], name);
    }
  }

  /** One step of the restore on the selects: the entry's status goes into the first select of its name. */
  function StatusRestored(ss: seq<Select>, e: EvalEntry): (r: seq<Select>)
    ensures |r| == |ss|
  {
    if !RestoresStatus(e) then ss
    else match FirstSelect(ss, Grading.EvalSelectName(e.criterion))
      case None => ss
      case Some(j) => ss[j := Choose(ss[j], e.value)]
  }

  /** The selects after the restore loop has visited the first `n` entries. */
  function RestoredSelects(ss: seq<Select>, entries: seq<EvalEntry>, n: nat): (r: seq<Select>)
    requires n <= |entries|
    ensures |r| == |ss|
    decreases n
  {
    if n == 0 then ss else StatusRestored(RestoredSelects(ss, entries, n - 1), entries[n - 1])
  }

  /** Restoring statuses never renames a select nor changes its options. */
  lemma {:induction false} RestoredSelectsKeepShape(ss: seq<Select>, entries: seq<EvalEntry>, n: nat)
    requires n <= |entries|
    ensures forall j :: 0 <= j < |ss| ==>
      RestoredSelects(ss, entries, n)[j].name == ss[j].name && RestoredSelects(ss, entries, n)[j].options == ss[j].options
    decreases n
  {
    if n > 0 {
      RestoredSelectsKeepShape(ss, entries, n - 1);
    }
  }

  /** Different keys give different select names. */
  lemma EvalSelectNameInjective(a: string, b: string)
    requires Grading.EvalSelectName(a) == Grading.EvalSelectName(b)
    ensures a == b
  {
    assert a == Grading.EvalSelectName(a)[|Grading.EvalPrefix|..];
  }

  /**
   * After the restore loop, the first select named after each entry that
   * carries a status shows that status if it offers it, and nothing
   * otherwise.
   */
  lemma {:induction false} RestoredSelectsWritten(ss: seq<Select>, entries: seq<EvalEntry>, n: nat)
    requires n <= |entries| && DistinctCriteria(entries)
    ensures forall e :: 0 <= e < n && RestoresStatus(entries[e])
                        && FirstSelect(ss, Grading.EvalSelectName(entries[e].criterion)).Some? ==>
              var j := FirstSelect(ss, Grading.EvalSelectName(entries[e].criterion)).value;
              RestoredSelects(ss, entries, n)[j] == Choose(ss[j], entries[e].value)
    decreases n
  {
    if n > 0 {
      RestoredSelectsWritten(ss, entries, n - 1);
      var prev := RestoredSelects(ss, entries, n - 1);
      var r := RestoredSelects(ss, entries, n);
      var last := entries[n - 1];
      RestoredSelectsKeepShape(ss, entries, n - 1);
      var name := Grading.EvalSelectName(last.criterion);
      FirstSelectIgnoresValues(prev, ss, name);
      var target := FirstSelect(ss, name);
      if RestoresStatus(last) && target.Some? {
        var p := target.value;
        assert r == StatusRestored(prev, last) == prev[p := Choose(prev[p], last.value)];
        assert Choose(prev[p], last.value) == Choose(ss[p], last.value);
        forall e | 0 <= e < n - 1 && RestoresStatus(entries[e])
                   && FirstSelect(ss, Grading.EvalSelectName(entries[e].criterion)).Some?
          ensures r[FirstSelect(ss, Grading.EvalSelectName(entries[e].criterion)).value]
                  == Choose(ss[FirstSelect(ss, Grading.EvalSelectName(entries[e].criterion)).value], entries[e].value)
        {
          var other := Grading.EvalSelectName(entries[e].criterion);
          if other == name {
            EvalSelectNameInjective(entries[e].criterion, last.criterion);
            assert false;
          }
          FirstSelectSpec(ss, other);
          FirstSelectSpec(ss, name);
        }
      }
    }
  }

  /** No one of the first `n` entries writes a status into select `j`. */
  predicate SelectUntargeted(ss: seq<Select>, entries: seq<EvalEntry>, n: nat, j: nat)
    requires n <= |entries|
  {
    forall e :: 0 <= e < n && RestoresStatus(entries[e]) ==>
      FirstSelect(ss, Grading.EvalSelectName(entries[e].criterion)) != Some(j)
  }

  /** The restore loop leaves every select it does not write a status into as it was. */
  lemma {:induction false} RestoredSelectsUntouched(ss: seq<Select>, entries: seq<EvalEntry>, n: nat)
    requires n <= |entries|
    ensures forall j :: 0 <= j < |ss| && SelectUntargeted(ss, entries, n, j) ==> RestoredSelects(ss, entries, n)[j] == ss[j]
    decreases n
  {
    if n > 0 {
      RestoredSelectsUntouched(ss, entries, n - 1);
      var prev := RestoredSelects(ss, entries, n - 1);
      RestoredSelectsKeepShape(ss, entries, n - 1);
      FirstSelectIgnoresValues(prev, ss, Grading.EvalSelectName(entries[n - 1].criterion));
      forall j | 0 <= j < |ss| && SelectUntargeted(ss, entries, n, j)
        ensures RestoredSelects(ss, entries, n)[j] == ss[j]
      {
        assert SelectUntargeted(ss, entries, n - 1, j);
      }
    }
  }

  /**
   * The max marks the restore loop writes, as (input name, marks) pairs in
   * the order it writes them.
   */
  function MarksEntries(entries: seq<EvalEntry>): (r: seq<(string, nat)>)
    ensures |r| <= |entries|
    decreases |entries|
  {
    if entries == [] then []
    else
      var prev := MarksEntries(entries[..|entries| - 1]);
      var e := entries[|entries| - 1];
      if RestoresMarks(e) then prev + [(Grading.EvalMaxName(e.criterion), e.maxMarks)] else prev
  }

  /** Every entry that carries max marks gives a pair. */
  lemma {:induction false} MarksEntriesCover(entries: seq<EvalEntry>, i: nat)
    requires i < |entries| && RestoresMarks(entries[i])
    ensures exists k :: 0 <= k < |MarksEntries(entries)|
                        && MarksEntries(entries)[k] == (Grading.EvalMaxName(entries[i].criterion), entries[i].maxMarks)
    decreases |entries|
  {
    var init := entries[..|entries| - 1];
    var m := MarksEntries(entries);
    var prev := MarksEntries(init);
    if i < |init| {
      MarksEntriesCover(init, i);
      assert init[i] == entries[i];
      var k :| 0 <= k < |prev| && prev[k] == (Grading.EvalMaxName(init[i].criterion), init[i].maxMarks);
      assert m[..|prev|] == prev;
      assert m[k] == prev[k];
    } else {
      assert m[|prev|] == (Grading.EvalMaxName(entries[i].criterion), entries[i].maxMarks);
    }
  }

  /** Every pair comes from an entry that carries max marks. */
  lemma {:induction false} MarksEntriesFrom(entries: seq<EvalEntry>, k: nat)
    requires k < |MarksEntries(entries)|
    ensures exists i :: 0 <= i < |entries| && RestoresMarks(entries[i])
                        && MarksEntries(entries)[k] == (Grading.EvalMaxName(entries[i].criterion), entries[i].maxMarks)
    decreases |entries|
  {
    var init := entries[..|entries| - 1];
    var m := MarksEntries(entries);
    var prev := MarksEntries(init);
    if k < |prev| {
      MarksEntriesFrom(init, k);
      var i :| 0 <= i < |init| && RestoresMarks(init[i])
               && prev[k] == (Grading.EvalMaxName(init[i].criterion), init[i].maxMarks);
      assert init[i] == entries[i];
      assert m[..|prev|] == prev;
      assert m[k] == prev[k];
    } else {
      assert RestoresMarks(entries[|entries| - 1]);
    }
  }

  /** No pair names the input of a key that no entry has. */
  lemma {:induction false} MarksEntriesAvoid(entries: seq<EvalEntry>, c: string)
    requires forall i :: 0 <= i < |entries| ==> entries[i].criterion != c
    ensures forall k :: 0 <= k < |MarksEntries(entries)| ==> MarksEntries(entries)[k].0 != Grading.EvalMaxName(c)
    decreases |entries|
  {
    if entries != [] {
      var init := entries[..|entries| - 1];
      var last := entries[|entries| - 1];
      MarksEntriesAvoid(init, c);
      if Grading.EvalMaxName(last.criterion) == Grading.EvalMaxName(c) {
        EvalMaxNameInjective(last.criterion, c);
      }
    }
  }

  /** Different keys give different max-marks input names. */
  lemma EvalMaxNameInjective(a: string, b: string)
    requires Grading.EvalMaxName(a) == Grading.EvalMaxName(b)
    ensures a == b
  {
    var n := Grading.EvalMaxName(a);
    assert |a| == |b|;
    assert a == n[|Grading.EvalPrefix|..|Grading.EvalPrefix| + |a|];
    assert b == Grading.EvalMaxName(b)[|Grading.EvalPrefix|..|Grading.EvalPrefix| + |b|];
  }

  /** Distinct keys give pairs naming distinct inputs. */
  lemma {:induction false} MarksEntriesDistinct(entries: seq<EvalEntry>)
    requires DistinctCriteria(entries)
    ensures DistinctNames(MarksEntries(entries))
    decreases |entries|
  {
    if entries != [] {
      var init := entries[..|entries| - 1];
      var last := entries[|entries| - 1];
      assert DistinctCriteria(init);
      MarksEntriesDistinct(init);
      var prev := MarksEntries(init);
      if RestoresMarks(last) {
        MarksEntriesAvoid(init, last.criterion);
        var m := MarksEntries(entries);
        assert m == prev + [(Grading.EvalMaxName(last.criterion), last.maxMarks)];
      }
    }
  }

  /** Writing one more set of marks leaves the earlier writes as they were. */
  lemma {:induction false} ApplyMaxMarksSnoc(ms: seq<MarksInput>, entries: seq<(string, nat)>, x: (string, nat), n: nat)
    requires n <= |entries|
    ensures ApplyMaxMarks(ms, entries + [x], n) == ApplyMaxMarks(ms, entries, n)
    decreases n
  {
    if n > 0 {
      ApplyMaxMarksSnoc(ms, entries, x, n - 1);
      assert (entries + [x])[n - 1] == entries[n - 1];
    }
  }

  /**
   * After the restore loop, on distinct keys, the first max-marks input
   * named after each entry that carries marks holds those marks, and an
   * input the loop does not write to keeps its value.
   */
  lemma RestoredMarksWritten(ms: seq<MarksInput>, entries: seq<EvalEntry>)
    requires DistinctCriteria(entries)
    ensures var r := ApplyMaxMarks(ms, MarksEntries(entries), |MarksEntries(entries)|);
      forall i :: 0 <= i < |entries| && RestoresMarks(entries[i])
                  && FirstNamed(ms, Grading.EvalMaxName(entries[i].criterion)).Some? ==>
        r[FirstNamed(ms, Grading.EvalMaxName(entries[i].criterion)).value].value == NatToString(entries[i].maxMarks)
  {
    var m := MarksEntries(entries);
    MarksEntriesDistinct(entries);
    MaxMarksWritten(ms, m, |m|);
    forall i | 0 <= i < |entries| && RestoresMarks(entries[i])
               && FirstNamed(ms, Grading.EvalMaxName(entries[i].criterion)).Some?
      ensures ApplyMaxMarks(ms, m, |m|)[FirstNamed(ms, Grading.EvalMaxName(entries[i].criterion)).value].value
              == NatToString(entries[i].maxMarks)
    {
      MarksEntriesCover(entries, i);
      var k :| 0 <= k < |m| && m[k] == (Grading.EvalMaxName(entries[i].criterion), entries[i].maxMarks);
      assert FirstNamed(ms, m[k].0).Some?;
    }
  }

  /** One step of the restore on the max-marks inputs: the entry's marks go into the first input of its name. */
  function MarksRestored(ms: seq<MarksInput>, e: EvalEntry): (r: seq<MarksInput>)
    ensures |r| == |ms|
  {
    if !RestoresMarks(e) then ms
    else match FirstNamed(ms, Grading.EvalMaxName(e.criterion))
      case None => ms
      case Some(j) => ms[j := ms[j].(value := NatToString(e.maxMarks))]
  }

  /** Visiting one more entry of the sheet is one more restore step on the inputs. */
  lemma RestoredMarksNext(ms: seq<MarksInput>, entries: seq<EvalEntry>, i: nat)
    requires i < |entries|
    ensures ApplyMaxMarks(ms, MarksEntries(entries[..i + 1]), |MarksEntries(entries[..i + 1])|)
            == MarksRestored(ApplyMaxMarks(ms, MarksEntries(entries[..i]), |MarksEntries(entries[..i])|), entries[i])
  {
    var pre := entries[..i];
    var post := entries[..i + 1];
    assert post[..|post| - 1] == pre && post[|post| - 1] == entries[i];
    var done := MarksEntries(pre);
    var e := entries[i];
    if RestoresMarks(e) {
      var x := (Grading.EvalMaxName(e.criterion), e.maxMarks);
      assert MarksEntries(post) == done + [x];
      ApplyMaxMarksSnoc(ms, done, x, |done|);
      assert (done + [x])[|done|] == x;
      assert ApplyMaxMarks(ms, done + [x], |done| + 1) == MarksRestored(ApplyMaxMarks(ms, done, |done|), e);
    } else {
      assert MarksEntries(post) == done;
    }
  }

  /** No entry that carries max marks writes them into input `j`. */
  predicate MarksUntargeted(ms: seq<MarksInput>, entries: seq<EvalEntry>, j: nat) {
    forall i :: 0 <= i < |entries| && RestoresMarks(entries[i]) ==>
      FirstNamed(ms, Grading.EvalMaxName(entries[i].criterion)) != Some(j)
  }

  /** The restore loop leaves every max-marks input it does not write to as it was. */
  lemma RestoredMarksUntouched(ms: seq<MarksInput>, entries: seq<EvalEntry>)
    ensures forall j :: 0 <= j < |ms| && MarksUntargeted(ms, entries, j) ==>
      ApplyMaxMarks(ms, MarksEntries(entries), |MarksEntries(entries)|)[j] == ms[j]
  {
    var m := MarksEntries(entries);
    MaxMarksUntouched(ms, m, |m|);
    forall j | 0 <= j < |ms| && MarksUntargeted(ms, entries, j)
      ensures ApplyMaxMarks(ms, m, |m|)[j] == ms[j]
    {
      forall k | 0 <= k < |m| ensures FirstNamed(ms, m[k].0) != Some(j) {
        MarksEntriesFrom(entries, k);
      }
      assert Untargeted(ms, m, |m|, j);
    }
  }

  // ---------------------------------------------------------------------
  // The controls `renderCriteria` draws
  // ---------------------------------------------------------------------

  /** The five radios of one criterion, levels 0 to 4, level 2 checked. */
  function CriterionRadios(id: string): (r: seq<Radio>)
    ensures |r| == 5
    ensures forall j :: 0 <= j < 5 ==>
      r[j] == Radio(Grading.CriteriaInputName(id), NatToString(j), true, j == Grading.DefaultLevel)
  {
    seq(5, j requires 0 <= j < 5 =>
      Radio(Grading.CriteriaInputName(id), NatToString(j), true, j == Grading.DefaultLevel))
  }

  /** The radios of a list of criteria, criterion after criterion. */
  function DrawnRadios(cs: seq<Grading.CriterionDefault>): (r: seq<Radio>)
    ensures |r| == 5 * |cs|
    decreases |cs|
  {
    if cs == [] then [] else DrawnRadios(cs[..|cs| - 1]) + CriterionRadios(cs[|cs| - 1].id)
  }

  /** Every drawn radio sits in the container and belongs to the group of one of the criteria. */
  lemma {:induction false} DrawnRadiosNames(cs: seq<Grading.CriterionDefault>)
    ensures forall j :: 0 <= j < |DrawnRadios(cs)| ==>
      && DrawnRadios(cs)[j].inContainer && StartsWith(DrawnRadios(cs)[j].name, Grading.CriteriaPrefix)
      && exists c :: 0 <= c < |cs| && DrawnRadios(cs)[j].name == Grading.CriteriaInputName(cs[c].id)
    decreases |cs|
  {
    if cs != [] {
      var front := cs[..|cs| - 1];
      var id := cs[|cs| - 1].id;
      DrawnRadiosNames(front);
      var init := DrawnRadios(front);
      var last := CriterionRadios(id);
      var r := DrawnRadios(cs);
      assert r == init + last;
      Grading.InputNamesRoundTrip(id, "");
      forall j | 0 <= j < |r|
        ensures && r[j].inContainer && StartsWith(r[j].name, Grading.CriteriaPrefix)
                && exists c :: 0 <= c < |cs| && r[j].name == Grading.CriteriaInputName(cs[c].id)
      {
        if j < |init| {
          assert r[j] == init[j];
          var c :| 0 <= c < |front| && init[j].name == Grading.CriteriaInputName(front[c].id);
          assert cs[c] == front[c];
        } else {
          assert r[j] == last[j - |init|];
          assert r[j].name == Grading.CriteriaInputName(cs[|cs| - 1].id);
        }
      }
    }
  }

  /** In the drawn radios only level 2 is checked. */
  lemma {:induction false} DrawnRadiosChecks(cs: seq<Grading.CriterionDefault>)
    ensures forall j :: 0 <= j < |DrawnRadios(cs)| && DrawnRadios(cs)[j].checked ==> DrawnRadios(cs)[j].value == ResetLevel
    decreases |cs|
  {
    if cs != [] {
      var front := cs[..|cs| - 1];
      DrawnRadiosChecks(front);
      var init := DrawnRadios(front);
      var last := CriterionRadios(cs[|cs| - 1].id);
      var r := DrawnRadios(cs);
      assert r == init + last;
      assert NatToString(2) == ResetLevel;
      forall j | 0 <= j < |r| && r[j].checked ensures r[j].value == ResetLevel {
        if j < |init| { assert r[j] == init[j]; } else { assert r[j] == last[j - |init|]; }
      }
    }
  }

  /** Different ids give different radio-group names. */
  lemma CriteriaInputNameInjective(a: string, b: string)
    requires Grading.CriteriaInputName(a) == Grading.CriteriaInputName(b)
    ensures a == b
  {
    Grading.InputNamesRoundTrip(a, "");
    Grading.InputNamesRoundTrip(b, "");
  }

  /** One status select per rubric item, at "MR". */
  function DrawnSelects(items: seq<Grading.RubricItem>): (r: seq<Select>)
    ensures |r| == |items|
    ensures forall j :: 0 <= j < |r| ==>
      r[j] == Select(Grading.EvalSelectName(items[j].key), Grading.EvaluationStatusOptions,
                     Grading.DefaultEvaluationStatus)
  {
    seq(|items|, j requires 0 <= j < |items| =>
      Select(Grading.EvalSelectName(items[j].key), Grading.EvaluationStatusOptions, Grading.DefaultEvaluationStatus))
  }

  /** One max-marks input per rubric item, holding its marks. */
  function DrawnMarks(items: seq<Grading.RubricItem>): (r: seq<MarksInput>)
    ensures |r| == |items|
    ensures forall j :: 0 <= j < |r| ==>
      r[j] == MarksInput(Grading.EvalMaxName(items[j].key), NatToString(items[j].maxMarks))
  {
    seq(|items|, j requires 0 <= j < |items| =>
      MarksInput(Grading.EvalMaxName(items[j].key), NatToString(items[j].maxMarks)))
  }

  /** Criteria with distinct ids give radio groups in which only level 2 is checked. */
  lemma {:induction false} DrawnRadiosOneChecked(cs: seq<Grading.CriterionDefault>)
    requires forall a, b :: 0 <= a < b < |cs| ==> cs[a].id != cs[b].id
    ensures OneCheckedPerGroup(DrawnRadios(cs))
    decreases |cs|
  {
    if cs != [] {
      var front := cs[..|cs| - 1];
      DrawnRadiosOneChecked(front);
      DrawnRadiosNames(front);
      var init := DrawnRadios(front);
      var last := CriterionRadios(cs[|cs| - 1].id);
      var r := DrawnRadios(cs);
      assert r == init + last;
      forall i, j | 0 <= i < j < |r| && r[i].checked && r[j].checked
        ensures r[i].name != r[j].name
      {
        if j >= |init| {
          assert r[j] == last[j - |init|];
          if i >= |init| {
            assert false;
          } else {
            assert r[i] == init[i];
            var c :| 0 <= c < |front| && init[i].name == Grading.CriteriaInputName(front[c].id);
            assert cs[c] == front[c];
            if r[i].name == r[j].name {
              CriteriaInputNameInjective(front[c].id, cs[|cs| - 1].id);
              assert false;
            }
          }
        } else {
          assert r[i] == init[i] && r[j] == init[j];
        }
      }
    }
  }

  /** Each id of `cs` mapped to level "2". */
  function LevelTwoFor(cs: seq<Grading.CriterionDefault>): map<string, string>
    decreases |cs|
  {
    if cs == [] then map[] else LevelTwoFor(cs[..|cs| - 1])[cs[|cs| - 1].id := ResetLevel]
  }

  /** The keys of `LevelTwoFor(cs)` are exactly the ids of `cs`, each at level "2". */
  lemma {:induction false} LevelTwoForSpec(cs: seq<Grading.CriterionDefault>)
    ensures forall k :: k in LevelTwoFor(cs) <==> exists c :: 0 <= c < |cs| && cs[c].id == k
    ensures forall k :: k in LevelTwoFor(cs) ==> LevelTwoFor(cs)[k] == ResetLevel
    decreases |cs|
  {
    if cs != [] {
      var front := cs[..|cs| - 1];
      LevelTwoForSpec(front);
      forall k ensures k in LevelTwoFor(cs) <==> exists c :: 0 <= c < |cs| && cs[c].id == k {
        if k in LevelTwoFor(front) {
          var c :| 0 <= c < |front| && front[c].id == k;
          assert cs[c] == front[c];
        }
        if exists c :: 0 <= c < |cs| && cs[c].id == k {
          var c :| 0 <= c < |cs| && cs[c].id == k;
          if c < |front| { assert front[c] == cs[c]; }
        }
      }
    }
  }

  /** One more radio in document order: a checked criteria radio sets its key, any other leaves the scores. */
  lemma CriteriaScoresSnoc(rs: seq<Radio>, x: Radio)
    ensures IsCriteriaChoice(x) ==> CriteriaScores(rs + [x]) == CriteriaScores(rs)[Grading.CriteriaKeyOf(x.name) := x.value]
    ensures !IsCriteriaChoice(x) ==> CriteriaScores(rs + [x]) == CriteriaScores(rs)
  {
    assert (rs + [x])[..|rs|] == rs;
  }

  /** The five radios of a criterion, after any radios, add its id at level "2". */
  lemma CriterionRadiosScores(rs: seq<Radio>, id: string)
    ensures CriteriaScores(rs + CriterionRadios(id)) == CriteriaScores(rs)[id := ResetLevel]
  {
    var c := CriterionRadios(id);
    assert c == [c[0]] + [c[1]] + [c[2]] + [c[3]] + [c[4]];
    assert rs + c == rs + [c[0]] + [c[1]] + [c[2]] + [c[3]] + [c[4]];
    CriteriaInputNameKey(id);
    assert NatToString(2) == ResetLevel;
    CriteriaScoresSnoc(rs, c[0]);
    CriteriaScoresSnoc(rs + [c[0]], c[1]);
    CriteriaScoresSnoc(rs + [c[0]] + [c[1]], c[2]);
    CriteriaScoresSnoc(rs + [c[0]] + [c[1]] + [c[2]], c[3]);
    CriteriaScoresSnoc(rs + [c[0]] + [c[1]] + [c[2]] + [c[3]], c[4]);
  }

  /** Submitting the drawn radios sends level "2" under each drawn id. */
  lemma {:induction false} DrawnCriteriaScores(cs: seq<Grading.CriterionDefault>)
    ensures CriteriaScores(DrawnRadios(cs)) == LevelTwoFor(cs)
    decreases |cs|
  {
    if cs != [] {
      DrawnCriteriaScores(cs[..|cs| - 1]);
      CriterionRadiosScores(DrawnRadios(cs[..|cs| - 1]), cs[|cs| - 1].id);
    }
  }

  /**
   * Submitting the freshly drawn criteria sends level "2" for exactly the
   * drawn criteria.
   */
  lemma DrawnCriteriaSubmitLevelTwo(cs: seq<Grading.CriterionDefault>)
    ensures forall k :: k in CriteriaScores(DrawnRadios(cs)) <==> exists c :: 0 <= c < |cs| && cs[c].id == k
    ensures forall k :: k in CriteriaScores(DrawnRadios(cs)) ==> CriteriaScores(DrawnRadios(cs))[k] == ResetLevel
  {
    DrawnCriteriaScores(cs);
    LevelTwoForSpec(cs);
  }

  /** A radio-group name carries the criteria prefix and reads back as its id. */
  lemma CriteriaInputNameKey(id: string)
    ensures StartsWith(Grading.CriteriaInputName(id), Grading.CriteriaPrefix)
    ensures Grading.CriteriaKeyOf(Grading.CriteriaInputName(id)) == id
  {
    Grading.InputNamesRoundTrip(id, "");
    assert Grading.CriteriaInputName(id)[..|Grading.CriteriaPrefix|] == Grading.CriteriaPrefix;
  }

  /** The default criteria have distinct ids. */
  lemma DefaultCriteriaIdsDistinct()
    ensures forall a, b :: 0 <= a < b < |Grading.DefaultQualityCriteria| ==>
      Grading.DefaultQualityCriteria[a].id != Grading.DefaultQualityCriteria[b].id
  {
    var d := Grading.DefaultQualityCriteria;
    assert d[0].id[8] == '1' && d[1].id[8] == '2' && d[2].id[8] == '3' && d[3].id[8] == '4' && d[4].id[8] == '5';
  }

  // ---------------------------------------------------------------------
  // Restoring a stored signoff
  // ---------------------------------------------------------------------

  /** The value attribute `checkExistingSignoff` looks for: the shown level, or "undefined". */
  function OverallValueText(status: string, score: int): (t: string)
    ensures Records.ParseStatus(status).None? ==> t == "undefined"
    ensures Records.ParseStatus(status).Some? ==> JsParseInt(t) == Grading.ShownOverallLevel(status, score)
  {
    match Grading.ShownOverallLevel(status, score)
    case None => "undefined"
    case Some(v) => JsParseIntOfIntToString(v); IntToString(v)
  }

  /** The radios after `checkExistingSignoff` checks the overall radio of the shown level, if the page has one. */
  function OverallShown(rs: seq<Radio>, status: string, score: int): seq<Radio> {
    match FindRadio(rs, OverallName, OverallValueText(status, score))
    case None => rs
    case Some(j) => CheckAt(rs, j)
  }

  /** The selects after a stored evaluation sheet, if any, is written back. */
  function SheetSelects(ss: seq<Select>, sheet: Option<seq<EvalEntry>>): seq<Select> {
    match sheet
    case None => ss
    case Some(entries) => RestoredSelects(ss, entries, |entries|)
  }

  /** The max-marks inputs after a stored evaluation sheet, if any, is written back. */
  function SheetMarks(ms: seq<MarksInput>, sheet: Option<seq<EvalEntry>>): seq<MarksInput> {
    match sheet
    case None => ms
    case Some(entries) => ApplyMaxMarks(ms, MarksEntries(entries), |MarksEntries(entries)|)
  }

  /** The radios after the stored quality scores are checked one by one, where a radio matches. */
  function ApplyQualityScores(rs: seq<Radio>, qs: seq<QualityScore>): (r: seq<Radio>)
    ensures |r| == |rs| && forall j :: 0 <= j < |rs| ==> SameControl(r[j], rs[j])
    decreases |qs|
  {
    if qs == [] then rs
    else
      var prev := ApplyQualityScores(rs, qs[..|qs| - 1]);
      var q := qs[|qs| - 1];
      match FindRadio(prev, Grading.CriteriaInputName(NatToString(q.criteriaId)),
                      NatToString(Grading.RadioLevel(q.score, q.maxPoints)))
      case None => prev
      case Some(j) => CheckAt(prev, j)
  }

  /**
   * A stored score never finds a radio among the default criteria the page
   * draws: stored criteria are named by number, the drawn ones by
   * "default_" ids. Restoring the scores leaves those radios unchanged.
   */
  /** A criterion named by number is never a default criterion. */
  lemma NumberedCriterionIsNotDefault(id: nat, c: nat)
    requires c < |Grading.DefaultQualityCriteria|
    ensures Grading.CriteriaInputName(NatToString(id)) != Grading.CriteriaInputName(Grading.DefaultQualityCriteria[c].id)
  {
    var d := Grading.DefaultQualityCriteria;
    assert d[0].id[0] == 'd' && d[1].id[0] == 'd' && d[2].id[0] == 'd' && d[3].id[0] == 'd' && d[4].id[0] == 'd';
    assert IsDigit(NatToString(id)[0]);
    if Grading.CriteriaInputName(NatToString(id)) == Grading.CriteriaInputName(d[c].id) {
      CriteriaInputNameInjective(NatToString(id), d[c].id);
      assert false;
    }
  }

  lemma {:induction false} StoredScoresMissDrawnDefaults(rs: seq<Radio>, qs: seq<QualityScore>)
    requires forall j :: 0 <= j < |rs| && StartsWith(rs[j].name, Grading.CriteriaPrefix) ==>
      exists c :: 0 <= c < |Grading.DefaultQualityCriteria| &&
        rs[j].name == Grading.CriteriaInputName(Grading.DefaultQualityCriteria[c].id)
    ensures ApplyQualityScores(rs, qs) == rs
    decreases |qs|
  {
    if qs != [] {
      StoredScoresMissDrawnDefaults(rs, qs[..|qs| - 1]);
      var q := qs[|qs| - 1];
      var name := Grading.CriteriaInputName(NatToString(q.criteriaId));
      Grading.InputNamesRoundTrip(NatToString(q.criteriaId), "");
      assert StartsWith(name, Grading.CriteriaPrefix);
      forall j | 0 <= j < |rs| ensures rs[j].name != name {
        if StartsWith(rs[j].name, Grading.CriteriaPrefix) {
          var c :| 0 <= c < |Grading.DefaultQualityCriteria| &&
            rs[j].name == Grading.CriteriaInputName(Grading.DefaultQualityCriteria[c].id);
          NumberedCriterionIsNotDefault(q.criteriaId, c);
        }
      }
    }
  }

  /** Removing the container's controls: the radios outside it, in order. */
  function OutsideContainer(rs: seq<Radio>): (r: seq<Radio>)
    ensures forall x :: x in r <==> x in rs && !x.inContainer
    decreases |rs|
  {
    if rs == [] then []
    else
      var last := rs[|rs| - 1];
      OutsideContainer(rs[..|rs| - 1]) + (if last.inContainer then [] else [last])
  }

  /** Removing controls keeps at most one checked radio per group. */
  lemma {:induction false} OutsideContainerKeepsGroups(rs: seq<Radio>)
    requires OneCheckedPerGroup(rs)
    ensures OneCheckedPerGroup(OutsideContainer(rs))
    decreases |rs|
  {
    if rs != [] {
      var init := rs[..|rs| - 1];
      var last := rs[|rs| - 1];
      assert OneCheckedPerGroup(init);
      OutsideContainerKeepsGroups(init);
      var o := OutsideContainer(init);
      if !last.inContainer && last.checked {
        var r := OutsideContainer(rs);
        assert r == o + [last];
        forall i | 0 <= i < |o| && o[i].checked ensures o[i].name != last.name {
          assert o[i] in init;
          var p :| 0 <= p < |init| && init[p] == o[i];
          assert rs[p] == o[i];
        }
      }
    }
  }

  /** Checking radios never moves a radio in or out of the container, nor renames it. */
  lemma SameControlsKeepUnprefixed(rs: seq<Radio>, r: seq<Radio>)
    requires |r| == |rs| && forall j :: 0 <= j < |rs| ==> SameControl(r[j], rs[j])
    requires OutsideUnprefixed(rs)
    ensures OutsideUnprefixed(r)
  {
    forall j | 0 <= j < |r| && !r[j].inContainer ensures !StartsWith(r[j].name, Grading.CriteriaPrefix) {
      assert SameControl(r[j], rs[j]);
    }
  }

  /** The controls left outside the container carry no criteria-prefixed name. */
  lemma OutsideContainerUnprefixed(rs: seq<Radio>)
    requires OutsideUnprefixed(rs)
    ensures forall i :: 0 <= i < |OutsideContainer(rs)| ==>
      !OutsideContainer(rs)[i].inContainer && !StartsWith(OutsideContainer(rs)[i].name, Grading.CriteriaPrefix)
  {
    var outside := OutsideContainer(rs);
    forall i | 0 <= i < |outside| ensures !outside[i].inContainer && !StartsWith(outside[i].name, Grading.CriteriaPrefix) {
      assert outside[i] in outside;
      assert outside[i] in rs;
    }
  }

  /**
   * Emptying the container and drawing new criteria radios into it keeps
   * one checked radio per group and the criteria radios inside the container.
   */
  lemma RedrawKeepsValid(rs: seq<Radio>, drawn: seq<Radio>)
    requires OutsideUnprefixed(rs) && OneCheckedPerGroup(OutsideContainer(rs)) && OneCheckedPerGroup(drawn)
    requires forall j :: 0 <= j < |drawn| ==> drawn[j].inContainer && StartsWith(drawn[j].name, Grading.CriteriaPrefix)
    ensures OneCheckedPerGroup(OutsideContainer(rs) + drawn)
    ensures OutsideUnprefixed(OutsideContainer(rs) + drawn)
  {
    var outside := OutsideContainer(rs);
    var r := outside + drawn;
    OutsideContainerUnprefixed(rs);
    forall i, j | 0 <= i < j < |r| && r[i].checked && r[j].checked ensures r[i].name != r[j].name {
      if j < |outside| {
        assert r[i] == outside[i] && r[j] == outside[j];
      } else if i >= |outside| {
        assert r[i] == drawn[i - |outside|] && r[j] == drawn[j - |outside|];
      } else {
        assert r[i] == outside[i] && r[j] == drawn[j - |outside|];
      }
    }
    forall j | 0 <= j < |r| && !r[j].inContainer ensures !StartsWith(r[j].name, Grading.CriteriaPrefix) {
      if j < |outside| { assert r[j] == outside[j]; }
    }
  }

  // ---------------------------------------------------------------------
  // The page's loops
  // ---------------------------------------------------------------------

  /** The `criteria_scores` loop of `submitSignoff`. */
  method CollectCriteriaScores(rs: seq<Radio>) returns (scores: map<string, string>)
    ensures scores == CriteriaScores(rs)
  {
    scores := map[];
    var i := 0;
    while i < |rs|
      invariant 0 <= i <= |rs|
      invariant scores == CriteriaScores(rs[..i])
    {
      assert rs[..i + 1][..i] == rs[..i];
      if IsCriteriaChoice(rs[i]) {
        scores := scores[Grading.CriteriaKeyOf(rs[i].name) := rs[i].value];
      }
      i := i + 1;
    }
    assert rs[..|rs|] == rs;
  }

  /** The `rubric_evaluations` loop of `submitSignoff`. */
  method CollectEvalScores(ss: seq<Select>) returns (scores: map<string, string>)
    ensures scores == EvalScores(ss)
  {
    scores := map[];
    var i := 0;
    while i < |ss|
      invariant 0 <= i <= |ss|
      invariant scores == EvalScores(ss[..i])
    {
      assert ss[..i + 1][..i] == ss[..i];
      if IsEvalStatus(ss[i]) {
        scores := scores[Grading.EvalKeyOf(ss[i].name) := ss[i].value];
      }
      i := i + 1;
    }
    assert ss[..|ss|] == ss;
  }

  /** The loop of `resetFormInputs` that checks every level-2 radio of the container. */
  method CheckLevelTwoRadios(rs: seq<Radio>) returns (r: seq<Radio>)
    requires OneCheckedPerGroup(rs)
    ensures r == CheckResetTargets(rs, |rs|)
    ensures OneCheckedPerGroup(r)
  {
    r := rs;
    var i := 0;
    while i < |r|
      invariant 0 <= i <= |rs| == |r|
      invariant r == CheckResetTargets(rs, i)
      invariant OneCheckedPerGroup(r)
    {
      if IsResetTarget(r[i]) {
        r := CheckAt(r, i);
      }
      i := i + 1;
    }
  }

  /** The loop of `resetFormInputs` that sets every evaluation select to "MR". */
  method ResetSelects(ss: seq<Select>) returns (r: seq<Select>)
    ensures |r| == |ss| && forall j :: 0 <= j < |ss| ==> r[j] == ResetSelect(ss[j])
  {
    r := ss;
    var i := 0;
    while i < |r|
      invariant 0 <= i <= |r| == |ss|
      invariant forall j :: 0 <= j < i ==> r[j] == ResetSelect(ss[j])
      invariant forall j :: i <= j < |r| ==> r[j] == ss[j]
    {
      if StartsWith(r[i].name, Grading.EvalPrefix) {
        r := r[i := ResetSelect(r[i])];
      }
      i := i + 1;
    }
  }

  /** The loop of `resetFormInputs` that writes the default max marks. */
  method WriteMaxMarks(ms: seq<MarksInput>, entries: seq<(string, nat)>) returns (r: seq<MarksInput>)
    ensures r == ApplyMaxMarks(ms, entries, |entries|)
  {
    r := ms;
    var e := 0;
    while e < |entries|
      invariant 0 <= e <= |entries|
      invariant r == ApplyMaxMarks(ms, entries, e)
    {
      var target := FirstNamed(r, entries[e].0);
      if target.Some? {
        r := r[target.value := r[target.value].(value := NatToString(entries[e].1))];
      }
      e := e + 1;
    }
  }

  /** `if (statusSelect && values.value) statusSelect.value = values.value`. */
  method RestoreStatus(ss: seq<Select>, e: EvalEntry) returns (r: seq<Select>)
    requires !IsSheetTotal(e.criterion)
    ensures r == StatusRestored(ss, e)
  {
    r := ss;
    if e.value != "" {
      var select := FirstSelect(ss, Grading.EvalSelectName(e.criterion));
      if select.Some? {
        r := ss[select.value := Choose(ss[select.value], e.value)];
      }
    }
  }

  /** `if (marksInput && values.max_marks) marksInput.value = values.max_marks`. */
  method RestoreMarks(ms: seq<MarksInput>, e: EvalEntry) returns (r: seq<MarksInput>)
    requires !IsSheetTotal(e.criterion)
    ensures r == MarksRestored(ms, e)
  {
    r := ms;
    if e.maxMarks != 0 {
      var input := FirstNamed(ms, Grading.EvalMaxName(e.criterion));
      if input.Some? {
        r := ms[input.value := ms[input.value].(value := NatToString(e.maxMarks))];
      }
    }
  }

  /**
   * The loop of `checkExistingSignoff` over the stored evaluation sheet:
   * totals are skipped; a status, when there is one, goes into the first
   * select of its name; max marks, when non-zero, into the first input of
   * its name.
   */
  method RestoreEvaluationSheet(ss: seq<Select>, ms: seq<MarksInput>, entries: seq<EvalEntry>)
    returns (rs: seq<Select>, rm: seq<MarksInput>)
    ensures rs == RestoredSelects(ss, entries, |entries|)
    ensures rm == ApplyMaxMarks(ms, MarksEntries(entries), |MarksEntries(entries)|)
  {
    rs := ss;
    rm := ms;
    var i := 0;
    while i < |entries|
      invariant 0 <= i <= |entries|
      invariant rs == RestoredSelects(ss, entries, i)
      invariant rm == ApplyMaxMarks(ms, MarksEntries(entries[..i]), |MarksEntries(entries[..i])|)
    {
      var e := entries[i];
      RestoredMarksNext(ms, entries, i);
      if !IsSheetTotal(e.criterion) {
        rs := RestoreStatus(rs, e);
        rm := RestoreMarks(rm, e);
      }
      i := i + 1;
    }
    assert entries[..|entries|] == entries;
  }

  /** The loop of `checkExistingSignoff` over the stored quality scores. */
  method RestoreQualityScores(rs: seq<Radio>, qs: seq<QualityScore>) returns (r: seq<Radio>)
    requires OneCheckedPerGroup(rs)
    ensures r == ApplyQualityScores(rs, qs)
    ensures OneCheckedPerGroup(r)
  {
    r := rs;
    var i := 0;
    while i < |qs|
      invariant 0 <= i <= |qs|
      invariant r == ApplyQualityScores(rs, qs[..i])
      invariant OneCheckedPerGroup(r)
    {
      assert qs[..i + 1][..i] == qs[..i];
      var q := qs[i];
      var level := Grading.RadioLevel(q.score, q.maxPoints);
      var radio := FindRadio(r, Grading.CriteriaInputName(NatToString(q.criteriaId)), NatToString(level));
      if radio.Some? {
        r := CheckAt(r, radio.value);
      }
      i := i + 1;
    }
    assert qs[..|qs|] == qs;
  }

  // ---------------------------------------------------------------------
  // The page
  // ---------------------------------------------------------------------

  class SignoffPage {
    var currentStudent: Option<CurrentStudent>
    /** The hidden `student-id-input`. */
    var studentIdValue: string
    /** The hidden `part-id-input`. */
    var partIdValue: string
    /** The `comments` text box. */
    var comments: string
    /** Every radio of the page: the overall-score group and those drawn in the criteria container. */
    var radios: seq<Radio>
    /** The evaluation selects drawn in the criteria container. */
    var selects: seq<Select>
    /** The max-marks inputs drawn in the criteria container. */
    var marks: seq<MarksInput>

    /**
     * A radio group never has two checked radios, and only the container
     * holds criteria radios.
     */
    ghost predicate Valid()
      reads this
    {
      OneCheckedPerGroup(radios) && OutsideUnprefixed(radios)
    }

    /** The page as loaded: no student, no part, an empty container, the given overall-score radios. */
    constructor (overallRadios: seq<Radio>)
      requires OneCheckedPerGroup(overallRadios) && OutsideUnprefixed(overallRadios)
      ensures Valid()
      ensures currentStudent.None? && studentIdValue == "" && partIdValue == "" && comments == ""
      ensures radios == overallRadios && selects == [] && marks == []
    {
      currentStudent := None;
      studentIdValue := "";
      partIdValue := "";
      comments := "";
      radios := overallRadios;
      selects := [];
      marks := [];
    }

    /**
     * `handleStudentSelection`: remember the student (a missing email
     * becomes "") and put its primary key in the hidden student input.
     */
    method HandleStudentSelection(s: StudentPick)
      modifies this
      ensures currentStudent == Some(CurrentStudent(s.id, s.studentId, s.name,
                                                   if s.email.Some? then s.email.value else ""))
      ensures studentIdValue == NatToString(s.id)
      ensures partIdValue == old(partIdValue) && comments == old(comments)
      ensures radios == old(radios) && selects == old(selects) && marks == old(marks)
    {
      currentStudent := Some(CurrentStudent(s.id, s.studentId, s.name, if s.email.Some? then s.email.value else ""));
      studentIdValue := NatToString(s.id);
    }

    /**
     * The success path of `loadCriteria`: the part id goes into the hidden
     * input and the container is redrawn. The criteria view answers a
     * list, which has no `criteria` field, so the default quality criteria
     * and the default evaluation sheet are drawn whatever the part has.
     */
    method CriteriaLoaded(partId: nat)
      requires Valid()
      modifies this
      ensures Valid()
      ensures partIdValue == NatToString(partId)
      ensures radios == OutsideContainer(old(radios)) + DrawnRadios(Grading.DefaultQualityCriteria)
      ensures selects == DrawnSelects(Grading.DefaultEvaluationCriteria)
      ensures marks == DrawnMarks(Grading.DefaultEvaluationCriteria)
      ensures currentStudent == old(currentStudent) && studentIdValue == old(studentIdValue)
      ensures comments == old(comments)
    {
      partIdValue := NatToString(partId);
      var outside := OutsideContainer(radios);
      var drawn := DrawnRadios(Grading.DefaultQualityCriteria);
      OutsideContainerKeepsGroups(radios);
      DefaultCriteriaIdsDistinct();
      DrawnRadiosOneChecked(Grading.DefaultQualityCriteria);
      DrawnRadiosNames(Grading.DefaultQualityCriteria);
      RedrawKeepsValid(radios, drawn);
      radios := outside + drawn;
      selects := DrawnSelects(Grading.DefaultEvaluationCriteria);
      marks := DrawnMarks(Grading.DefaultEvaluationCriteria);
    }

    /**
     * `submitSignoff`: warn and stop without a student or without a part;
     * throw when no overall score is checked; otherwise post the hidden
     * inputs, the comments, the checked overall score, the checked
     * criteria radios and the evaluation selects.
     */
    method SubmitSignoff() returns (outcome: Submission)
      ensures currentStudent.None? ==> outcome == Warned(NoStudentWarning)
      ensures currentStudent.Some? && partIdValue == "" ==> outcome == Warned(NoPartWarning)
      ensures currentStudent.Some? && partIdValue != "" && FindChecked(radios, OverallName).None? ==>
                outcome == Threw
      ensures currentStudent.Some? && partIdValue != "" && FindChecked(radios, OverallName).Some? ==>
                outcome == Sent(Payload(studentIdValue, partIdValue, comments,
                                        radios[FindChecked(radios, OverallName).value].value,
                                        CriteriaScores(radios), EvalScores(selects)))
    {
      if currentStudent.None? {
        return Warned(NoStudentWarning);
      }
      if partIdValue == "" {
        return Warned(NoPartWarning);
      }
      var overall := FindChecked(radios, OverallName);
      if overall.None? {
        return Threw;
      }
      var criteriaScores := CollectCriteriaScores(radios);
      var rubric := CollectEvalScores(selects);
      return Sent(Payload(studentIdValue, partIdValue, comments, radios[overall.value].value,
                          criteriaScores, rubric));
    }

    /**
     * `resetFormInputs`: clear the comments; check the overall radio of
     * value "2", throwing (and stopping) when there is none; check every
     * level-2 radio of the container; set every evaluation select to "MR";
     * write the default max marks into the first input of each name.
     * `ok` is false when it threw.
     */
    method ResetFormInputs() returns (ok: bool)
      requires Valid()
      modifies this
      ensures Valid()
      ensures comments == ""
      ensures ok <==> FindRadio(old(radios), OverallName, ResetLevel).Some?
      ensures !ok ==> radios == old(radios) && selects == old(selects) && marks == old(marks)
      ensures ok ==> radios == ResetRadios(old(radios))
      ensures ok ==> |selects| == |old(selects)| && forall j :: 0 <= j < |selects| ==> selects[j] == ResetSelect(old(selects)[j])
      ensures ok ==> marks == ApplyMaxMarks(old(marks), Grading.ResetMaxMarks, |Grading.ResetMaxMarks|)
      ensures currentStudent == old(currentStudent) && studentIdValue == old(studentIdValue)
      ensures partIdValue == old(partIdValue)
    {
      comments := "";
      var overall := FindRadio(radios, OverallName, ResetLevel);
      if overall.None? {
        return false;
      }
      var checked := CheckAt(radios, overall.value);
      SameControlsKeepUnprefixed(radios, checked);
      radios := CheckLevelTwoRadios(checked);
      SameControlsKeepUnprefixed(checked, radios);
      selects := ResetSelects(selects);
      marks := WriteMaxMarks(marks, Grading.ResetMaxMarks);
      return true;
    }

    /**
     * `resetForm`: reset the inputs, then empty the criteria container and
     * clear the part id. A throw in the first step skips the rest.
     */
    method ResetForm() returns (ok: bool)
      requires Valid()
      modifies this
      ensures Valid()
      ensures ok <==> FindRadio(old(radios), OverallName, ResetLevel).Some?
      ensures comments == ""
      ensures ok ==> selects == [] && marks == [] && partIdValue == ""
      ensures ok ==> radios == OutsideContainer(ResetRadios(old(radios)))
      ensures !ok ==> radios == old(radios) && selects == old(selects) && marks == old(marks)
      ensures !ok ==> partIdValue == old(partIdValue)
      ensures currentStudent == old(currentStudent) && studentIdValue == old(studentIdValue)
    {
      ok := ResetFormInputs();
      if ok {
        EmptyCriteria();
      }
    }

    /** The rest of `resetForm`: empty the criteria container and clear the part id. */
    method EmptyCriteria()
      requires Valid()
      modifies this
      ensures Valid()
      ensures radios == OutsideContainer(old(radios)) && selects == [] && marks == [] && partIdValue == ""
      ensures currentStudent == old(currentStudent) && studentIdValue == old(studentIdValue)
      ensures comments == old(comments)
    {
      OutsideContainerKeepsGroups(radios);
      OutsideContainerUnprefixed(radios);
      radios := OutsideContainer(radios);
      selects := [];
      marks := [];
      partIdValue := "";
    }

    /** `newSignoff`: reset the form, then forget the student. */
    method NewSignoff() returns (ok: bool)
      requires Valid()
      modifies this
      ensures Valid()
      ensures ok <==> FindRadio(old(radios), OverallName, ResetLevel).Some?
      ensures ok ==> currentStudent.None? && partIdValue == "" && selects == [] && marks == []
      ensures !ok ==> currentStudent == old(currentStudent) && partIdValue == old(partIdValue)
      ensures studentIdValue == old(studentIdValue) && comments == ""
    {
      ok := ResetForm();
      if ok {
        currentStudent := None;
      }
    }

    /**
     * `checkExistingSignoff` once the details arrive: with nothing stored
     * the inputs are reset; otherwise the stored signoff is restored.
     */
    method ApplySignoffDetails(details: SignoffDetails) returns (ok: bool)
      requires Valid()
      modifies this
      ensures Valid()
      ensures details.NotFound? ==> (ok <==> FindRadio(old(radios), OverallName, ResetLevel).Some?)
      ensures details.NotFound? && ok ==> radios == ResetRadios(old(radios)) && comments == ""
      ensures details.Found? ==> ok
      ensures details.Found? ==> comments == (if details.comments.Some? then details.comments.value else "")
      ensures details.Found? ==>
        radios == ApplyQualityScores(OverallShown(old(radios), details.status, details.overallScore), details.qualityScores)
      ensures details.Found? ==>
        selects == SheetSelects(old(selects), details.evaluationSheet)
        && marks == SheetMarks(old(marks), details.evaluationSheet)
      ensures currentStudent == old(currentStudent) && studentIdValue == old(studentIdValue)
      ensures partIdValue == old(partIdValue)
    {
      if details.NotFound? {
        ok := ResetFormInputs();
      } else {
        RestoreSignoff(details);
        ok := true;
      }
    }

    /**
     * The found branch of `checkExistingSignoff`: the comments are restored
     * (none becomes ""), the overall radio of the shown level is checked if
     * the page has one, each stored quality score checks the radio of its
     * level in its criterion's group if the page has one, and a stored
     * evaluation sheet is written back into the selects and max-marks inputs.
     */
    method RestoreSignoff(details: SignoffDetails)
      requires Valid() && details.Found?
      modifies this
      ensures Valid()
      ensures comments == (if details.comments.Some? then details.comments.value else "")
      ensures radios == ApplyQualityScores(OverallShown(old(radios), details.status, details.overallScore), details.qualityScores)
      ensures selects == SheetSelects(old(selects), details.evaluationSheet)
      ensures marks == SheetMarks(old(marks), details.evaluationSheet)
      ensures currentStudent == old(currentStudent) && studentIdValue == old(studentIdValue)
      ensures partIdValue == old(partIdValue)
    {
      comments := if details.comments.Some? then details.comments.value else "";
      var shown := OverallValueText(details.status, details.overallScore);
      var overall := FindRadio(radios, OverallName, shown);
      var shownRadios := radios;
      if overall.Some? {
        shownRadios := CheckAt(radios, overall.value);
        SameControlsKeepUnprefixed(radios, shownRadios);
      }
      var restored := RestoreQualityScores(shownRadios, details.qualityScores);
      SameControlsKeepUnprefixed(shownRadios, restored);
      radios := restored;
      if details.evaluationSheet.Some? {
        var restoredSelects, restoredMarks := RestoreEvaluationSheet(selects, marks, details.evaluationSheet.value);
        selects, marks := restoredSelects, restoredMarks;
      }
    }
  }
}
