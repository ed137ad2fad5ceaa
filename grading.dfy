/**
 * The grading decision rules of the signoff page (static/labs/js/signoff.js)
 * and of the signoff endpoint (labs/views.py): the 0-4 quality level shown
 * for a stored score, the status an overall level stands for on the client
 * and on the server, the level shown again for a stored status, badge
 * colours, the names of form inputs, the default criteria the page draws,
 * and reading the CSRF token from the cookie string.
 */
module Grading {
  import opened Strings
  import opened Records

  // ---------------------------------------------------------------------
  // Quality levels
  // ---------------------------------------------------------------------

  /** The level every radio group starts at ("Meets Requirements"). */
  const DefaultLevel: nat := 2

  /**
   * `calculateRadioValue(score, maxPoints)`: the level shown for a stored
   * score. A score of 0 is "Not Applicable"; otherwise the fraction
   * score / maxPoints is compared with 1/4, 1/2 and 3/4 (cross-multiplied
   * here). With maxPoints 0 the fraction is +/-Infinity: a positive score
   * is "Outstanding" and a negative one "Poor".
   */
  function RadioLevel(score: int, maxPoints: nat): (level: nat)
    ensures level <= 4
    ensures level == 0 <==> score == 0
  {
    if score == 0 then 0
    else if maxPoints == 0 then (if score > 0 then 4 else 1)
    else if 4 * score <= maxPoints then 1
    else if 2 * score <= maxPoints then 2
    else if 4 * score <= 3 * maxPoints then 3
    else 4
  }

  /**
   * The level of a non-zero score is the number of quarters of the maximum
   * the score reaches, rounded up and kept within 1..4: the level is the
   * least k in 1..4 with score <= k/4 of the maximum, or 4 when none is.
   */
  lemma RadioLevelIsQuartersRoundedUp(score: int, maxPoints: nat)
    requires score != 0 && maxPoints > 0
    ensures var level := RadioLevel(score, maxPoints);
      && 1 <= level <= 4
      && (level < 4 ==> 4 * score <= level * maxPoints)
      && (level > 1 ==> 4 * score > (level - 1) * maxPoints)
  {
  }

  /** For a fixed maximum, a higher non-negative score never shows a lower level. */
  lemma RadioLevelMonotone(s1: int, s2: int, maxPoints: nat)
    requires 0 <= s1 <= s2
    ensures RadioLevel(s1, maxPoints) <= RadioLevel(s2, maxPoints)
  {
  }

  /** Full marks show "Outstanding", and half marks "Meets Requirements". */
  lemma RadioLevelLandmarks(maxPoints: nat)
    requires maxPoints > 0
    ensures RadioLevel(maxPoints, maxPoints) == 4
    ensures maxPoints % 2 == 0 ==> RadioLevel(maxPoints / 2, maxPoints) == 2
  {
  }

  // ---------------------------------------------------------------------
  // Overall level and status
  // ---------------------------------------------------------------------

  /** The status an overall level stands for: 1 or less is a rejection. */
  function StatusOfLevel(level: int): Status {
    if level <= 1 then Rejected else Approved
  }

  /**
   * `getStatusFromOverallScore(score)`: `parseInt` the radio value; a
   * number at most 1 is "rejected" and anything else, NaN included, is
   * "approved". The client never derives "pending".
   */
  function ClientStatus(score: string): (s: Status)
    ensures s != Pending
  {
    match JsParseInt(score)
    case None => Approved
    case Some(n) => StatusOfLevel(n)
  }

  /**
   * The server's `status_map.get(overall_score, 'pending')`: '0' and '1'
   * reject, '2', '3' and '4' approve, and any other value, or none, leaves
   * the signoff pending.
   */
  function ServerStatus(overall: Option<string>): (s: Status)
    ensures s == Rejected <==> overall == Some("0") || overall == Some("1")
    ensures s == Approved <==> overall == Some("2") || overall == Some("3") || overall == Some("4")
  {
    match overall
    case None => Pending
    case Some(v) =>
      if v == "0" || v == "1" then Rejected
      else if v == "2" || v == "3" || v == "4" then Approved
      else Pending
  }

  /**
   * Client and server agree on every value the server maps: for the five
   * radio values "0".."4" both derive the same status, and that status is
   * the one the level stands for.
   */
  lemma ClientAgreesWithServer(level: nat)
    requires level <= 4
    ensures ServerStatus(Some(NatToString(level))) == ClientStatus(NatToString(level)) == StatusOfLevel(level)
  {
    var v := NatToString(level);
    assert v == [DigitChar(level)];
    JsParseIntDigits(v);
    assert DecimalValue(v) == level by { NatToStringRoundTrip(level); }
    assert v == "0" || v == "1" || v == "2" || v == "3" || v == "4" by {
      if level == 0 { assert v == "0"; }
      else if level == 1 { assert v == "1"; }
      else if level == 2 { assert v == "2"; }
      else if level == 3 { assert v == "3"; }
      else { assert v == "4"; }
    }
  }

  /**
   * Outside the five radio values the two sides part ways: the server
   * leaves a signoff pending while the client calls it approved or rejected.
   */
  lemma ClientAndServerDifferOffTheScale()
    ensures ServerStatus(Some("5")) == Pending && ClientStatus("5") == Approved
    ensures ServerStatus(Some("")) == Pending && ClientStatus("") == Approved
    ensures ServerStatus(Some("-1")) == Pending && ClientStatus("-1") == Rejected
  {
    FiveIsApproved();
    EmptyIsApproved();
    NegativeOneIsRejected();
  }

  lemma FiveIsApproved()
    ensures ServerStatus(Some("5")) == Pending && ClientStatus("5") == Approved
  {
    ParsesAsDigit('5');
    assert "5" == ['5'];
  }

  lemma EmptyIsApproved()
    ensures ServerStatus(Some("")) == Pending && ClientStatus("") == Approved
  {
    JsParseIntEmpty();
  }

  lemma NegativeOneIsRejected()
    ensures ServerStatus(Some("-1")) == Pending && ClientStatus("-1") == Rejected
  {
    NegativeOne();
  }

  /** `parseInt("")` is NaN. */
  lemma JsParseIntEmpty()
    ensures JsParseInt("") == None
  {
    assert DropLeading("", IsJsSpace) == "";
    assert JsParseMagnitude("") == None by { assert LeadingDigits("") == ""; }
  }

  /** `parseInt("-1")` is -1. */
  lemma NegativeOne()
    ensures JsParseInt("-1") == Some(-1)
  {
    JsParseIntOfIntToString(-1);
    assert DigitChar(1) == '1';
    assert IntToString(-1) == "-1";
  }

  /** A single digit is read by `parseInt` as its value. */
  lemma ParsesAsDigit(c: char)
    requires IsDigit(c)
    ensures JsParseInt([c]) == Some(DigitValue(c))
  {
    var v := [c];
    assert DecimalValue(v) == DigitValue(c) by { assert v[..0] == []; }
    JsParseIntDigits(v);
  }

  /**
   * The `overallScoreMap` lookup in `checkExistingSignoff`: the overall
   * level to show for a stored signoff. A rejection shows the stored score
   * if it is at most 1 and 1 otherwise; an approval shows the score if it is
   * at least 2 and 2 otherwise; a pending signoff shows 2. Any other status
   * string finds no entry (`undefined`).
   */
  function ShownOverallLevel(status: string, score: int): (r: Option<int>)
    ensures r.Some? <==> ParseStatus(status).Some?
  {
    if status == "rejected" then Some(if score <= 1 then score else 1)
    else if status == "approved" then Some(if score >= 2 then score else 2)
    else if status == "pending" then Some(2)
    else None
  }

  /**
   * The level shown for a decided signoff stands for that signoff's status,
   * and equals the stored score whenever the score already does.
   */
  lemma ShownLevelMatchesStatus(s: Status, score: int)
    ensures s != Pending ==> StatusOfLevel(ShownOverallLevel(StatusName(s), score).value) == s
    ensures s != Pending && StatusOfLevel(score) == s ==> ShownOverallLevel(StatusName(s), score) == Some(score)
    ensures s == Pending ==> ShownOverallLevel(StatusName(s), score) == Some(DefaultLevel)
  {
  }

  /** `getStatusColor(status)`: the Bootstrap colour of a status badge. */
  function StatusColor(status: string): (color: string)
    ensures color == "secondary" <==> ParseStatus(status).None?
  {
    if status == "approved" then "success"
    else if status == "rejected" then "danger"
    else if status == "pending" then "warning"
    else "secondary"
  }

  /** The three statuses get three different colours. */
  lemma StatusColorsDistinct(a: Status, b: Status)
    ensures StatusColor(StatusName(a)) == StatusColor(StatusName(b)) <==> a == b
  {
  }

  // ---------------------------------------------------------------------
  // Form input names
  // ---------------------------------------------------------------------

  const CriteriaPrefix: string := "criteria_"
  const EvalPrefix: string := "eval_"
  const MaxSuffix: string := "_max"

  /** The name of the radio group of criterion `id` (`criteria_${id}`). */
  function CriteriaInputName(id: string): string { CriteriaPrefix + id }

  /** The name of the status select of rubric criterion `key` (`eval_${key}`). */
  function EvalSelectName(key: string): string { EvalPrefix + key }

  /** The name of the max-marks input of rubric criterion `key`. */
  function EvalMaxName(key: string): string { EvalPrefix + key + MaxSuffix }

  /**
   * `radio.name.replace('criteria_', '')`: the key a checked criteria
   * radio contributes.
   */
  function CriteriaKeyOf(name: string): string { ReplaceFirst(name, CriteriaPrefix, "") }

  /** `select.name.replace('eval_', '')`: the key an evaluation select contributes. */
  function EvalKeyOf(name: string): string { ReplaceFirst(name, EvalPrefix, "") }

  lemma ReplacePrefixDrops(name: string, prefix: string)
    requires StartsWith(name, prefix)
    ensures ReplaceFirst(name, prefix, "") == name[|prefix|..]
  {
    assert OccursAt(name, prefix, 0);
  }

  /**
   * A name the page generates reads back as the key it was generated from,
   * and any name that starts with the prefix loses exactly the prefix.
   */
  lemma InputNamesRoundTrip(id: string, name: string)
    ensures CriteriaKeyOf(CriteriaInputName(id)) == id
    ensures EvalKeyOf(EvalSelectName(id)) == id
    ensures StartsWith(name, CriteriaPrefix) ==> CriteriaKeyOf(name) == name[|CriteriaPrefix|..]
    ensures StartsWith(name, EvalPrefix) ==> EvalKeyOf(name) == name[|EvalPrefix|..]
  {
    assert StartsWith(CriteriaInputName(id), CriteriaPrefix);
    ReplacePrefixDrops(CriteriaInputName(id), CriteriaPrefix);
    assert (CriteriaPrefix + id)[|CriteriaPrefix|..] == id;
    assert StartsWith(EvalSelectName(id), EvalPrefix);
    ReplacePrefixDrops(EvalSelectName(id), EvalPrefix);
    assert (EvalPrefix + id)[|EvalPrefix|..] == id;
    if StartsWith(name, CriteriaPrefix) { ReplacePrefixDrops(name, CriteriaPrefix); }
    if StartsWith(name, EvalPrefix) { ReplacePrefixDrops(name, EvalPrefix); }
  }

  // ---------------------------------------------------------------------
  // Default criteria drawn by the page
  // ---------------------------------------------------------------------

  datatype CriterionDefault = CriterionDefault(id: string, name: string, maxPoints: nat)
  datatype RubricItem = RubricItem(key: string, name: string, maxMarks: nat)

  /** The quality criteria `renderCriteria` draws when a part has none. */
  const DefaultQualityCriteria: seq<CriterionDefault> := [
    CriterionDefault("default_1", "SPLD code", 10),
    CriterionDefault("default_2", "Assembly Language Code Style", 10),
    CriterionDefault("default_3", "Required Elements functionality", 10),
    CriterionDefault("default_4", "Sign-off done without excessive retries", 10),
    CriterionDefault("default_5", "Student understanding and skills", 10)
  ]

  /** The evaluation criteria `renderEvaluationSheet` draws when none come from the server. */
  const DefaultEvaluationCriteria: seq<RubricItem> := [
    RubricItem("cleanliness", "Cleanliness", 5),
    RubricItem("hardware", "Hardware", 10),
    RubricItem("timeliness", "Timeliness", 5),
    RubricItem("student_preparation", "Student Preparation", 10),
    RubricItem("code_implementation", "Code Implementation", 15),
    RubricItem("commenting", "Commenting", 5),
    RubricItem("schematic", "Schematic", 10),
    RubricItem("course_participation", "Course Participation", 5)
  ]

  /** The max marks `resetFormInputs` writes back, by input name. */
  const ResetMaxMarks: seq<(string, nat)> := [
    ("eval_cleanliness_max", 5),
    ("eval_hardware_max", 10),
    ("eval_timeliness_max", 5),
    ("eval_student_preparation_max", 10),
    ("eval_code_implementation_max", 15),
    ("eval_commenting_max", 5),
    ("eval_schematic_max", 10),
    ("eval_course_participation_max", 5)
  ]

  /** The status choices of an evaluation select, best first. */
  const EvaluationStatusOptions: seq<string> := ["ER", "MR", "MM", "IR", "ND"]

  /** The option every evaluation select starts at and is reset to. */
  const DefaultEvaluationStatus: string := "MR"

  /** The marks of a rubric, summed. */
  function TotalMarks(items: seq<RubricItem>): nat {
    if items == [] then 0 else items[0].maxMarks + TotalMarks(items[1..])
  }

  /** Entry `i` of the reset table is the max-marks input of default criterion `i`. */
  predicate ResetEntryMatches(i: nat)
    requires i < 8
  {
    ResetMaxMarks[i] == (EvalMaxName(DefaultEvaluationCriteria[i].key), DefaultEvaluationCriteria[i].maxMarks)
  }

  /**
   * The reset table names exactly the max-marks inputs of the default
   * evaluation criteria, in the same order and with the same marks.
   */
  lemma ResetTableMatchesDefaults()
    ensures |ResetMaxMarks| == |DefaultEvaluationCriteria| == 8
    ensures forall i :: 0 <= i < 8 ==> ResetEntryMatches(i)
  {
    ResetEntry0(); ResetEntry1(); ResetEntry2(); ResetEntry3();
    ResetEntry4(); ResetEntry5(); ResetEntry6(); ResetEntry7();
  }

  lemma ResetEntry0()
    ensures ResetEntryMatches(0)
  {
    assert ResetMaxMarks[0] == ("eval_cleanliness_max", 5);
    assert DefaultEvaluationCriteria[0] == RubricItem("cleanliness", "Cleanliness", 5);
    assert EvalMaxName("cleanliness") == "eval_cleanliness_max";
  }

  lemma ResetEntry1()
    ensures ResetEntryMatches(1)
  {
    assert ResetMaxMarks[1] == ("eval_hardware_max", 10);
    assert DefaultEvaluationCriteria[1] == RubricItem("hardware", "Hardware", 10);
    assert EvalMaxName("hardware") == "eval_hardware_max";
  }

  lemma ResetEntry2()
    ensures ResetEntryMatches(2)
  {
    assert ResetMaxMarks[2] == ("eval_timeliness_max", 5);
    assert DefaultEvaluationCriteria[2] == RubricItem("timeliness", "Timeliness", 5);
    assert EvalMaxName("timeliness") == "eval_timeliness_max";
  }

  lemma ResetEntry3()
    ensures ResetEntryMatches(3)
  {
    assert ResetMaxMarks[3] == ("eval_student_preparation_max", 10);
    assert DefaultEvaluationCriteria[3] == RubricItem("student_preparation", "Student Preparation", 10);
    assert EvalMaxName("student_preparation") == "eval_student_preparation_max";
  }

  lemma ResetEntry4()
    ensures ResetEntryMatches(4)
  {
    assert ResetMaxMarks[4] == ("eval_code_implementation_max", 15);
    assert DefaultEvaluationCriteria[4] == RubricItem("code_implementation", "Code Implementation", 15);
    assert EvalMaxName("code_implementation") == "eval_code_implementation_max";
  }

  lemma ResetEntry5()
    ensures ResetEntryMatches(5)
  {
    assert ResetMaxMarks[5] == ("eval_commenting_max", 5);
    assert DefaultEvaluationCriteria[5] == RubricItem("commenting", "Commenting", 5);
    assert EvalMaxName("commenting") == "eval_commenting_max";
  }

  lemma ResetEntry6()
    ensures ResetEntryMatches(6)
  {
    assert ResetMaxMarks[6] == ("eval_schematic_max", 10);
    assert DefaultEvaluationCriteria[6] == RubricItem("schematic", "Schematic", 10);
    assert EvalMaxName("schematic") == "eval_schematic_max";
  }

  lemma ResetEntry7()
    ensures ResetEntryMatches(7)
  {
    assert ResetMaxMarks[7] == ("eval_course_participation_max", 5);
    assert DefaultEvaluationCriteria[7] == RubricItem("course_participation", "Course Participation", 5);
    assert EvalMaxName("course_participation") == "eval_course_participation_max";
  }

  /**
   * The default evaluation criteria are worth 65 marks, every default
   * quality criterion is worth 10 points, and the default status is one of
   * the options.
   */
  lemma DefaultTotals()
    ensures TotalMarks(DefaultEvaluationCriteria) == 65
    ensures forall c :: c in DefaultQualityCriteria ==> c.maxPoints == 10
    ensures DefaultEvaluationStatus in EvaluationStatusOptions
  {
    var d := DefaultEvaluationCriteria;
    assert TotalMarks(d[7..]) == 5;
    assert TotalMarks(d[6..]) == 15 by { assert d[6..][1..] == d[7..]; }
    assert TotalMarks(d[5..]) == 20 by { assert d[5..][1..] == d[6..]; }
    assert TotalMarks(d[4..]) == 35 by { assert d[4..][1..] == d[5..]; }
    assert TotalMarks(d[3..]) == 45 by { assert d[3..][1..] == d[4..]; }
    assert TotalMarks(d[2..]) == 50 by { assert d[2..][1..] == d[3..]; }
    assert TotalMarks(d[1..]) == 60 by { assert d[1..][1..] == d[2..]; }
  }

  // ---------------------------------------------------------------------
  // CSRF token
  // ---------------------------------------------------------------------

  const CookieSeparator: string := "; "
  const CsrfCookiePrefix: string := "csrftoken="

  /**
   * `getCsrfToken()`: split `document.cookie` at "; ", take the first
   * piece that starts with "csrftoken=", and return the text between its
   * first and second "=" (or to its end); "" when there is no such piece.
   */
  function CsrfToken(cookie: string): (token: string)
    ensures Avoids(token, '=')
    ensures !Contains(token, CookieSeparator)
  {
    var pieces := Split(cookie, CookieSeparator);
    match FirstWithPrefix(pieces, CsrfCookiePrefix)
    case None => ""
    case Some(k) =>
      var t := TakeUntil(pieces[k][|CsrfCookiePrefix|..], '=');
      assert !Contains(t, CookieSeparator) by {
        if Contains(t, CookieSeparator) {
          var j := IndexOf(t, CookieSeparator).value;
          OccursInPrefix(pieces[k][|CsrfCookiePrefix|..], CookieSeparator, |t|, j);
          OccursInSuffix(pieces[k], CookieSeparator, |CsrfCookiePrefix|, j);
        }
      }
      t
  }

  /** Without a "csrftoken=" cookie the token is empty. */
  lemma CsrfTokenAbsent(cookie: string)
    requires forall p :: p in Split(cookie, CookieSeparator) ==> !StartsWith(p, CsrfCookiePrefix)
    ensures CsrfToken(cookie) == ""
  {
  }

  lemma {:induction false} TakeUntilAvoiding(s: string, c: char)
    requires Avoids(s, c)
    ensures TakeUntil(s, c) == s
  {
    if s != [] { TakeUntilAvoiding(s[1..], c); }
  }

  /**
   * A cookie string made of "; "-separated cookies, in which the first
   * cookie named csrftoken holds `token`, yields `token`, provided no cookie
   * holds a ';' (cookie values cannot) and the token holds no '='.
   */
  lemma CsrfTokenRoundTrip(before: seq<string>, token: string, after: seq<string>)
    requires forall p :: p in before + after ==> Avoids(p, ';')
    requires forall p :: p in before ==> !StartsWith(p, CsrfCookiePrefix)
    requires Avoids(token, ';') && Avoids(token, '=')
    ensures CsrfToken(Join(before + [CsrfCookiePrefix + token] + after, CookieSeparator)) == token
  {
    var mine := CsrfCookiePrefix + token;
    var pieces := before + [mine] + after;
    forall k | 0 <= k < |pieces| ensures Avoids(pieces[k], CookieSeparator[0]) {
      if k < |before| {
        assert pieces[k] in before + after;
      } else if k > |before| {
        assert pieces[k] == after[k - |before| - 1];
        assert pieces[k] in before + after;
      } else {
        assert pieces[k] == mine;
        forall i | 0 <= i < |mine| ensures mine[i] != ';' {
          if i >= |CsrfCookiePrefix| { assert mine[i] == token[i - |CsrfCookiePrefix|]; }
        }
      }
    }
    SplitJoin(pieces, CookieSeparator);
    assert StartsWith(pieces[|before|], CsrfCookiePrefix);
    forall k | 0 <= k < |before| ensures !StartsWith(pieces[k], CsrfCookiePrefix) {
      assert pieces[k] in before;
    }
    assert FirstWithPrefix(pieces, CsrfCookiePrefix) == Some(|before|);
    assert mine[|CsrfCookiePrefix|..] == token;
    TakeUntilAvoiding(token, '=');
  }
}
