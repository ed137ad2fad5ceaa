/**
 * The lab-grading database and the views that read and write it
 * (labs/views.py, with `Student.get_completion_status` of labs/models.py):
 * the signoff upsert behind `quick_signoff`, the student search, the parts
 * and criteria listings, and the completion percentages.
 *
 * Tables are maps from primary keys to rows. The signoff table is keyed by
 * the (student, part) pair, so the unique-together constraint holds by
 * construction.
 */
module Database {
  import opened Strings
  import opened Records
  import Grading
  import Listing

  // ---------------------------------------------------------------------
  // The database
  // ---------------------------------------------------------------------

  /** A request as the views see it: method, POST data and the logged-in user. */
  datatype Request = Request(verb: string, post: map<string, string>, user: Option<UserPk>)

  /** What `quick_signoff` decides to do with a request. */
  datatype Decision =
    | LoginRedirect                                  // `login_required` sends the browser to the login page
    | Refuse(message: string)                        // `success: False` with a message
    | ServerError                                    // an exception the view does not catch
    | Save(key: SignoffKey, instructor: UserPk, status: Status, comments: string)

  /** A JSON reply of a listing view, or the exception that replaces it. */
  datatype Reply<T> = Json(body: T) | Crash

  /** A part as `get_parts` lists it. */
  datatype PartHit = PartHit(name: string)

  /** A criterion as `get_criteria` lists it. */
  datatype CriteriaHit = CriteriaHit(name: string, maxPoints: nat)

  /** Student numbers are unique (`student_id` is declared `unique=True`). */
  predicate StudentIdsUnique(students: map<StudentPk, Student>) {
    forall a, b :: a in students && b in students && students[a].studentId == students[b].studentId ==> a == b
  }

  /** Every signoff refers to an existing student and part (its two foreign keys). */
  predicate SignoffKeysValid(students: map<StudentPk, Student>, parts: map<PartPk, Part>,
                             signoffs: map<SignoffKey, Signoff>) {
    forall k :: k in signoffs ==> k.student in students && k.part in parts
  }

  /** `Student.objects.get(student_id=...)`: the student with that number, if any. */
  ghost function FindStudent(students: map<StudentPk, Student>, studentId: Option<string>): (r: Option<StudentPk>)
    ensures r.Some? ==> r.value in students && Some(students[r.value].studentId) == studentId
    ensures r.None? ==> forall k :: k in students ==> Some(students[k].studentId) != studentId
  {
    if exists k :: k in students && Some(students[k].studentId) == studentId then
      var k :| k in students && Some(students[k].studentId) == studentId;
      Some(k)
    else None
  }

  /**
   * The decision `quick_signoff` takes. An anonymous user is redirected
   * to log in; any method but POST is refused; the student is looked up
   * by student number before the part by primary key, and either missing
   * is refused. A part id that is not an integer makes `int()` raise a
   * ValueError that nothing catches. Otherwise the signoff for the pair is
   * saved with the status the overall score maps to.
   */
  ghost function Decide(students: map<StudentPk, Student>, parts: map<PartPk, Part>, req: Request): (d: Decision)
    ensures d.Save? ==> d.key.student in students && d.key.part in parts
  {
    if req.user.None? then LoginRedirect
    else if req.verb != "POST" then Refuse("Invalid request method")
    else
      match FindStudent(students, Get(req.post, "student_id"))
      case None => Refuse("Student or Part not found")
      case Some(s) =>
        match Get(req.post, "part_id")
        case None => Refuse("Student or Part not found")
        case Some(text) =>
          match PyInt(text)
          case None => ServerError
          case Some(n) =>
            if n < 0 || n !in parts then Refuse("Student or Part not found")
            else
              var comments := if "comments" in req.post then req.post["comments"] else "";
              Save(SignoffKey(s, n), req.user.value,
                   Grading.ServerStatus(Get(req.post, "overall_score")), comments)
  }

  /**
   * `update_or_create(student=..., part=..., defaults=...)`: the row for
   * the key gets the new instructor, status and comments and is stamped
   * `now`; a new row is stamped `now` as both submission and update time.
   */
  function Upsert(table: map<SignoffKey, Signoff>, key: SignoffKey, instructor: UserPk,
                  status: Status, comments: string, now: int): map<SignoffKey, Signoff>
  {
    if key in table then
      table[key := table[key].(instructor := instructor, status := status, comments := comments, dateUpdated := now)]
    else
      table[key := Signoff(instructor, status, comments, now, now)]
  }

  /**
   * After an upsert exactly one row exists for the key, carrying the new
   * values; it keeps its submission time if it existed and is new
   * otherwise; no other row changes and no row disappears.
   */
  lemma UpsertSpec(table: map<SignoffKey, Signoff>, key: SignoffKey, instructor: UserPk,
                   status: Status, comments: string, now: int)
    ensures var t := Upsert(table, key, instructor, status, comments, now);
      && t.Keys == table.Keys + {key}
      && |t| == (if key in table then |table| else |table| + 1)
      && t[key].instructor == instructor && t[key].status == status && t[key].comments == comments
      && t[key].dateUpdated == now
      && t[key].dateSubmitted == (if key in table then table[key].dateSubmitted else now)
      && forall k :: k in table && k != key ==> t[k] == table[k]
  {
    var t := Upsert(table, key, instructor, status, comments, now);
    if key !in table {
      assert t.Keys == table.Keys + {key};
      assert |t.Keys| == |table.Keys| + 1;
    } else {
      assert t.Keys == table.Keys;
    }
  }

  /** An upsert of an existing pair keeps every signoff's foreign keys valid. */
  lemma UpsertKeepsKeysValid(students: map<StudentPk, Student>, parts: map<PartPk, Part>,
                             table: map<SignoffKey, Signoff>, key: SignoffKey, instructor: UserPk,
                             status: Status, comments: string, now: int)
    requires SignoffKeysValid(students, parts, table)
    requires key.student in students && key.part in parts
    ensures SignoffKeysValid(students, parts, Upsert(table, key, instructor, status, comments, now))
  {
  }

  /** Saving the same signoff twice at the same moment is saving it once. */
  lemma UpsertIdempotent(table: map<SignoffKey, Signoff>, key: SignoffKey, instructor: UserPk,
                         status: Status, comments: string, now: int)
    ensures var once := Upsert(table, key, instructor, status, comments, now);
      Upsert(once, key, instructor, status, comments, now) == once
  {
  }

  /**
   * When `now` is no earlier than any stored update, the saved row comes
   * first in the signoffs' default most-recent-first order.
   */
  lemma UpsertedRowIsMostRecent(table: map<SignoffKey, Signoff>, key: SignoffKey, instructor: UserPk,
                                status: Status, comments: string, now: int)
    requires forall k :: k in table ==> table[k].dateUpdated <= now
    ensures var t := Upsert(table, key, instructor, status, comments, now);
      forall k :: k in t ==> SignoffPrecedes(t[key], t[k])
  {
  }

  /**
   * `quick_signoff` reads only form-encoded fields. A request whose body
   * is JSON leaves the form data Django parses empty, so such a request,
   * however well formed its body, is refused with "Student or Part not
   * found" and saves nothing.
   */
  lemma JsonBodyIsNeverSaved(students: map<StudentPk, Student>, parts: map<PartPk, Part>, user: UserPk)
    ensures Decide(students, parts, Request("POST", map[], Some(user))) == Refuse("Student or Part not found")
  {
  }

  /**
   * A logged-in POST naming an existing student number and the decimal
   * key of an existing part saves the signoff of that pair, with the
   * status the overall score maps to and the given comments (or none).
   */
  lemma DecideSavesKnownPair(students: map<StudentPk, Student>, parts: map<PartPk, Part>,
                             req: Request, s: StudentPk, p: PartPk)
    requires StudentIdsUnique(students)
    requires req.user.Some? && req.verb == "POST"
    requires s in students && Get(req.post, "student_id") == Some(students[s].studentId)
    requires p in parts && Get(req.post, "part_id") == Some(NatToString(p))
    ensures Decide(students, parts, req)
      == Save(SignoffKey(s, p), req.user.value, Grading.ServerStatus(Get(req.post, "overall_score")),
              if "comments" in req.post then req.post["comments"] else "")
  {
    PyIntOfNatToString(p);
  }

  /**
   * Every decision but a save leaves the signoff table alone, and a save
   * is only ever of the pair the request names.
   */
  lemma DecideSavesOnlyNamedPair(students: map<StudentPk, Student>, parts: map<PartPk, Part>, req: Request)
    ensures var d := Decide(students, parts, req);
      d.Save? ==> && req.user == Some(d.instructor) && req.verb == "POST"
                  && Get(req.post, "student_id") == Some(students[d.key.student].studentId)
                  && "part_id" in req.post && PyInt(req.post["part_id"]) == Some(d.key.part)
    ensures req.user.Some? && req.verb != "POST" ==> Decide(students, parts, req) == Refuse("Invalid request method")
  {
    var d := Decide(students, parts, req);
    if d.Save? {
      var s := FindStudent(students, Get(req.post, "student_id"));
      assert s == Some(d.key.student);
    }
  }

  /** The grading database: the four tables the core reads and writes. */
  class Db {
    var students: map<StudentPk, Student>
    var parts: map<PartPk, Part>
    var criteria: map<CriteriaPk, QualityCriteria>
    var signoffs: map<SignoffKey, Signoff>

    /** The database constraints: unique student numbers and valid foreign keys. */
    ghost predicate Valid()
      reads this
    {
      && StudentIdsUnique(students)
      && (forall c :: c in criteria ==> criteria[c].part in parts)
      && SignoffKeysValid(students, parts, signoffs)
    }

    constructor (students: map<StudentPk, Student>, parts: map<PartPk, Part>,
                 criteria: map<CriteriaPk, QualityCriteria>, signoffs: map<SignoffKey, Signoff>)
      ensures this.students == students && this.parts == parts
      ensures this.criteria == criteria && this.signoffs == signoffs
    {
      this.students := students;
      this.parts := parts;
      this.criteria := criteria;
      this.signoffs := signoffs;
    }

    /** `Student.objects.get(student_id=...)`, by a scan of the table. */
    method LookupStudent(studentId: Option<string>) returns (r: Option<StudentPk>)
      requires Valid()
      ensures r == FindStudent(students, studentId)
    {
      var remaining := students.Keys;
      while remaining != {}
        invariant remaining <= students.Keys
        invariant forall k :: k in students.Keys - remaining ==> Some(students[k].studentId) != studentId
        decreases remaining
      {
        var k :| k in remaining;
        if Some(students[k].studentId) == studentId {
          return Some(k);
        }
        remaining := remaining - {k};
      }
      return None;
    }

    /** The checks of `quick_signoff`, in the view's order, before anything is written. */
    method DecideRequest(req: Request) returns (d: Decision)
      requires Valid()
      ensures d == Decide(students, parts, req)
    {
      if req.user.None? {
        return LoginRedirect;
      }
      if req.verb != "POST" {
        return Refuse("Invalid request method");
      }
      var student := LookupStudent(Get(req.post, "student_id"));
      if student.None? || "part_id" !in req.post {
        return Refuse("Student or Part not found");
      }
      var partId := PyInt(req.post["part_id"]);
      if partId.None? {
        return ServerError;
      }
      if partId.value < 0 || partId.value !in parts {
        return Refuse("Student or Part not found");
      }
      var comments := if "comments" in req.post then req.post["comments"] else "";
      var status := Grading.ServerStatus(Get(req.post, "overall_score"));
      d := Save(SignoffKey(student.value, partId.value), req.user.value, status, comments);
    }

    /**
     * `quick_signoff`: decide what the request asks for and, when it is a
     * save, upsert the signoff. `created` says whether the row is new.
     * Every other outcome leaves all tables unchanged.
     */
    method QuickSignoff(req: Request, now: int) returns (d: Decision, created: bool)
      requires Valid()
      modifies this
      ensures Valid()
      ensures d == Decide(old(students), old(parts), req)
      ensures created <==> d.Save? && d.key !in old(signoffs)
      ensures students == old(students) && parts == old(parts) && criteria == old(criteria)
      ensures signoffs == if d.Save? then Upsert(old(signoffs), d.key, d.instructor, d.status, d.comments, now)
                          else old(signoffs)
    {
      d := DecideRequest(req);
      created := d.Save? && d.key !in signoffs;
      if d.Save? {
        UpsertKeepsKeysValid(students, parts, signoffs, d.key, d.instructor, d.status, d.comments, now);
        signoffs := Upsert(signoffs, d.key, d.instructor, d.status, d.comments, now);
      }
      assert StudentIdsUnique(students) && SignoffKeysValid(students, parts, signoffs);
    }

    /**
     * `student_name_search`: for a missing query or one shorter than two
     * characters, no students; otherwise up to ten students whose name or
     * student number contains the query, ignoring case, in no particular
     * order (Student declares no default ordering), and all of them when
     * there are fewer than ten.
     */
    method StudentNameSearch(query: Option<string>) returns (hits: seq<StudentHit>)
      ensures var q := if query.Some? then query.value else "";
        SearchAnswers(students, q, hits)
    {
      var q := if query.Some? then query.value else "";
      if |q| < MinQueryLength {
        return [];
      }
      hits := SearchTable(students, q);
    }
  }

  // ---------------------------------------------------------------------
  // Student search
  // ---------------------------------------------------------------------

  const SearchLimit: nat := 10
  const MinQueryLength: nat := 2

  /** `Q(name__icontains=q) | Q(student_id__icontains=q)`. */
  predicate StudentMatches(s: Student, query: string) {
    ContainsIgnoringCase(s.name, query) || ContainsIgnoringCase(s.studentId, query)
  }

  /** The students a list of hits names. */
  function HitIds(hits: seq<StudentHit>): (ids: set<StudentPk>)
    ensures forall i :: 0 <= i < |hits| ==> hits[i].id in ids
    ensures forall k :: k in ids ==> exists i :: 0 <= i < |hits| && hits[i].id == k
  {
    if hits == [] then {} else HitIds(hits[..|hits| - 1]) + {hits[|hits| - 1].id}
  }

  /** What the scan of the table has established after visiting `visited`. */
  ghost predicate ScanInvariant(students: map<StudentPk, Student>, query: string,
                                visited: set<StudentPk>, hits: seq<StudentHit>) {
    && visited <= students.Keys
    && |hits| <= SearchLimit
    && (forall i :: 0 <= i < |hits| ==> hits[i].id in visited && IsHitFor(students, query, hits[i]))
    && (forall i, j :: 0 <= i < j < |hits| ==> hits[i].id != hits[j].id)
    && (forall k :: k in visited && StudentMatches(students[k], query) ==> k in HitIds(hits))
  }

  /** Visiting one more student keeps the scan's invariant. */
  lemma ScanStep(students: map<StudentPk, Student>, query: string,
                 visited: set<StudentPk>, hits: seq<StudentHit>, k: StudentPk)
    requires ScanInvariant(students, query, visited, hits)
    requires k in students && k !in visited && |hits| < SearchLimit
    ensures StudentMatches(students[k], query) ==>
      ScanInvariant(students, query, visited + {k}, hits + [StudentHit(k, students[k].name, students[k].studentId)])
    ensures !StudentMatches(students[k], query) ==> ScanInvariant(students, query, visited + {k}, hits)
  {
    if StudentMatches(students[k], query) {
      ScanStepHit(students, query, visited, hits, k);
    }
  }

  /** Visiting a matching student and appending its hit keeps the scan's invariant. */
  lemma ScanStepHit(students: map<StudentPk, Student>, query: string,
                    visited: set<StudentPk>, hits: seq<StudentHit>, k: StudentPk)
    requires ScanInvariant(students, query, visited, hits)
    requires k in students && k !in visited && |hits| < SearchLimit
    requires StudentMatches(students[k], query)
    ensures ScanInvariant(students, query, visited + {k}, hits + [StudentHit(k, students[k].name, students[k].studentId)])
  {
    var next := hits + [StudentHit(k, students[k].name, students[k].studentId)];
    assert next[..|next| - 1] == hits;
    assert HitIds(next) == HitIds(hits) + {k};
    forall i | 0 <= i < |next| ensures next[i].id in visited + {k} && IsHitFor(students, query, next[i]) {
      if i < |hits| { assert next[i] == hits[i]; }
    }
    forall i, j | 0 <= i < j < |next| ensures next[i].id != next[j].id {
      if j < |hits| { assert next[i] == hits[i] && next[j] == hits[j]; }
      else { assert next[i] == hits[i]; }
    }
  }

  /** The complete scan answers the search. */
  lemma ScanAnswers(students: map<StudentPk, Student>, query: string,
                    visited: set<StudentPk>, hits: seq<StudentHit>)
    requires ScanInvariant(students, query, visited, hits)
    requires |query| >= MinQueryLength
    requires visited == students.Keys || |hits| == SearchLimit
    ensures SearchAnswers(students, query, hits)
  {
    if |hits| < SearchLimit {
      forall k | k in students && StudentMatches(students[k], query)
        ensures exists i :: 0 <= i < |hits| && hits[i].id == k
      {
        assert k in HitIds(hits);
      }
    }
  }

  /** The scan of the student table behind the search, visiting rows in any order. */
  method SearchTable(students: map<StudentPk, Student>, query: string) returns (hits: seq<StudentHit>)
    requires |query| >= MinQueryLength
    ensures SearchAnswers(students, query, hits)
  {
    hits := [];
    var remaining := students.Keys;
    while remaining != {} && |hits| < SearchLimit
      invariant remaining <= students.Keys
      invariant ScanInvariant(students, query, students.Keys - remaining, hits)
      decreases remaining
    {
      var k :| k in remaining;
      ScanStep(students, query, students.Keys - remaining, hits, k);
      if StudentMatches(students[k], query) {
        hits := hits + [StudentHit(k, students[k].name, students[k].studentId)];
      }
      assert students.Keys - (remaining - {k}) == (students.Keys - remaining) + {k};
      remaining := remaining - {k};
    }
    ScanAnswers(students, query, students.Keys - remaining, hits);
  }

  /** A search hit stands for a matching student, listed as the table holds it. */
  predicate IsHitFor(students: map<StudentPk, Student>, query: string, h: StudentHit) {
    h.id in students && StudentMatches(students[h.id], query)
    && h.name == students[h.id].name && h.studentId == students[h.id].studentId
  }

  /**
   * What the search may answer for a query: nothing below two characters;
   * otherwise at most ten distinct matching students, which are all the
   * matching students whenever fewer than ten come back.
   */
  ghost predicate SearchAnswers(students: map<StudentPk, Student>, query: string, hits: seq<StudentHit>) {
    && (|query| < MinQueryLength ==> hits == [])
    && |hits| <= SearchLimit
    && (forall i :: 0 <= i < |hits| ==> IsHitFor(students, query, hits[i]))
    && (forall i, j :: 0 <= i < j < |hits| ==> hits[i].id != hits[j].id)
    && (|query| >= MinQueryLength && |hits| < SearchLimit ==>
          forall k :: k in students && StudentMatches(students[k], query) ==>
            exists i :: 0 <= i < |hits| && hits[i].id == k)
  }

  /**
   * The answer is determined up to order whenever at most ten students
   * match: two admissible answers then list the same students.
   */
  lemma SearchAnswerUnique(students: map<StudentPk, Student>, query: string, a: seq<StudentHit>, b: seq<StudentHit>)
    requires SearchAnswers(students, query, a) && SearchAnswers(students, query, b)
    requires |a| < SearchLimit
    ensures forall h :: h in a <==> h in b
  {
    if |query| >= MinQueryLength {
      forall h | h in b ensures h in a {
        var j :| 0 <= j < |b| && b[j] == h;
        assert IsHitFor(students, query, h);
        var i :| 0 <= i < |a| && a[i].id == h.id;
        assert IsHitFor(students, query, a[i]);
      }
      var hitsB := set h | h in b;
      var hitsA := set h | h in a;
      assert hitsB <= hitsA;
      DistinctCard(a);
      DistinctCard(b);
      if |b| >= SearchLimit {
        SubsetCardinality(hitsB, hitsA);
      }
      forall h | h in a ensures h in b {
        var i :| 0 <= i < |a| && a[i] == h;
        assert IsHitFor(students, query, h);
        var j :| 0 <= j < |b| && b[j].id == h.id;
        assert IsHitFor(students, query, b[j]);
      }
    }
  }

  /** A list of hits with distinct ids has as many distinct elements as entries. */
  lemma {:induction false} DistinctCard(hits: seq<StudentHit>)
    requires forall i, j :: 0 <= i < j < |hits| ==> hits[i].id != hits[j].id
    ensures |set h | h in hits| == |hits|
  {
    if hits != [] {
      var init := hits[..|hits| - 1];
      var last := hits[|hits| - 1];
      DistinctCard(init);
      assert (set h | h in hits) == (set h | h in init) + {last};
      forall i | 0 <= i < |init| ensures init[i] != last {
        assert hits[i].id != hits[|hits| - 1].id;
      }
    }
  }

  // ---------------------------------------------------------------------
  // Parts and criteria listings
  // ---------------------------------------------------------------------

  /**
   * `get_parts` as written: an empty or missing `lab_id` reaches
   * `JsonResponse([])` without `safe=False`, which raises a TypeError for
   * a non-dict payload; a `lab_id` that is not an integer makes the
   * lookup's `int()` raise; otherwise the lab's parts.
   */
  function GetPartsAsWritten(parts: map<PartPk, Part>, labId: Option<string>): (r: Reply<map<PartPk, PartHit>>)
    ensures labId.None? || labId == Some("") ==> r.Crash?
  {
    var text := if labId.Some? then labId.value else "";
    if text == "" then Crash else PartsOfLab(parts, text)
  }

  /** `get_parts` as evidently intended: an empty reply for an empty id. */
  function GetParts(parts: map<PartPk, Part>, labId: Option<string>): (r: Reply<map<PartPk, PartHit>>)
    ensures labId.None? || labId == Some("") ==> r == Json(map[])
  {
    var text := if labId.Some? then labId.value else "";
    if text == "" then Json(map[]) else PartsOfLab(parts, text)
  }

  /** `Part.objects.filter(lab_id=...).values('id', 'name')` for a non-empty id. */
  function PartsOfLab(parts: map<PartPk, Part>, text: string): Reply<map<PartPk, PartHit>> {
    match PyInt(text)
    case None => Crash
    case Some(lab) => Json(map p | p in parts && parts[p].lab == lab :: PartHit(parts[p].name))
  }

  /** `get_criteria` as written: the same TypeError for an empty `part_id`. */
  function GetCriteriaAsWritten(criteria: map<CriteriaPk, QualityCriteria>, partId: Option<string>): (r: Reply<map<CriteriaPk, CriteriaHit>>)
    ensures partId.None? || partId == Some("") ==> r.Crash?
  {
    var text := if partId.Some? then partId.value else "";
    if text == "" then Crash else CriteriaOfPart(criteria, text)
  }

  /** `get_criteria` as evidently intended: an empty reply for an empty id. */
  function GetCriteria(criteria: map<CriteriaPk, QualityCriteria>, partId: Option<string>): (r: Reply<map<CriteriaPk, CriteriaHit>>)
    ensures partId.None? || partId == Some("") ==> r == Json(map[])
  {
    var text := if partId.Some? then partId.value else "";
    if text == "" then Json(map[]) else CriteriaOfPart(criteria, text)
  }

  /** `QualityCriteria.objects.filter(part_id=...).values('id', 'name', 'max_points')`. */
  function CriteriaOfPart(criteria: map<CriteriaPk, QualityCriteria>, text: string): Reply<map<CriteriaPk, CriteriaHit>> {
    match PyInt(text)
    case None => Crash
    case Some(part) => Json(map c | c in criteria && criteria[c].part == part :: CriteriaHit(criteria[c].name, criteria[c].maxPoints))
  }

  /**
   * The empty id crashes the views as written, while the intended views
   * answer an empty list; for every other id the two agree.
   */
  lemma EmptyIdCrashes(parts: map<PartPk, Part>, criteria: map<CriteriaPk, QualityCriteria>, id: Option<string>)
    ensures GetPartsAsWritten(parts, None).Crash? && GetParts(parts, None) == Json(map[])
    ensures GetCriteriaAsWritten(criteria, Some("")).Crash? && GetCriteria(criteria, Some("")) == Json(map[])
    ensures id.Some? && id.value != "" ==> GetPartsAsWritten(parts, id) == GetParts(parts, id)
    ensures id.Some? && id.value != "" ==> GetCriteriaAsWritten(criteria, id) == GetCriteria(criteria, id)
  {
  }

  /**
   * For the decimal key of a lab, the corrected `get_parts` lists exactly
   * that lab's parts with their names, and likewise `get_criteria` exactly
   * the criteria of a part; an empty id lists nothing.
   */
  lemma ListingsAreExact(parts: map<PartPk, Part>, criteria: map<CriteriaPk, QualityCriteria>, lab: nat, part: nat)
    ensures GetParts(parts, Some(NatToString(lab))).Json?
    ensures var r := GetParts(parts, Some(NatToString(lab))).body;
      (forall p :: p in r <==> p in parts && parts[p].lab == lab)
      && forall p :: p in r ==> r[p].name == parts[p].name
    ensures GetCriteria(criteria, Some(NatToString(part))).Json?
    ensures var r := GetCriteria(criteria, Some(NatToString(part))).body;
      (forall c :: c in r <==> c in criteria && criteria[c].part == part)
      && forall c :: c in r ==> r[c] == CriteriaHit(criteria[c].name, criteria[c].maxPoints)
    ensures GetParts(parts, Some("")) == Json(map[]) && GetCriteria(criteria, None) == Json(map[])
  {
    PyIntOfNatToString(lab);
    PyIntOfNatToString(part);
  }

  /** The `order` a part sorts by within its lab. */
  function PartOrder(parts: map<PartPk, Part>, p: nat): nat {
    if p in parts then parts[p].order else 0
  }

  /** The name a criterion sorts by within its part. */
  function CriteriaName(criteria: map<CriteriaPk, QualityCriteria>, c: nat): string {
    if c in criteria then criteria[c].name else ""
  }

  /** Primary keys of parts compared by their `order`. */
  function ByOrder(parts: map<PartPk, Part>): (nat, nat) -> bool {
    (a: nat, b: nat) => PartOrder(parts, a) <= PartOrder(parts, b)
  }

  /** Primary keys of criteria compared by their names. */
  function ByName(criteria: map<CriteriaPk, QualityCriteria>): (nat, nat) -> bool {
    (a: nat, b: nat) => NameLe(CriteriaName(criteria, a), CriteriaName(criteria, b))
  }

  lemma ByNameIsTotalPreorder(criteria: map<CriteriaPk, QualityCriteria>)
    ensures Listing.TotalPreorder(ByName(criteria))
  {
    var before := ByName(criteria);
    forall a: nat, b: nat ensures before(a, b) || before(b, a) {
      NameLeTotal(CriteriaName(criteria, a), CriteriaName(criteria, b));
    }
    forall a: nat, b: nat, c: nat | before(a, b) && before(b, c) ensures before(a, c) {
      NameLeTransitive(CriteriaName(criteria, a), CriteriaName(criteria, b), CriteriaName(criteria, c));
    }
  }

  /** The parts `get_parts` selects all belong to one lab. */
  lemma SelectedPartsShareALab(parts: map<PartPk, Part>, labId: Option<string>, a: nat, b: nat)
    requires GetParts(parts, labId).Json?
    requires a in GetParts(parts, labId).body && b in GetParts(parts, labId).body
    ensures a in parts && b in parts && parts[a].lab == parts[b].lab
  {
  }

  /** The criteria `get_criteria` selects all belong to one part. */
  lemma SelectedCriteriaShareAPart(criteria: map<CriteriaPk, QualityCriteria>, partId: Option<string>, a: nat, b: nat)
    requires GetCriteria(criteria, partId).Json?
    requires a in GetCriteria(criteria, partId).body && b in GetCriteria(criteria, partId).body
    ensures a in criteria && b in criteria && criteria[a].part == criteria[b].part
  {
  }

  /**
   * `get_parts`' JSON array: the parts the corrected view selects, each
   * once, in Part's default ordering by (lab, order).
   */
  method ListParts(parts: map<PartPk, Part>, labId: Option<string>) returns (r: Reply<seq<Listing.Listed<PartHit>>>)
    ensures r.Crash? <==> GetParts(parts, labId).Crash?
    ensures r.Json? ==> Listing.Enumerates(GetParts(parts, labId).body, r.body)
    ensures r.Json? ==> forall i, j :: 0 <= i < j < |r.body| ==>
      r.body[i].id in parts && r.body[j].id in parts && PartPrecedes(parts[r.body[i].id], parts[r.body[j].id])
  {
    var selected := GetParts(parts, labId);
    if selected.Crash? {
      return Crash;
    }
    var rows := Listing.ListRows(selected.body, ByOrder(parts));
    forall i, j | 0 <= i < j < |rows|
      ensures rows[i].id in parts && rows[j].id in parts && PartPrecedes(parts[rows[i].id], parts[rows[j].id])
    {
      SelectedPartsShareALab(parts, labId, rows[i].id, rows[j].id);
      assert ByOrder(parts)(rows[i].id, rows[j].id);
    }
    return Json(rows);
  }

  /**
   * `get_criteria`'s JSON array: the criteria the corrected view selects,
   * each once, by name, which within one part is QualityCriteria's
   * default ordering by (part, name).
   */
  method ListCriteria(parts: map<PartPk, Part>, criteria: map<CriteriaPk, QualityCriteria>, partId: Option<string>)
    returns (r: Reply<seq<Listing.Listed<CriteriaHit>>>)
    ensures r.Crash? <==> GetCriteria(criteria, partId).Crash?
    ensures r.Json? ==> Listing.Enumerates(GetCriteria(criteria, partId).body, r.body)
    ensures r.Json? ==> forall i, j :: 0 <= i < j < |r.body| ==>
      r.body[i].id in criteria && r.body[j].id in criteria
      && NameLe(criteria[r.body[i].id].name, criteria[r.body[j].id].name)
      && (criteria[r.body[i].id].part in parts ==>
            criteria[r.body[j].id].part in parts && CriteriaPrecedes(parts, criteria[r.body[i].id], criteria[r.body[j].id]))
  {
    var selected := GetCriteria(criteria, partId);
    if selected.Crash? {
      return Crash;
    }
    ByNameIsTotalPreorder(criteria);
    var rows := Listing.ListRows(selected.body, ByName(criteria));
    forall i, j | 0 <= i < j < |rows|
      ensures rows[i].id in criteria && rows[j].id in criteria
      ensures criteria[rows[i].id].part == criteria[rows[j].id].part
      ensures NameLe(criteria[rows[i].id].name, criteria[rows[j].id].name)
    {
      SelectedCriteriaShareAPart(criteria, partId, rows[i].id, rows[j].id);
      assert ByName(criteria)(rows[i].id, rows[j].id);
    }
    return Json(rows);
  }

  // ---------------------------------------------------------------------
  // Completion percentages
  // ---------------------------------------------------------------------

  /** A percentage as an exact ratio: `num / den` percent. */
  datatype Percentage = Percentage(num: nat, den: nat)

  function RequiredParts(parts: map<PartPk, Part>): set<PartPk> {
    set p | p in parts && parts[p].isRequired
  }

  /** The signoffs counted as completed: approved, on a required part. */
  function ApprovedRequired(parts: map<PartPk, Part>, signoffs: map<SignoffKey, Signoff>): set<SignoffKey> {
    set k | k in signoffs && signoffs[k].status == Approved && k.part in parts && parts[k.part].isRequired
  }

  /**
   * `home_view`'s `overall_completion`: approved signoffs on required
   * parts over (required parts x students), times 100; 0 when there are no
   * required parts or no students.
   */
  function OverallCompletion(students: map<StudentPk, Student>, parts: map<PartPk, Part>,
                             signoffs: map<SignoffKey, Signoff>): (pct: Percentage)
    ensures pct.den > 0
    ensures |RequiredParts(parts)| == 0 || |students| == 0 ==> pct.num == 0
  {
    var required := |RequiredParts(parts)|;
    if required > 0 && |students| > 0 then
      Percentage(100 * |ApprovedRequired(parts, signoffs)|, required * |students|)
    else Percentage(0, 1)
  }

  /** The parts a student has completed: distinct required parts with an approved signoff. */
  function CompletedParts(parts: map<PartPk, Part>, signoffs: map<SignoffKey, Signoff>, s: StudentPk): (done: set<PartPk>)
    ensures done <= RequiredParts(parts)
  {
    set k | k in ApprovedRequired(parts, signoffs) && k.student == s :: k.part
  }

  /**
   * `Student.get_completion_status`: completed required parts over
   * required parts, times 100; 0 when no part is required.
   */
  function CompletionStatus(parts: map<PartPk, Part>, signoffs: map<SignoffKey, Signoff>, s: StudentPk): (pct: Percentage)
    ensures pct.den > 0 && pct.num <= 100 * pct.den
    ensures pct.num == 100 * pct.den <==> RequiredParts(parts) != {} && CompletedParts(parts, signoffs, s) == RequiredParts(parts)
  {
    var required := RequiredParts(parts);
    var done := CompletedParts(parts, signoffs, s);
    SubsetCardinality(done, required);
    if |required| == 0 then Percentage(0, 1)
    else Percentage(100 * |done|, |required|)
  }

  lemma {:induction false} SubsetCardinality<T>(a: set<T>, b: set<T>)
    requires a <= b
    ensures |a| <= |b|
    ensures |a| == |b| ==> a == b
    decreases b
  {
    if a != b {
      assert !(b <= a);
      var x :| x in b && x !in a;
      SubsetCardinality(a, b - {x});
    }
  }

  /** All (student, part) pairs of the given students and parts. */
  function Pairs(students: set<StudentPk>, parts: set<PartPk>): set<SignoffKey> {
    set s, p | s in students && p in parts :: SignoffKey(s, p)
  }

  /** The pairs of one student. */
  function Row(s: StudentPk, parts: set<PartPk>): set<SignoffKey> {
    set p | p in parts :: SignoffKey(s, p)
  }

  lemma {:induction false} RowCardinality(s: StudentPk, parts: set<PartPk>)
    ensures |Row(s, parts)| == |parts|
    decreases parts
  {
    if parts != {} {
      var p :| p in parts;
      var rest := parts - {p};
      RowCardinality(s, rest);
      assert Row(s, parts) == Row(s, rest) + {SignoffKey(s, p)};
    }
  }

  /** Taking one student out splits off that student's row, which shares no pair with the rest. */
  lemma PairsSplit(students: set<StudentPk>, s: StudentPk, parts: set<PartPk>)
    requires s in students
    ensures Pairs(students, parts) == Pairs(students - {s}, parts) + Row(s, parts)
    ensures Pairs(students - {s}, parts) !! Row(s, parts)
  {
  }

  /** There are exactly |students| x |parts| pairs. */
  lemma {:induction false} PairsCardinality(students: set<StudentPk>, parts: set<PartPk>)
    ensures |Pairs(students, parts)| == |students| * |parts|
    decreases students
  {
    if students != {} {
      var s :| s in students;
      var rest := students - {s};
      PairsCardinality(rest, parts);
      RowCardinality(s, parts);
      PairsSplit(students, s, parts);
      assert |Pairs(students, parts)| == |Pairs(rest, parts)| + |Row(s, parts)|;
      assert |students| == |rest| + 1;
      MulSucc(|rest|, |parts|);
    }
  }

  lemma MulSucc(a: nat, b: nat)
    ensures (a + 1) * b == a * b + b
  {
  }

  /**
   * Because there is at most one signoff per (student, part) pair and each
   * refers to an existing student and part, overall completion never
   * exceeds 100%, and reaches it exactly when every student has an
   * approved signoff on every required part.
   */
  lemma OverallCompletionAtMost100(students: map<StudentPk, Student>, parts: map<PartPk, Part>,
                                   signoffs: map<SignoffKey, Signoff>)
    requires SignoffKeysValid(students, parts, signoffs)
    ensures var pct := OverallCompletion(students, parts, signoffs);
      && pct.num <= 100 * pct.den
      && (pct.num == 100 * pct.den <==>
            RequiredParts(parts) != {} && students != map[]
            && ApprovedRequired(parts, signoffs) == Pairs(students.Keys, RequiredParts(parts)))
  {
    var approved := ApprovedRequired(parts, signoffs);
    var all := Pairs(students.Keys, RequiredParts(parts));
    assert approved <= all by {
      forall k | k in approved ensures k in all {
        assert k.student in students.Keys && k.part in RequiredParts(parts);
      }
    }
    SubsetCardinality(approved, all);
    PairsCardinality(students.Keys, RequiredParts(parts));
    assert |students.Keys| == |students|;
    if RequiredParts(parts) == {} || students == map[] {
      assert |RequiredParts(parts)| == 0 || |students| == 0;
    }
  }
}
