/**
 * The rows of the lab-grading database (labs/models.py): students, lab
 * parts, quality criteria and signoffs, the signoff status choices, the
 * field defaults and validators, and the default orderings the models
 * declare. Tables themselves are maps from primary keys to rows; they live
 * in the Database module.
 */
module Records {
  import opened Strings

  type LabPk = nat
  type PartPk = nat
  type StudentPk = nat
  type CriteriaPk = nat
  type UserPk = nat

  /** The three values of `Signoff.STATUS_CHOICES`. */
  datatype Status = Pending | Approved | Rejected

  /** The value stored in the database for a status. */
  function StatusName(s: Status): string {
    match s
    case Pending => "pending"
    case Approved => "approved"
    case Rejected => "rejected"
  }

  /** Which stored strings are valid choices, and the status they stand for. */
  function ParseStatus(name: string): (r: Option<Status>)
    ensures r.Some? ==> StatusName(r.value) == name
  {
    if name == "pending" then Some(Pending)
    else if name == "approved" then Some(Approved)
    else if name == "rejected" then Some(Rejected)
    else None
  }

  /** Every status is a valid choice and reads back as itself. */
  lemma StatusChoicesRoundTrip(s: Status)
    ensures ParseStatus(StatusName(s)) == Some(s)
  {
  }

  /** A new signoff is pending unless a status is given. */
  const DefaultStatus: Status := Pending

  /** A student row; `studentId` is unique across the table. */
  datatype Student = Student(studentId: string, name: string, email: string, active: bool)

  /** A student as the search endpoint lists it: primary key, name, student number. */
  datatype StudentHit = StudentHit(id: StudentPk, name: string, studentId: string)

  /** A lab part; `order` is a PositiveIntegerField defaulting to 0. */
  datatype Part = Part(lab: LabPk, name: string, order: nat, isRequired: bool)

  /** An exact non-negative rational, standing for a FloatField value. */
  datatype Fraction = Fraction(num: nat, den: nat)

  /** A quality criterion of a part. */
  datatype QualityCriteria = QualityCriteria(part: PartPk, name: string, maxPoints: nat, weight: Fraction)

  /**
   * A signoff row, identified by its (student, part) key. `instructor` is
   * the user who last saved it; `dateSubmitted` is set when the row is
   * created and `dateUpdated` on every save.
   */
  datatype Signoff = Signoff(instructor: UserPk, status: Status, comments: string,
                             dateSubmitted: int, dateUpdated: int)

  /** The unique-together pair (student, part) that identifies a signoff. */
  datatype SignoffKey = SignoffKey(student: StudentPk, part: PartPk)

  /** The weight validators: between 0.0 and 1.0 inclusive. */
  predicate WeightValid(w: Fraction) {
    w.den > 0 && w.num <= w.den
  }

  /** A criterion created without explicit values: 10 points, weight 1.0. */
  function NewQualityCriteria(part: PartPk, name: string): (c: QualityCriteria)
    ensures c.part == part && c.name == name
    ensures c.maxPoints == 10
    ensures WeightValid(c.weight) && c.weight.num == c.weight.den
  {
    QualityCriteria(part, name, 10, Fraction(1, 1))
  }

  /** A part created without explicit values: order 0, required. */
  function NewPart(lab: LabPk, name: string): (p: Part)
    ensures p.lab == lab && p.name == name && p.order == 0 && p.isRequired
  {
    Part(lab, name, 0, true)
  }

  // ---------------------------------------------------------------------
  // Default orderings (the `ordering` of each model's Meta)
  // ---------------------------------------------------------------------

  /** Code-point lexicographic order on names, the database's binary collation. */
  predicate NameLe(a: string, b: string)
    decreases |a|
  {
    a == [] || (b != [] && (a[0] < b[0] || (a[0] == b[0] && NameLe(a[1..], b[1..]))))
  }

  lemma {:induction false} NameLeTotal(a: string, b: string)
    ensures NameLe(a, b) || NameLe(b, a)
    decreases |a|
  {
    if a != [] && b != [] && a[0] == b[0] { NameLeTotal(a[1..], b[1..]); }
  }

  lemma {:induction false} NameLeTransitive(a: string, b: string, c: string)
    requires NameLe(a, b) && NameLe(b, c)
    ensures NameLe(a, c)
    decreases |a|
  {
    if a != [] && b != [] && c != [] && a[0] == b[0] && b[0] == c[0] {
      NameLeTransitive(a[1..], b[1..], c[1..]);
    }
  }

  lemma {:induction false} NameLeAntisymmetric(a: string, b: string)
    requires NameLe(a, b) && NameLe(b, a)
    ensures a == b
    decreases |a|
  {
    if a != [] {
      NameLeAntisymmetric(a[1..], b[1..]);
      assert a == [a[0]] + a[1..] && b == [b[0]] + b[1..];
    }
  }

  /** Parts sort by lab (the lab's primary key, Lab declares no ordering), then `order`. */
  predicate PartPrecedes(a: Part, b: Part) {
    a.lab < b.lab || (a.lab == b.lab && a.order <= b.order)
  }

  /**
   * Criteria sort by part, then name. Ordering by a relation uses the related
   * model's own ordering, so "by part" means by the part's (lab, order).
   */
  predicate CriteriaPrecedes(parts: map<PartPk, Part>, a: QualityCriteria, b: QualityCriteria)
    requires a.part in parts && b.part in parts
  {
    var pa, pb := parts[a.part], parts[b.part];
    if pa.lab != pb.lab || pa.order != pb.order then PartPrecedes(pa, pb)
    else NameLe(a.name, b.name)
  }

  /** Signoffs sort by most recent update first. */
  predicate SignoffPrecedes(a: Signoff, b: Signoff) {
    a.dateUpdated >= b.dateUpdated
  }

  /** Each of the three orderings compares every pair and is transitive. */
  lemma OrderingsAreTotalPreorders(parts: map<PartPk, Part>, x: QualityCriteria, y: QualityCriteria, z: QualityCriteria)
    requires x.part in parts && y.part in parts && z.part in parts
    ensures CriteriaPrecedes(parts, x, y) || CriteriaPrecedes(parts, y, x)
    ensures CriteriaPrecedes(parts, x, y) && CriteriaPrecedes(parts, y, z) ==> CriteriaPrecedes(parts, x, z)
    ensures forall a: Part, b: Part :: PartPrecedes(a, b) || PartPrecedes(b, a)
    ensures forall a: Part, b: Part, c: Part :: PartPrecedes(a, b) && PartPrecedes(b, c) ==> PartPrecedes(a, c)
    ensures forall a: Signoff, b: Signoff :: SignoffPrecedes(a, b) || SignoffPrecedes(b, a)
    ensures forall a: Signoff, b: Signoff, c: Signoff :: SignoffPrecedes(a, b) && SignoffPrecedes(b, c) ==> SignoffPrecedes(a, c)
  {
    NameLeTotal(x.name, y.name);
    if CriteriaPrecedes(parts, x, y) && CriteriaPrecedes(parts, y, z) {
      var px, py, pz := parts[x.part], parts[y.part], parts[z.part];
      if px.lab == py.lab == pz.lab && px.order == py.order == pz.order {
        NameLeTransitive(x.name, y.name, z.name);
      }
    }
  }
}
