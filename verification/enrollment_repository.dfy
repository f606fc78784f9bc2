/** The enrollment queries of `EnrollmentRepository`, as filters over the
    enrollment table, and its two bulk modifying statements. */
module EnrollmentRepository {
  import opened Common
  import opened EnrollmentEntity
  import opened Database

  /** Ids of the rows for the pair (student `s`, course `c`), whatever their status. */
  function PairIds(db: Store, s: Id, c: Id): (ids: set<Id>)
    reads db`enrollments
    ensures ids <= db.enrollments.Keys
    ensures db.UniquePairs() ==> forall k1, k2 :: k1 in ids && k2 in ids ==> k1 == k2
  {
    set k | k in db.enrollments && db.enrollments[k].studentId == s && db.enrollments[k].courseId == c
  }

  /** `findByStudentIdAndCourseId`: the pair's row regardless of status, or none.
      The unique (student_id, course_id) constraint makes the answer unique. */
  function FindByStudentIdAndCourseId(db: Store, s: Id, c: Id): (r: Option<Id>)
    requires db.UniquePairs()
    reads db`enrollments
    ensures r.Some? <==> PairIds(db, s, c) != {}
    ensures r.Some? ==> PairIds(db, s, c) == {r.value}
  {
    if PairIds(db, s, c) == {} then None
    else
      var k :| k in PairIds(db, s, c);
      Some(k)
  }

  /** `existsActiveEnrollment`. */
  predicate ExistsActiveEnrollment(db: Store, s: Id, c: Id)
    reads db`enrollments, db.enrollments.Values`status
  {
    exists k :: k in db.enrollments && db.enrollments[k].studentId == s &&
      db.enrollments[k].courseId == c && db.enrollments[k].status == Active
  }

  /** With one row per pair, an active row exists exactly when the pair's row
      is found and is ACTIVE. */
  lemma ExistsActiveMeansFoundActive(db: Store, s: Id, c: Id)
    requires db.UniquePairs()
    ensures ExistsActiveEnrollment(db, s, c) <==>
              (FindByStudentIdAndCourseId(db, s, c).Some? &&
               db.enrollments[FindByStudentIdAndCourseId(db, s, c).value].status == Active)
  {
    if ExistsActiveEnrollment(db, s, c) {
      var k :| k in db.enrollments && db.enrollments[k].studentId == s &&
        db.enrollments[k].courseId == c && db.enrollments[k].status == Active;
      assert k in PairIds(db, s, c);
    }
  }

  /** `findActiveEnrollmentsByStudentId`, as the ids of the rows. */
  function ActiveEnrollmentIdsOfStudent(db: Store, s: Id): (ids: set<Id>)
    reads db`enrollments, db.enrollments.Values`status
    ensures ids <= db.enrollments.Keys
    ensures forall k :: k in ids ==> ExistsActiveEnrollment(db, s, db.enrollments[k].courseId)
  {
    set k | k in db.enrollments && db.enrollments[k].studentId == s && db.enrollments[k].status == Active
  }

  /** The student's active rows name pairwise different courses, and every
      course the student is actively enrolled in is named by one of them. */
  lemma ActiveEnrollmentsOnePerCourse(db: Store, s: Id)
    requires db.UniquePairs()
    ensures forall k1, k2 ::
              (k1 in ActiveEnrollmentIdsOfStudent(db, s) && k2 in ActiveEnrollmentIdsOfStudent(db, s) &&
               db.enrollments[k1].courseId == db.enrollments[k2].courseId) ==> k1 == k2
    ensures forall c :: ExistsActiveEnrollment(db, s, c) ==>
              exists k :: k in ActiveEnrollmentIdsOfStudent(db, s) && db.enrollments[k].courseId == c
  {
  }

  /** The course ids of `findCompletedCoursesByStudentId`. */
  function CompletedCourseIds(db: Store, s: Id): set<Id>
    reads db`enrollments, db.enrollments.Values`status
  {
    set k | k in db.enrollments && db.enrollments[k].studentId == s && db.enrollments[k].status == Completed
      :: db.enrollments[k].courseId
  }

  /** A course is among the student's completed courses exactly when the
      pair's row is found and is COMPLETED. */
  lemma {:induction false} CompletedMeansFoundCompleted(db: Store, s: Id, c: Id)
    requires db.UniquePairs()
    ensures c in CompletedCourseIds(db, s) <==>
              (FindByStudentIdAndCourseId(db, s, c).Some? &&
               db.enrollments[FindByStudentIdAndCourseId(db, s, c).value].status == Completed)
  {
    if c in CompletedCourseIds(db, s) {
      var k :| k in db.enrollments && db.enrollments[k].studentId == s &&
        db.enrollments[k].status == Completed && db.enrollments[k].courseId == c;
      assert k in PairIds(db, s, c);
    }
  }

  /** `countActiveEnrollmentsByCourseId`. */
  function CountActiveEnrollmentsByCourseId(db: Store, c: Id): (n: nat)
    reads db`enrollments, db.enrollments.Values`status
    ensures n <= |db.enrollments|
    ensures n == 0 <==> forall k :: k in db.enrollments && db.enrollments[k].courseId == c ==>
                          db.enrollments[k].status != Active
  {
    var ids := set k | k in db.enrollments && db.enrollments[k].courseId == c && db.enrollments[k].status == Active;
    assert ids <= db.enrollments.Keys;
    SubsetCardinality(ids, db.enrollments.Keys);
    assert |db.enrollments.Keys| == |db.enrollments|;
    assert ids == {} <==> forall k :: k in db.enrollments && db.enrollments[k].courseId == c ==>
                            db.enrollments[k].status != Active by {
      if ids != {} {
        var k :| k in ids;
      }
      if exists k :: k in db.enrollments && db.enrollments[k].courseId == c && db.enrollments[k].status == Active {
        var k :| k in db.enrollments && db.enrollments[k].courseId == c && db.enrollments[k].status == Active;
        assert k in ids;
      }
    }
    |ids|
  }

  lemma {:induction false} SubsetCardinality(a: set<Id>, b: set<Id>)
    requires a <= b
    ensures |a| <= |b|
    decreases b
  {
    if b != {} {
      var x :| x in b;
      SubsetCardinality(a - {x}, b - {x});
    }
  }

  /** The bulk `updateEnrollmentStatus`: sets one row's status and reports how
      many rows it touched. */
  method UpdateEnrollmentStatus(db: Store, enrollmentId: Id, status: EnrollmentStatus) returns (rows: int)
    requires db.Valid()
    modifies db.enrollments.Values`status
    ensures rows == if enrollmentId in db.enrollments then 1 else 0
    ensures enrollmentId in db.enrollments ==> db.enrollments[enrollmentId].status == status
    ensures forall k :: k in db.enrollments && k != enrollmentId ==>
              db.enrollments[k].status == old(db.enrollments[k].status)
    ensures db.Valid()
  {
    if enrollmentId in db.enrollments {
      db.SetEnrollmentStatus(enrollmentId, status);
      rows := 1;
    } else {
      rows := 0;
    }
  }

  /** The bulk `deleteByStudentIdAndCourseId`: removes the pair's rows without
      cascading, so a grade that still references one of them makes the
      statement fail on the grade's foreign key. Seat counters are untouched. */
  method DeleteByStudentIdAndCourseId(db: Store, s: Id, c: Id) returns (r: Result<()>)
    requires db.Valid()
    modifies db`enrollments, db`grades
    ensures r.Err? <==> exists k :: k in old(PairIds(db, s, c)) && old(db.enrollments[k].grade) != null
    ensures r.Err? ==> r.error == ForeignKeyViolation && db.enrollments == old(db.enrollments)
    ensures r.Ok? ==> db.enrollments == old(db.enrollments) - old(PairIds(db, s, c))
    ensures db.grades == old(db.grades)
    ensures db.Valid()
  {
    var ids := PairIds(db, s, c);
    var graded := db.AttachedGradeIds(ids);
    if graded != {} {
      return Err(ForeignKeyViolation);
    }
    db.RemoveEnrollments(ids);
    r := Ok(());
  }
}
