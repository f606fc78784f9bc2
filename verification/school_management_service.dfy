/** `SchoolManagementServiceImpl`: the transactional workflows built on the
    enrollment and grade services. Each workflow runs in one transaction, so a
    workflow that throws keeps nothing of what it did; the model checks first
    and writes only when the whole workflow succeeds, and proves that the
    checks it makes up front are the ones the step-by-step run would make. */
module SchoolManagementService {
  import opened Common
  import opened CourseEntity
  import opened EnrollmentEntity
  import opened Database
  import opened EnrollmentRepository
  import EnrollmentService
  import GradeService

  /** The failures `enrollStudentInCourses` collects when it tries
      `courseIds` in order: one entry per refused course, in that order, with
      the reason of the first check that course fails. */
  function Failures(db: Store, s: Id, courseIds: seq<Id>): (fs: seq<CourseFailure>)
    reads db`students, db`courses, db`enrollments, db.enrollments.Values`status
    reads db.courses.Values`enrolledStudents, db.courses.Values`capacity, db.courses.Values`prerequisites
    ensures |fs| <= |courseIds|
    ensures forall i :: 0 <= i < |fs| ==>
              fs[i].courseId in courseIds && EnrollmentService.EnrollmentRefusal(db, s, fs[i].courseId) == Some(fs[i].reason)
    ensures forall c :: c in courseIds && EnrollmentService.EnrollmentRefusal(db, s, c).Some? ==>
              CourseFailure(c, EnrollmentService.EnrollmentRefusal(db, s, c).value) in fs
  {
    if courseIds == [] then []
    else
      assert courseIds == [courseIds[0]] + courseIds[1..];
      var rest := Failures(db, s, courseIds[1..]);
      match EnrollmentService.EnrollmentRefusal(db, s, courseIds[0])
      case Some(reason) => [CourseFailure(courseIds[0], reason)] + rest
      case None => rest
  }

  /** One pass of the loop of `enrollStudentInCourses` for a course whose
      checks pass: it is admitted, and every course still to come keeps
      passing its checks. */
  method EnrollChecked(db: Store, s: Id, courseIds: seq<Id>, i: nat, today: Day) returns (e: Enrollment)
    requires db.Valid() && i < |courseIds|
    requires forall k, j :: 0 <= k < j < |courseIds| ==> courseIds[k] != courseIds[j]
    requires forall c :: c in courseIds[i..] ==> EnrollmentService.EnrollmentRefusal(db, s, c).None?
    modifies db`enrollments, db`nextId, db.CourseFrame(courseIds[i])`enrolledStudents
    ensures db.Valid()
    ensures old(db.SeatsWithinCapacity()) ==> db.SeatsWithinCapacity()
    ensures fresh(e) && e.studentId == s && e.courseId == courseIds[i] && e.status == Active && e.enrollmentDate == today
    ensures e.id !in old(db.enrollments) && db.enrollments == old(db.enrollments)[e.id := e]
    ensures courseIds[i] in db.courses
    ensures forall k :: k in db.courses ==>
              db.courses[k].enrolledStudents == old(db.courses[k].enrolledStudents) + (if k == courseIds[i] then 1 else 0)
    ensures forall c :: c in courseIds[i + 1..] ==> EnrollmentService.EnrollmentRefusal(db, s, c).None?
  {
    EnrollmentService.RequestRest(courseIds, i);
    var attempt := EnrollmentService.EnrollStudent(db, s, courseIds[i], today);
    e := attempt.value;
  }

  /** The enrollments `es` are new rows (none was in `before`) of student `s`
      for the first `|es|` requested courses, in request order. */
  ghost predicate EnrolledRows(s: Id, courseIds: seq<Id>, before: map<Id, Enrollment>, es: seq<Enrollment>)
  {
    |es| <= |courseIds| &&
    forall j :: 0 <= j < |es| ==> es[j].id !in before && es[j].studentId == s && es[j].courseId == courseIds[j]
  }

  /** The next requested course is not among those already admitted, since
      the request names each course once. */
  lemma NextCourseIsNew(s: Id, courseIds: seq<Id>, before: map<Id, Enrollment>, es: seq<Enrollment>)
    requires EnrolledRows(s, courseIds, before, es) && |es| < |courseIds|
    requires forall i, j :: 0 <= i < j < |courseIds| ==> courseIds[i] != courseIds[j]
    ensures courseIds[|es|] !in EnrollmentService.CourseIdsOf(es)
  {
    forall j | 0 <= j < |es|
      ensures es[j].courseId != courseIds[|es|]
    {
      assert es[j].courseId == courseIds[j];
    }
  }

  lemma EnrolledRowsAppend(s: Id, courseIds: seq<Id>, before: map<Id, Enrollment>, es: seq<Enrollment>, e: Enrollment)
    requires EnrolledRows(s, courseIds, before, es) && |es| < |courseIds|
    requires e.id !in before && e.studentId == s && e.courseId == courseIds[|es|]
    ensures EnrolledRows(s, courseIds, before, es + [e])
  {
    forall j | 0 <= j < |es|
      ensures (es + [e])[j] == es[j]
    {
    }
  }

  /** A step that takes one seat in course `c`, not yet among the courses
      `done` counts, adds `c` to them. */
  twostate lemma CountersStep(new db: Store, new start: map<Id, int>, new done: set<Id>, new c: Id)
    requires old(allocated(db)) && db.courses == old(db.courses) && c !in done
    requires forall k :: k in old(db.courses) ==>
               k in start && old(db.courses[k].enrolledStudents) == start[k] + (if k in done then 1 else 0)
    requires forall k :: k in db.courses ==>
               db.courses[k].enrolledStudents == old(db.courses[k].enrolledStudents) + (if k == c then 1 else 0)
    ensures forall k :: k in db.courses ==>
              k in start && db.courses[k].enrolledStudents == start[k] + (if k in done + {c} then 1 else 0)
  {
  }

  /** One pass of the loop of `enrollStudentInCourses` once every course has
      passed its checks: the next course is admitted, its ACTIVE row, dated
      `today`, joins the table and its counter goes up by one. */
  method EnrollNext(db: Store, s: Id, courseIds: seq<Id>, today: Day, es: seq<Enrollment>,
                    ghost before: map<Id, Enrollment>, ghost start: map<Id, int>) returns (es': seq<Enrollment>)
    requires db.Valid() && |es| < |courseIds|
    requires forall i, j :: 0 <= i < j < |courseIds| ==> courseIds[i] != courseIds[j]
    requires EnrolledRows(s, courseIds, before, es) && db.enrollments == before + EnrollmentService.RowsOf(es)
    requires forall k :: k in db.courses ==>
               k in start && db.courses[k].enrolledStudents == start[k] + (if k in EnrollmentService.CourseIdsOf(es) then 1 else 0)
    requires forall c :: c in courseIds[|es|..] ==> EnrollmentService.EnrollmentRefusal(db, s, c).None?
    modifies db`enrollments, db`nextId, db.CourseFrame(courseIds[|es|])`enrolledStudents
    ensures db.Valid()
    ensures old(db.SeatsWithinCapacity()) ==> db.SeatsWithinCapacity()
    ensures |es'| == |es| + 1 && es' == es + [es'[|es|]]
    ensures es'[|es|].status == Active && es'[|es|].enrollmentDate == today
    ensures EnrolledRows(s, courseIds, before, es') && db.enrollments == before + EnrollmentService.RowsOf(es')
    ensures forall k :: k in db.courses ==>
              k in start && db.courses[k].enrolledStudents == start[k] + (if k in EnrollmentService.CourseIdsOf(es') then 1 else 0)
    ensures forall c :: c in courseIds[|es'|..] ==> EnrollmentService.EnrollmentRefusal(db, s, c).None?
  {
    var i := |es|;
    NextCourseIsNew(s, courseIds, before, es);
    var e := EnrollChecked(db, s, courseIds, i, today);
    EnrollmentService.CourseIdsOfAppend(es, e);
    EnrollmentService.RowsOfAppend(before, es, e);
    assert e.id !in before by {
      assert e.id !in old(db.enrollments);
    }
    EnrolledRowsAppend(s, courseIds, before, es, e);
    CountersStep(db, start, EnrollmentService.CourseIdsOf(es), courseIds[i]);
    es' := es + [e];
  }

  /** Every enrollment of `es` is ACTIVE and dated `today`. */
  ghost predicate AdmittedToday(es: seq<Enrollment>, today: Day)
    reads (set e | e in es)`status, (set e | e in es)`enrollmentDate
  {
    forall j :: 0 <= j < |es| ==> es[j].status == Active && es[j].enrollmentDate == today
  }

  lemma AdmittedTodayAppend(es: seq<Enrollment>, e: Enrollment, today: Day)
    requires AdmittedToday(es, today) && e.status == Active && e.enrollmentDate == today
    ensures AdmittedToday(es + [e], today)
  {
    forall j | 0 <= j < |es|
      ensures (es + [e])[j] == es[j]
    {
    }
  }

  /** Every requested course, which passed its checks before the first was
      admitted, is admitted in request order. */
  method AdmitAll(db: Store, s: Id, courseIds: seq<Id>, today: Day, ghost start: map<Id, int>) returns (es: seq<Enrollment>)
    requires db.Valid()
    requires forall k :: k in db.courses ==> k in start && db.courses[k].enrolledStudents == start[k]
    requires forall i, j :: 0 <= i < j < |courseIds| ==> courseIds[i] != courseIds[j]
    requires forall c :: c in courseIds ==> EnrollmentService.EnrollmentRefusal(db, s, c).None?
    modifies db`enrollments, db`nextId, db.courses.Values`enrolledStudents
    ensures db.Valid()
    ensures old(db.SeatsWithinCapacity()) ==> db.SeatsWithinCapacity()
    ensures |es| == |courseIds| && EnrolledRows(s, courseIds, old(db.enrollments), es)
    ensures db.enrollments == old(db.enrollments) + EnrollmentService.RowsOf(es) && AdmittedToday(es, today)
    ensures forall k :: k in db.courses ==>
              k in start && db.courses[k].enrolledStudents == start[k] + (if k in courseIds then 1 else 0)
  {
    ghost var before := db.enrollments;
    es := [];
    while |es| < |courseIds|
      invariant db.Valid()
      invariant old(db.SeatsWithinCapacity()) ==> db.SeatsWithinCapacity()
      invariant EnrolledRows(s, courseIds, before, es) && db.enrollments == before + EnrollmentService.RowsOf(es)
      invariant forall k :: k in db.courses ==>
                  k in start && db.courses[k].enrolledStudents == start[k] + (if k in EnrollmentService.CourseIdsOf(es) then 1 else 0)
      invariant forall c :: c in courseIds[|es|..] ==> EnrollmentService.EnrollmentRefusal(db, s, c).None?
      invariant AdmittedToday(es, today)
      decreases |courseIds| - |es|
    {
      ghost var done := es;
      es := EnrollNext(db, s, courseIds, today, es, before, start);
      AdmittedTodayAppend(done, es[|done|], today);
    }
    AllRequestedAdmitted(s, courseIds, before, es);
  }

  /** Once a row exists for every requested course, the courses admitted are
      exactly the courses requested. */
  lemma AllRequestedAdmitted(s: Id, courseIds: seq<Id>, before: map<Id, Enrollment>, es: seq<Enrollment>)
    requires EnrolledRows(s, courseIds, before, es) && |es| == |courseIds|
    ensures forall k :: k in courseIds <==> k in EnrollmentService.CourseIdsOf(es)
  {
    forall k | k in courseIds
      ensures k in EnrollmentService.CourseIdsOf(es)
    {
      var j :| 0 <= j < |courseIds| && courseIds[j] == k;
      assert es[j].courseId == k;
    }
  }

  /** `enrollStudentInCourses`: tries every course of the request in turn,
      collecting a failure for each refused course. If any course failed the
      transaction is rolled back and the call fails naming every failure;
      otherwise the student holds a new ACTIVE enrollment in every course.
      The request's course ids form a set, so no id repeats. */
  method EnrollStudentInCourses(db: Store, s: Id, courseIds: seq<Id>, today: Day) returns (r: Result<seq<Enrollment>>)
    requires db.Valid()
    requires forall i, j :: 0 <= i < j < |courseIds| ==> courseIds[i] != courseIds[j]
    modifies db`enrollments, db`nextId, db.courses.Values`enrolledStudents
    ensures db.Valid()
    ensures old(db.SeatsWithinCapacity()) ==> db.SeatsWithinCapacity()
    ensures r.Err? <==> old(Failures(db, s, courseIds)) != []
    ensures r.Err? ==> r.error == EnrollmentsFailed(old(Failures(db, s, courseIds)))
    ensures r.Err? ==> db.enrollments == old(db.enrollments) && db.nextId == old(db.nextId)
    ensures r.Ok? ==> |r.value| == |courseIds| && db.enrollments == old(db.enrollments) + EnrollmentService.RowsOf(r.value)
    ensures r.Ok? ==> forall i :: 0 <= i < |courseIds| ==>
              r.value[i].id !in old(db.enrollments) &&
              r.value[i].studentId == s && r.value[i].courseId == courseIds[i] &&
              r.value[i].status == Active && r.value[i].enrollmentDate == today
    ensures forall k :: k in db.courses ==>
              db.courses[k].enrolledStudents ==
                old(db.courses[k].enrolledStudents) + (if r.Ok? && k in courseIds then 1 else 0)
  {
    var failures := Failures(db, s, courseIds);
    if failures != [] {
      return Err(EnrollmentsFailed(failures));
    }
    ghost var start := map k | k in db.courses :: db.courses[k].enrolledStudents;
    var es := AdmitAll(db, s, courseIds, today, start);
    r := Ok(es);
  }

  /** `recordGradeAndUpdateEnrollment`: records the grade; when the request
      marks the course completed and the grade's enrollment is still ACTIVE,
      the enrollment is set COMPLETED. `recordGrade` has already set it
      COMPLETED in that case, so the second write never happens. */
  method RecordGradeAndUpdateEnrollment(db: Store, request: GradeService.GradeRequest, today: Day)
    returns (r: Result<Grade>)
    requires db.Valid()
    modifies db`grades, db`nextId, db.EnrollmentFrame(request.enrollmentId)`grade
    modifies db.EnrollmentFrame(request.enrollmentId)`status
    ensures db.Valid()
    ensures old(db.SeatsWithinCapacity()) ==> db.SeatsWithinCapacity()
    ensures r.Err? <==> old(GradeService.RecordRefusal(db, request)).Some?
    ensures r.Err? ==> r.error == old(GradeService.RecordRefusal(db, request)).value
    ensures r.Err? ==> db.grades == old(db.grades) && unchanged(db.EnrollmentFrame(request.enrollmentId))
    ensures r.Ok? ==> r.value.enrollment == db.enrollments[request.enrollmentId] &&
                      db.grades == old(db.grades)[r.value.id := r.value]
    ensures r.Ok? ==> r.value.enrollment.status == (if request.markAsCompleted then Completed else Active)
    ensures r.Ok? ==> GradeService.IsCourseCompleted(db, request.enrollmentId) == Ok(request.markAsCompleted)
  {
    r := GradeService.RecordGrade(db, request, today);
    if r.Ok? && request.markAsCompleted {
      assert r.value.enrollment != null && !r.value.enrollment.IsActive();
    }
  }

  /** `dropStudentFromCourse`: the enrollment service's drop, in a transaction
      of its own. */
  method DropStudentFromCourse(db: Store, s: Id, c: Id) returns (r: Result<()>)
    requires db.Valid()
    modifies db`enrollments, db`grades, db.CourseFrame(c)`enrolledStudents
    ensures db.Valid()
    ensures old(db.SeatsWithinCapacity()) ==> db.SeatsWithinCapacity()
    ensures r.Err? <==> old(PairIds(db, s, c)) == {}
    ensures r.Err? ==> r.error == NotFound && db.enrollments == old(db.enrollments) && db.grades == old(db.grades)
    ensures r.Ok? ==> db.enrollments == old(db.enrollments) - old(PairIds(db, s, c))
    ensures r.Ok? ==> db.grades == old(db.grades) - old(db.AttachedGradeIds(PairIds(db, s, c)))
    ensures r.Ok? ==>
              db.courses[c].enrolledStudents ==
                if old(ExistsActiveEnrollment(db, s, c))
                then Released(old(db.courses[c].enrolledStudents))
                else old(db.courses[c].enrolledStudents)
  {
    r := EnrollmentService.DropStudentFromCourse(db, s, c);
  }

  /** Why `updateCourseCapacity` refuses, in its order: a capacity below one
      before the course is even looked up, then a missing course, then a
      capacity below the seats already taken. */
  function CapacityRefusal(db: Store, c: Id, capacity: int): (refusal: Option<Error>)
    reads db`courses, db.courses.Values`enrolledStudents
    ensures refusal.None? <==> MinCapacity <= capacity && c in db.courses && db.courses[c].enrolledStudents <= capacity
    ensures refusal == Some(IllegalArgument) <==> capacity < MinCapacity
    ensures refusal == Some(NotFound) <==> MinCapacity <= capacity && c !in db.courses
    ensures refusal == Some(CapacityExceeded) <==>
              MinCapacity <= capacity && c in db.courses && capacity < db.courses[c].enrolledStudents
  {
    if capacity < 1 then Some(IllegalArgument)
    else if c !in db.courses then Some(NotFound)
    else if capacity < db.courses[c].enrolledStudents then Some(CapacityExceeded)
    else None
  }

  /** `updateCourseCapacity`: sets a course's capacity, refusing to go below
      one seat or below the seats already taken, so the seat bound of every
      course survives the change. */
  method UpdateCourseCapacity(db: Store, c: Id, capacity: int) returns (r: Result<Course>)
    requires db.Valid()
    modifies db.CourseFrame(c)`capacity
    ensures db.Valid()
    ensures old(db.SeatsWithinCapacity()) ==> db.SeatsWithinCapacity()
    ensures r.Err? <==> old(CapacityRefusal(db, c, capacity)).Some?
    ensures r.Err? ==> r.error == old(CapacityRefusal(db, c, capacity)).value
    ensures r.Ok? ==> c in db.courses && r.value == db.courses[c] && r.value.capacity == capacity
  {
    if capacity < 1 {
      return Err(IllegalArgument);
    }
    if c !in db.courses {
      return Err(NotFound);
    }
    var course := db.courses[c];
    if capacity < course.enrolledStudents {
      return Err(CapacityExceeded);
    }
    db.SetCapacity(c, capacity);
    r := Ok(course);
  }

  /** The courses of the rows `ids` of `rows`. */
  ghost function CoursesOfRows(rows: map<Id, Enrollment>, ids: set<Id>): set<Id>
    requires ids <= rows.Keys
  {
    set k | k in ids :: rows[k].courseId
  }

  /** The withdrawal columns of an enrollment. */
  datatype WithdrawalState = WithdrawalState(status: EnrollmentStatus, reason: Option<string>, date: Option<Day>)

  function WithdrawalOf(e: Enrollment): WithdrawalState
    reads e`status, e`withdrawalReason, e`withdrawalDate
  {
    WithdrawalState(e.status, e.withdrawalReason, e.withdrawalDate)
  }

  /** The rows `ids` outside `todo` are withdrawn; every other row is as it was
      (`before`). */
  ghost predicate RowsWithdrawn(rows: map<Id, Enrollment>, ids: set<Id>, todo: set<Id>,
                                before: map<Id, WithdrawalState>, reason: Option<string>, today: Day)
    reads rows.Values`status, rows.Values`withdrawalReason, rows.Values`withdrawalDate
  {
    forall k :: k in rows ==>
      k in before &&
      WithdrawalOf(rows[k]) == if k in ids && k !in todo then WithdrawalState(Withdrawn, reason, Some(today)) else before[k]
  }

  /** The counter of every course of a row of `ids` outside `todo` has
      released a seat; every other counter is as it was (`start`). */
  ghost predicate SeatsReleased(db: Store, rows: map<Id, Enrollment>, ids: set<Id>, todo: set<Id>, start: map<Id, int>)
    reads db`courses, db.courses.Values`enrolledStudents
    requires ids <= rows.Keys && todo <= ids
  {
    forall c :: c in db.courses ==>
      c in start &&
      db.courses[c].enrolledStudents == if c in CoursesOfRows(rows, ids - todo) then Released(start[c]) else start[c]
  }

  /** Withdrawing one more of the rows `ids`, which name pairwise different
      courses, adds its course, not yet among those already withdrawn from. */
  lemma CoursesOfRowsStep(rows: map<Id, Enrollment>, ids: set<Id>, todo: set<Id>, k: Id)
    requires k in todo && todo <= ids && ids <= rows.Keys
    requires forall k1, k2 :: k1 in ids && k2 in ids && rows[k1].courseId == rows[k2].courseId ==> k1 == k2
    ensures CoursesOfRows(rows, ids - (todo - {k})) == CoursesOfRows(rows, ids - todo) + {rows[k].courseId}
    ensures rows[k].courseId !in CoursesOfRows(rows, ids - todo)
  {
    assert ids - (todo - {k}) == (ids - todo) + {k};
  }

  /** The status, reason and date writes of one pass of the loop of
      `processStudentWithdrawal`. */
  method WithdrawRow(db: Store, k: Id, reason: Option<string>, today: Day, ghost rows: map<Id, Enrollment>,
                     ghost ids: set<Id>, ghost todo: set<Id>, ghost before: map<Id, WithdrawalState>)
    requires db.Valid() && db.enrollments == rows && k in todo && todo <= ids && ids <= rows.Keys
    requires RowsWithdrawn(rows, ids, todo, before, reason, today)
    modifies {rows[k]}`status, {rows[k]}`withdrawalReason, {rows[k]}`withdrawalDate
    ensures db.Valid()
    ensures old(db.SeatsWithinCapacity()) ==> db.SeatsWithinCapacity()
    ensures RowsWithdrawn(rows, ids, todo - {k}, before, reason, today)
  {
    db.WithdrawEnrollment(k, reason, today);
  }

  /** The seat release of one pass of the loop of `processStudentWithdrawal`. */
  method ReleaseRowSeat(db: Store, k: Id, ghost rows: map<Id, Enrollment>, ghost ids: set<Id>, ghost todo: set<Id>,
                        ghost start: map<Id, int>)
    requires db.Valid() && db.enrollments == rows && k in todo && todo <= ids && ids <= rows.Keys
    requires forall k1, k2 :: k1 in ids && k2 in ids && rows[k1].courseId == rows[k2].courseId ==> k1 == k2
    requires SeatsReleased(db, rows, ids, todo, start)
    modifies db.CourseFrame(rows[k].courseId)`enrolledStudents
    ensures db.Valid()
    ensures old(db.SeatsWithinCapacity()) ==> db.SeatsWithinCapacity()
    ensures SeatsReleased(db, rows, ids, todo - {k}, start)
  {
    db.ReleaseSeat(db.enrollments[k].courseId);
    CoursesOfRowsStep(rows, ids, todo, k);
  }

  /** One pass of the loop of `processStudentWithdrawal`. */
  method WithdrawNext(db: Store, k: Id, reason: Option<string>, today: Day, ghost rows: map<Id, Enrollment>,
                      ghost ids: set<Id>, ghost todo: set<Id>, ghost before: map<Id, WithdrawalState>,
                      ghost start: map<Id, int>)
    requires db.Valid() && db.enrollments == rows && k in todo && todo <= ids && ids <= rows.Keys
    requires forall k1, k2 :: k1 in ids && k2 in ids && rows[k1].courseId == rows[k2].courseId ==> k1 == k2
    requires RowsWithdrawn(rows, ids, todo, before, reason, today)
    requires SeatsReleased(db, rows, ids, todo, start)
    modifies {rows[k]}`status, {rows[k]}`withdrawalReason, {rows[k]}`withdrawalDate
    modifies db.CourseFrame(rows[k].courseId)`enrolledStudents
    ensures db.Valid() && db.enrollments == rows
    ensures old(db.SeatsWithinCapacity()) ==> db.SeatsWithinCapacity()
    ensures RowsWithdrawn(rows, ids, todo - {k}, before, reason, today)
    ensures SeatsReleased(db, rows, ids, todo - {k}, start)
  {
    WithdrawRow(db, k, reason, today, rows, ids, todo, before);
    ReleaseRowSeat(db, k, rows, ids, todo, start);
  }

  /** The loop of `processStudentWithdrawal`, over the rows `ids` that were
      the student's ACTIVE enrollments. */
  method WithdrawAll(db: Store, ids: set<Id>, reason: Option<string>, today: Day, ghost rows: map<Id, Enrollment>,
                     ghost before: map<Id, WithdrawalState>, ghost start: map<Id, int>)
    requires db.Valid() && db.enrollments == rows && ids <= rows.Keys
    requires forall k1, k2 :: k1 in ids && k2 in ids && rows[k1].courseId == rows[k2].courseId ==> k1 == k2
    requires RowsWithdrawn(rows, ids, ids, before, reason, today)
    requires SeatsReleased(db, rows, ids, ids, start)
    modifies rows.Values`status, rows.Values`withdrawalReason, rows.Values`withdrawalDate
    modifies db.courses.Values`enrolledStudents
    ensures db.Valid() && db.enrollments == rows
    ensures old(db.SeatsWithinCapacity()) ==> db.SeatsWithinCapacity()
    ensures RowsWithdrawn(rows, ids, {}, before, reason, today)
    ensures SeatsReleased(db, rows, ids, {}, start)
  {
    var todo := ids;
    while todo != {}
      invariant todo <= ids
      invariant db.Valid() && db.enrollments == rows
      invariant old(db.SeatsWithinCapacity()) ==> db.SeatsWithinCapacity()
      invariant RowsWithdrawn(rows, ids, todo, before, reason, today)
      invariant SeatsReleased(db, rows, ids, todo, start)
      decreases todo
    {
      var k :| k in todo;
      WithdrawNext(db, k, reason, today, rows, ids, todo, before, start);
      todo := todo - {k};
    }
  }

  /** Before the loop of `processStudentWithdrawal` no row is withdrawn yet:
      the snapshot of the withdrawal columns. */
  lemma RowsAtStart(rows: map<Id, Enrollment>, ids: set<Id>, reason: Option<string>, today: Day)
    returns (before: map<Id, WithdrawalState>)
    ensures forall k :: k in rows ==> k in before && before[k] == WithdrawalOf(rows[k])
    ensures RowsWithdrawn(rows, ids, ids, before, reason, today)
  {
    before := map k | k in rows :: WithdrawalOf(rows[k]);
  }

  /** Before the loop of `processStudentWithdrawal` no seat is released yet:
      the snapshot of the counters. */
  lemma SeatsAtStart(db: Store, rows: map<Id, Enrollment>, ids: set<Id>) returns (start: map<Id, int>)
    requires ids <= rows.Keys
    ensures forall c :: c in db.courses ==> c in start && start[c] == db.courses[c].enrolledStudents
    ensures SeatsReleased(db, rows, ids, ids, start)
  {
    start := map c | c in db.courses :: db.courses[c].enrolledStudents;
    assert ids - ids == {};
  }

  /** What the finished loop of `processStudentWithdrawal` means for the
      student's enrollments and the seat counters. */
  twostate lemma WithdrawalComplete(new db: Store, new s: Id, new reason: Option<string>, new today: Day,
                                    new rows: map<Id, Enrollment>, new before: map<Id, WithdrawalState>,
                                    new start: map<Id, int>)
    requires old(allocated(db)) && old(db.UniquePairs())
    requires rows == old(db.enrollments) && db.enrollments == rows && db.courses == old(db.courses)
    requires forall k :: k in rows ==> k in before && before[k] == old(WithdrawalOf(rows[k]))
    requires forall c :: c in db.courses ==> c in start && start[c] == old(db.courses[c].enrolledStudents)
    requires RowsWithdrawn(rows, old(ActiveEnrollmentIdsOfStudent(db, s)), {}, before, reason, today)
    requires SeatsReleased(db, rows, old(ActiveEnrollmentIdsOfStudent(db, s)), {}, start)
    ensures ActiveEnrollmentIdsOfStudent(db, s) == {}
    ensures forall k :: k in old(ActiveEnrollmentIdsOfStudent(db, s)) ==>
              db.enrollments[k].status == Withdrawn && db.enrollments[k].withdrawalReason == reason &&
              db.enrollments[k].withdrawalDate == Some(today)
    ensures forall k :: k in db.enrollments && k !in old(ActiveEnrollmentIdsOfStudent(db, s)) ==>
              db.enrollments[k].status == old(db.enrollments[k].status) &&
              db.enrollments[k].withdrawalReason == old(db.enrollments[k].withdrawalReason) &&
              db.enrollments[k].withdrawalDate == old(db.enrollments[k].withdrawalDate)
    ensures forall c :: c in db.courses ==>
              db.courses[c].enrolledStudents ==
                if old(ExistsActiveEnrollment(db, s, c)) then Released(old(db.courses[c].enrolledStudents))
                else old(db.courses[c].enrolledStudents)
  {
    ghost var ids := old(ActiveEnrollmentIdsOfStudent(db, s));
    assert ids - {} == ids;
    forall c | c in db.courses
      ensures c in CoursesOfRows(rows, ids) <==> old(ExistsActiveEnrollment(db, s, c))
    {
      if old(ExistsActiveEnrollment(db, s, c)) {
        var k :| k in old(db.enrollments) && old(db.enrollments[k].studentId) == s &&
          old(db.enrollments[k].courseId) == c && old(db.enrollments[k].status) == Active;
        assert k in ids;
      }
    }
  }

  /** `processStudentWithdrawal`: every ACTIVE enrollment of the student becomes
      WITHDRAWN with the reason and today's date, and its course releases the
      seat. The student is not looked up: an unknown student has no active
      enrollment, and nothing changes. */
  method ProcessStudentWithdrawal(db: Store, s: Id, reason: Option<string>, today: Day)
    requires db.Valid()
    modifies db.enrollments.Values`status, db.enrollments.Values`withdrawalReason, db.enrollments.Values`withdrawalDate
    modifies db.courses.Values`enrolledStudents
    ensures db.Valid()
    ensures old(db.SeatsWithinCapacity()) ==> db.SeatsWithinCapacity()
    ensures ActiveEnrollmentIdsOfStudent(db, s) == {}
    ensures forall k :: k in old(ActiveEnrollmentIdsOfStudent(db, s)) ==>
              db.enrollments[k].status == Withdrawn && db.enrollments[k].withdrawalReason == reason &&
              db.enrollments[k].withdrawalDate == Some(today)
    ensures forall k :: k in db.enrollments && k !in old(ActiveEnrollmentIdsOfStudent(db, s)) ==>
              db.enrollments[k].status == old(db.enrollments[k].status) &&
              db.enrollments[k].withdrawalReason == old(db.enrollments[k].withdrawalReason) &&
              db.enrollments[k].withdrawalDate == old(db.enrollments[k].withdrawalDate)
    ensures forall c :: c in db.courses ==>
              db.courses[c].enrolledStudents ==
                if old(ExistsActiveEnrollment(db, s, c)) then Released(old(db.courses[c].enrolledStudents))
                else old(db.courses[c].enrolledStudents)
  {
    ghost var rows := db.enrollments;
    var ids := ActiveEnrollmentIdsOfStudent(db, s);
    ghost var before := RowsAtStart(rows, ids, reason, today);
    ghost var start := SeatsAtStart(db, rows, ids);
    ActiveEnrollmentsOnePerCourse(db, s);
    WithdrawAll(db, ids, reason, today, rows, before, start);
    WithdrawalComplete(db, s, reason, today, rows, before, start);
  }

  /** The seats taken in course `c` once the student's row for course `from`
      is dropped: an ACTIVE row of the pair gives its seat back. */
  function SeatsAfterDrop(db: Store, s: Id, from: Id, c: Id): int
    reads db`courses, db`enrollments, db.enrollments.Values`status, db.courses.Values`enrolledStudents
    requires c in db.courses
  {
    if c == from && ExistsActiveEnrollment(db, s, from) then Released(db.courses[c].enrolledStudents)
    else db.courses[c].enrolledStudents
  }

  /** The first check the enrollment in course `to` fails once the student's
      row for course `from` is gone, in the order of `enrollStudentInCourses`;
      only the rows of the pair (student, `from`) and the seat they held
      differ from the current state. */
  function RefusalAfterDrop(db: Store, s: Id, from: Id, to: Id): (r: Option<Error>)
    reads db`students, db`courses, db`enrollments, db.enrollments.Values`status
    reads db.courses.Values`enrolledStudents, db.courses.Values`capacity, db.courses.Values`prerequisites
    ensures r.None? ==> s in db.students && to in db.courses && SeatsAfterDrop(db, s, from, to) < db.courses[to].capacity
    ensures r.None? ==> from !in db.courses[to].prerequisites
  {
    if s !in db.students then Some(NotFound)
    else if to !in db.courses then Some(NotFound)
    else if to != from && ExistsActiveEnrollment(db, s, to) then Some(AlreadyExists)
    else if SeatsAfterDrop(db, s, from, to) >= db.courses[to].capacity then Some(CapacityExceeded)
    else if !(db.courses[to].prerequisites <= CompletedCourseIds(db, s) - {from}) then Some(PrerequisiteNotMet)
    else if to != from && PairIds(db, s, to) != {} then Some(DuplicateEnrollment)
    else None
  }

  /** Dropping a course that the target course neither is nor requires
      changes none of the target's checks. */
  lemma RefusalAfterDropElsewhere(db: Store, s: Id, from: Id, to: Id)
    requires to != from && (to in db.courses ==> from !in db.courses[to].prerequisites)
    ensures RefusalAfterDrop(db, s, from, to) == EnrollmentService.EnrollmentRefusal(db, s, to)
  {
    if s in db.students && to in db.courses {
      assert db.courses[to].prerequisites <= CompletedCourseIds(db, s) - {from} <==>
             db.courses[to].prerequisites <= CompletedCourseIds(db, s);
    }
  }

  /** A transfer out of a course into one that requires it never passes: the
      dropped row no longer counts as completed. */
  lemma TransferOutOfPrerequisiteFails(db: Store, s: Id, from: Id, to: Id)
    requires to in db.courses && from in db.courses[to].prerequisites
    ensures RefusalAfterDrop(db, s, from, to).Some?
    ensures s in db.students && (to == from || !ExistsActiveEnrollment(db, s, to)) &&
            SeatsAfterDrop(db, s, from, to) < db.courses[to].capacity ==>
              RefusalAfterDrop(db, s, from, to) == Some(PrerequisiteNotMet)
  {
  }

  /** After the drop of the pair (student, `from`), the checks of the
      enrollment in `to` give what `RefusalAfterDrop` computed beforehand. */
  twostate lemma DropDecidesRefusal(new db: Store, new s: Id, new from: Id, new to: Id)
    requires old(allocated(db)) && old(db.Valid())
    requires db.students == old(db.students) && db.courses == old(db.courses)
    requires db.enrollments == old(db.enrollments) - old(PairIds(db, s, from))
    requires forall k :: k in db.enrollments ==> db.enrollments[k].status == old(db.enrollments[k].status)
    requires forall k :: k in db.courses ==>
               db.courses[k].capacity == old(db.courses[k].capacity) &&
               db.courses[k].prerequisites == old(db.courses[k].prerequisites)
    requires forall k :: k in db.courses && k != from ==>
               db.courses[k].enrolledStudents == old(db.courses[k].enrolledStudents)
    requires from in db.courses ==> db.courses[from].enrolledStudents == old(SeatsAfterDrop(db, s, from, from))
    ensures EnrollmentService.EnrollmentRefusal(db, s, to) == old(RefusalAfterDrop(db, s, from, to))
  {
    assert CompletedCourseIds(db, s) == old(CompletedCourseIds(db, s)) - {from} by {
      forall c | c in old(CompletedCourseIds(db, s)) - {from}
        ensures c in CompletedCourseIds(db, s)
      {
        var k :| k in old(db.enrollments) && old(db.enrollments[k].studentId) == s &&
          old(db.enrollments[k].status) == Completed && old(db.enrollments[k].courseId) == c;
        assert k !in old(PairIds(db, s, from));
      }
    }
    assert ExistsActiveEnrollment(db, s, to) == (to != from && old(ExistsActiveEnrollment(db, s, to))) by {
      if old(ExistsActiveEnrollment(db, s, to)) && to != from {
        var k :| k in old(db.enrollments) && old(db.enrollments[k].studentId) == s &&
          old(db.enrollments[k].courseId) == to && old(db.enrollments[k].status) == Active;
        assert k in db.enrollments;
      }
    }
    assert PairIds(db, s, to) == (if to == from then {} else old(PairIds(db, s, to)));
  }

  /** `dropStudentFromCourse` for a pair that exists, with what it leaves
      untouched spelled out. */
  method DropPair(db: Store, s: Id, from: Id)
    requires db.Valid() && PairIds(db, s, from) != {}
    modifies db`enrollments, db`grades, db.CourseFrame(from)`enrolledStudents
    ensures db.Valid()
    ensures old(db.SeatsWithinCapacity()) ==> db.SeatsWithinCapacity()
    ensures db.students == old(db.students) && db.courses == old(db.courses)
    ensures db.enrollments == old(db.enrollments) - old(PairIds(db, s, from))
    ensures db.grades == old(db.grades) - old(db.AttachedGradeIds(PairIds(db, s, from)))
    ensures forall k :: k in db.enrollments ==> db.enrollments[k].status == old(db.enrollments[k].status)
    ensures forall k :: k in db.courses ==>
              db.courses[k].capacity == old(db.courses[k].capacity) &&
              db.courses[k].prerequisites == old(db.courses[k].prerequisites)
    ensures forall k :: k in db.courses ==>
              db.courses[k].enrolledStudents ==
                old(if k == from then SeatsAfterDrop(db, s, from, k) else db.courses[k].enrolledStudents)
  {
    var dropped := EnrollmentService.DropStudentFromCourse(db, s, from);
  }

  /** The drop half of `transferStudentCourse`, once the enrollment half is
      known to pass its checks afterwards. */
  method DropForTransfer(db: Store, s: Id, from: Id, to: Id)
    requires db.Valid() && PairIds(db, s, from) != {} && RefusalAfterDrop(db, s, from, to).None?
    modifies db`enrollments, db`grades, db.CourseFrame(from)`enrolledStudents
    ensures db.Valid()
    ensures old(db.SeatsWithinCapacity()) ==> db.SeatsWithinCapacity()
    ensures db.enrollments == old(db.enrollments) - old(PairIds(db, s, from))
    ensures db.grades == old(db.grades) - old(db.AttachedGradeIds(PairIds(db, s, from)))
    ensures db.courses == old(db.courses)
    ensures forall k :: k in db.courses ==>
              db.courses[k].enrolledStudents ==
                old(if k == from then SeatsAfterDrop(db, s, from, k) else db.courses[k].enrolledStudents)
    ensures EnrollmentService.EnrollmentRefusal(db, s, to).None?
  {
    DropPair(db, s, from);
    DropDecidesRefusal(db, s, from, to);
  }

  /** A request naming one course that passes its checks fails nowhere. */
  lemma OnlyCourseFailures(db: Store, s: Id, c: Id)
    requires EnrollmentService.EnrollmentRefusal(db, s, c).None?
    ensures Failures(db, s, [c]) == []
  {
  }

  /** `enrollStudentInCourses` for the single course of a transfer, which
      passes its checks. */
  method EnrollInOne(db: Store, s: Id, to: Id, today: Day) returns (e: Enrollment)
    requires db.Valid() && EnrollmentService.EnrollmentRefusal(db, s, to).None?
    modifies db`enrollments, db`nextId, db.courses.Values`enrolledStudents
    ensures db.Valid()
    ensures old(db.SeatsWithinCapacity()) ==> db.SeatsWithinCapacity()
    ensures e.id !in old(db.enrollments) && db.enrollments == old(db.enrollments)[e.id := e]
    ensures e.studentId == s && e.courseId == to && e.status == Active && e.enrollmentDate == today
    ensures db.courses == old(db.courses)
    ensures forall k :: k in db.courses ==>
              db.courses[k].enrolledStudents == old(db.courses[k].enrolledStudents) + (if k == to then 1 else 0)
  {
    OnlyCourseFailures(db, s, to);
    var enrolled := EnrollStudentInCourses(db, s, [to], today);
    e := enrolled.value[0];
    assert enrolled.value == [e];
    EnrollmentService.RowsOfOne(old(db.enrollments), e);
  }

  /** The two steps of a transfer that passed its checks: the drop from
      `from`, then the enrollment in `to`. */
  method DropAndEnroll(db: Store, s: Id, from: Id, to: Id, today: Day) returns (e: Enrollment)
    requires db.Valid() && PairIds(db, s, from) != {} && RefusalAfterDrop(db, s, from, to).None?
    modifies db`enrollments, db`grades, db`nextId, db.courses.Values`enrolledStudents
    ensures db.Valid()
    ensures old(db.SeatsWithinCapacity()) ==> db.SeatsWithinCapacity()
    ensures db.enrollments == (old(db.enrollments) - old(PairIds(db, s, from)))[e.id := e]
    ensures e.studentId == s && e.courseId == to && e.status == Active && e.enrollmentDate == today
    ensures db.grades == old(db.grades) - old(db.AttachedGradeIds(PairIds(db, s, from)))
    ensures db.courses == old(db.courses)
    ensures forall k :: k in db.courses ==>
              db.courses[k].enrolledStudents ==
                old(if k == from then SeatsAfterDrop(db, s, from, k) else db.courses[k].enrolledStudents) +
                (if k == to then 1 else 0)
  {
    DropForTransfer(db, s, from, to);
    e := EnrollInOne(db, s, to, today);
  }

  /** `transferStudentCourse`: drops the student's row for course `from`, then
      enrolls the student in course `to` through `enrollStudentInCourses`.
      Both run in one transaction: a failing enrollment undoes the drop. */
  method TransferStudentCourse(db: Store, s: Id, from: Id, to: Id, today: Day) returns (r: Result<Enrollment>)
    requires db.Valid()
    modifies db`enrollments, db`grades, db`nextId, db.courses.Values`enrolledStudents
    ensures db.Valid()
    ensures old(db.SeatsWithinCapacity()) ==> db.SeatsWithinCapacity()
    ensures r.Err? <==> old(PairIds(db, s, from)) == {} || old(RefusalAfterDrop(db, s, from, to)).Some?
    ensures old(PairIds(db, s, from)) == {} ==> r == Err(NotFound)
    ensures old(PairIds(db, s, from)) != {} && old(RefusalAfterDrop(db, s, from, to)).Some? ==>
              r == Err(EnrollmentsFailed([CourseFailure(to, old(RefusalAfterDrop(db, s, from, to)).value)]))
    ensures r.Err? ==> db.enrollments == old(db.enrollments) && db.grades == old(db.grades) && db.nextId == old(db.nextId)
    ensures r.Ok? ==> db.enrollments == (old(db.enrollments) - old(PairIds(db, s, from)))[r.value.id := r.value]
    ensures r.Ok? ==> r.value.studentId == s && r.value.courseId == to &&
                      r.value.status == Active && r.value.enrollmentDate == today
    ensures r.Ok? ==> db.grades == old(db.grades) - old(db.AttachedGradeIds(PairIds(db, s, from)))
    ensures db.courses == old(db.courses)
    ensures forall k :: k in db.courses ==>
              db.courses[k].enrolledStudents ==
                if r.Err? then old(db.courses[k].enrolledStudents)
                else old(if k == from then SeatsAfterDrop(db, s, from, k) else db.courses[k].enrolledStudents) +
                     (if k == to then 1 else 0)
  {
    var found := FindByStudentIdAndCourseId(db, s, from);
    if found.None? {
      return Err(NotFound);
    }
    var refusal := RefusalAfterDrop(db, s, from, to);
    if refusal.Some? {
      return Err(EnrollmentsFailed([CourseFailure(to, refusal.value)]));
    }
    var e := DropAndEnroll(db, s, from, to, today);
    r := Ok(e);
  }
}
