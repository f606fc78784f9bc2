/** `EnrollmentServiceImpl`: admitting a student to a course behind an ordered
    chain of checks, the prerequisite rule, status changes and drops. Each call
    is one atomic step: a call that fails leaves the store as it was. */
module EnrollmentService {
  import opened Common
  import opened CourseEntity
  import opened EnrollmentEntity
  import opened Database
  import opened EnrollmentRepository

  /** `hasStudentCompletedPrerequisites`: every direct prerequisite of the
      course is a course the student has a COMPLETED enrollment in. */
  function HasStudentCompletedPrerequisites(db: Store, s: Id, c: Id): (r: Result<bool>)
    reads db`courses, db`enrollments, db.courses.Values`prerequisites, db.enrollments.Values`status
    ensures r.Err? <==> c !in db.courses
    ensures r.Err? ==> r.error == NotFound
    ensures r == Ok(true) <==>
              c in db.courses &&
              forall p :: p in db.courses[c].prerequisites ==>
                exists k :: k in db.enrollments && db.enrollments[k].studentId == s &&
                  db.enrollments[k].courseId == p && db.enrollments[k].status == Completed
  {
    if c !in db.courses then Err(NotFound)
    else if db.courses[c].prerequisites == {} then Ok(true)
    else Ok(db.courses[c].prerequisites <= CompletedCourseIds(db, s))
  }

  /** `isCourseFull`. */
  function IsCourseFull(db: Store, c: Id): (r: Result<bool>)
    reads db`courses, db.courses.Values`enrolledStudents, db.courses.Values`capacity
    ensures r.Err? <==> c !in db.courses
    ensures r.Err? ==> r.error == NotFound
    ensures r == Ok(true) <==> c in db.courses && db.courses[c].enrolledStudents >= db.courses[c].capacity
  {
    if c !in db.courses then Err(NotFound) else Ok(!db.courses[c].HasAvailableCapacity())
  }

  /** `getAvailableSeats`. */
  function GetAvailableSeats(db: Store, c: Id): (r: Result<int>)
    reads db`courses, db.courses.Values`enrolledStudents, db.courses.Values`capacity
    ensures r.Err? <==> c !in db.courses
    ensures r.Err? ==> r.error == NotFound
    ensures r.Ok? ==> (r.value > 0 <==> IsCourseFull(db, c) == Ok(false))
    ensures r.Ok? && db.SeatsWithinCapacity() ==> 0 <= r.value <= db.courses[c].capacity
  {
    if c !in db.courses then Err(NotFound)
    else Ok(db.courses[c].capacity - db.courses[c].enrolledStudents)
  }

  /** The first check `enrollStudent` fails, in its order: student, course,
      an active enrollment of the pair, a full course, a missing prerequisite;
      last, the unique (student_id, course_id) constraint refuses the insert
      when a non-active row of the pair is still stored. */
  function EnrollmentRefusal(db: Store, s: Id, c: Id): (r: Option<Error>)
    reads db`students, db`courses, db`enrollments, db.enrollments.Values`status
    reads db.courses.Values`enrolledStudents, db.courses.Values`capacity, db.courses.Values`prerequisites
    ensures r.None? <==>
              s in db.students && c in db.courses && db.courses[c].HasAvailableCapacity() &&
              db.courses[c].prerequisites <= CompletedCourseIds(db, s) && PairIds(db, s, c) == {}
    ensures r == Some(AlreadyExists) <==> s in db.students && c in db.courses && ExistsActiveEnrollment(db, s, c)
    ensures r == Some(CapacityExceeded) ==> c in db.courses && !db.courses[c].HasAvailableCapacity()
    ensures r == Some(PrerequisiteNotMet) ==>
              c in db.courses && db.courses[c].HasAvailableCapacity() &&
              !(db.courses[c].prerequisites <= CompletedCourseIds(db, s))
  {
    if s !in db.students then Some(NotFound)
    else if c !in db.courses then Some(NotFound)
    else if ExistsActiveEnrollment(db, s, c) then
      assert PairIds(db, s, c) != {} by {
        var k :| k in db.enrollments && db.enrollments[k].studentId == s &&
          db.enrollments[k].courseId == c && db.enrollments[k].status == Active;
        assert k in PairIds(db, s, c);
      }
      Some(AlreadyExists)
    else if IsCourseFull(db, c) == Ok(true) then Some(CapacityExceeded)
    else if HasStudentCompletedPrerequisites(db, s, c) == Ok(false) then Some(PrerequisiteNotMet)
    else if PairIds(db, s, c) != {} then Some(DuplicateEnrollment)
    else None
  }

  /** The insert that ends a successful admission: a new ACTIVE enrollment for
      the pair and one more seat taken in the course. */
  method Admit(db: Store, s: Id, c: Id, today: Day) returns (e: Enrollment)
    requires db.Valid()
    requires s in db.students && c in db.courses && PairIds(db, s, c) == {}
    modifies db`enrollments, db`nextId, {db.courses[c]}`enrolledStudents
    ensures fresh(e)
    ensures e.studentId == s && e.courseId == c && e.enrollmentDate == today && e.status == Active
    ensures e.grade == null && e.withdrawalReason == None && e.withdrawalDate == None
    ensures e.id !in old(db.enrollments) && db.enrollments == old(db.enrollments)[e.id := e]
    ensures db.courses[c].enrolledStudents == old(db.courses[c].enrolledStudents) + 1
    ensures db.Valid()
    ensures old(db.SeatsWithinCapacity() && db.courses[c].HasAvailableCapacity()) ==> db.SeatsWithinCapacity()
  {
    db.TakeSeat(c);
    forall k | k in db.enrollments
      ensures !(db.enrollments[k].studentId == s && db.enrollments[k].courseId == c)
    {
      assert k !in PairIds(db, s, c);
    }
    e := db.InsertEnrollment(s, c, today);
  }

  /** `enrollStudent`: refused with the first failing check, otherwise admitted. */
  method EnrollStudent(db: Store, s: Id, c: Id, today: Day) returns (r: Result<Enrollment>)
    requires db.Valid()
    modifies db`enrollments, db`nextId, db.CourseFrame(c)`enrolledStudents
    ensures db.Valid()
    ensures old(db.SeatsWithinCapacity()) ==> db.SeatsWithinCapacity()
    ensures r.Err? <==> old(EnrollmentRefusal(db, s, c)).Some?
    ensures r.Err? ==> r.error == old(EnrollmentRefusal(db, s, c)).value
    ensures r.Err? ==> db.enrollments == old(db.enrollments) && db.nextId == old(db.nextId)
    ensures r.Ok? ==> fresh(r.value) && r.value.studentId == s && r.value.courseId == c &&
                      r.value.status == Active && r.value.enrollmentDate == today && r.value.grade == null
    ensures r.Ok? ==> r.value.id !in old(db.enrollments) && db.enrollments == old(db.enrollments)[r.value.id := r.value]
    ensures c in db.courses ==>
              db.courses[c].enrolledStudents == old(db.courses[c].enrolledStudents) + (if r.Ok? then 1 else 0)
    ensures forall d :: d != c ==> EnrollmentRefusal(db, s, d) == old(EnrollmentRefusal(db, s, d))
  {
    var refusal := EnrollmentRefusal(db, s, c);
    if refusal.Some? {
      return Err(refusal.value);
    }
    var e := Admit(db, s, c, today);
    forall k | k in db.courses && k != c
      ensures db.courses[k].enrolledStudents == old(db.courses[k].enrolledStudents)
    {
      assert old(db.courses[k].id) != old(db.courses[c].id);
    }
    AdmissionKeepsRefusals(db, s, e);
    r := Ok(e);
  }

  /** Admitting the student to one course does not change what the checks of
      `enrollStudent` say about any other course: the new row is ACTIVE and
      for the admitted course, and only that course's counter moved. */
  twostate lemma AdmissionKeepsRefusals(new db: Store, new s: Id, new e: Enrollment)
    requires old(allocated(db)) && old(db.Valid()) && e.status == Active
    requires db.students == old(db.students) && db.courses == old(db.courses)
    requires e.id !in old(db.enrollments) && db.enrollments == old(db.enrollments)[e.id := e]
    requires forall k :: k in old(db.enrollments) ==> db.enrollments[k].status == old(db.enrollments[k].status)
    requires forall k :: k in db.courses ==>
               db.courses[k].capacity == old(db.courses[k].capacity) &&
               db.courses[k].prerequisites == old(db.courses[k].prerequisites)
    requires forall k :: k in db.courses && k != e.courseId ==>
               db.courses[k].enrolledStudents == old(db.courses[k].enrolledStudents)
    ensures forall d :: d != e.courseId ==> EnrollmentRefusal(db, s, d) == old(EnrollmentRefusal(db, s, d))
  {
    assert CompletedCourseIds(db, s) == old(CompletedCourseIds(db, s));
    forall d | d != e.courseId
      ensures ExistsActiveEnrollment(db, s, d) == old(ExistsActiveEnrollment(db, s, d))
      ensures PairIds(db, s, d) == old(PairIds(db, s, d))
    {
      if ExistsActiveEnrollment(db, s, d) {
        var k :| k in db.enrollments && db.enrollments[k].studentId == s &&
          db.enrollments[k].courseId == d && db.enrollments[k].status == Active;
        assert k in old(db.enrollments);
      }
      if old(ExistsActiveEnrollment(db, s, d)) {
        var k :| k in old(db.enrollments) && old(db.enrollments[k].studentId) == s &&
          old(db.enrollments[k].courseId) == d && old(db.enrollments[k].status) == Active;
        assert k in db.enrollments && db.enrollments[k] == old(db.enrollments[k]);
      }
    }
  }


  /** The rows a list of new enrollments adds to the enrollment table. */
  function RowsOf(es: seq<Enrollment>): (m: map<Id, Enrollment>)
  {
    if es == [] then map[] else RowsOf(es[..|es| - 1])[es[|es| - 1].id := es[|es| - 1]]
  }

  lemma RowsOfAppend(before: map<Id, Enrollment>, es: seq<Enrollment>, e: Enrollment)
    ensures before + RowsOf(es + [e]) == (before + RowsOf(es))[e.id := e]
  {
    assert (es + [e])[..|es|] == es;
  }

  lemma RowsOfOne(before: map<Id, Enrollment>, e: Enrollment)
    ensures before + RowsOf([e]) == before[e.id := e]
  {
    RowsOfAppend(before, [], e);
    assert before + map[] == before;
  }

  /** The courses still to try after the `i`-th are those from the `i`-th on
      without it, since the request names each course once. */
  lemma RequestRest(courseIds: seq<Id>, i: nat)
    requires i < |courseIds|
    requires forall k, j :: 0 <= k < j < |courseIds| ==> courseIds[k] != courseIds[j]
    ensures courseIds[i] in courseIds[i..] && courseIds[i] !in courseIds[i + 1..]
    ensures forall c :: c in courseIds[i + 1..] ==> c in courseIds[i..]
  {
    assert courseIds[i..] == [courseIds[i]] + courseIds[i + 1..];
    forall j | i + 1 <= j < |courseIds|
      ensures courseIds[j] != courseIds[i]
    {
    }
  }

  /** The courses a list of enrollments is for. */
  function CourseIdsOf(es: seq<Enrollment>): set<Id>
  {
    set j | 0 <= j < |es| :: es[j].courseId
  }

  /** The ids of a list of enrollments. */
  function IdsOf(es: seq<Enrollment>): set<Id>
  {
    set j | 0 <= j < |es| :: es[j].id
  }

  lemma IdsOfAppend(es: seq<Enrollment>, e: Enrollment)
    ensures IdsOf(es + [e]) == IdsOf(es) + {e.id}
  {
    forall x | x in IdsOf(es + [e])
      ensures x in IdsOf(es) + {e.id}
    {
      var j :| 0 <= j < |es + [e]| && (es + [e])[j].id == x;
      if j < |es| {
        assert es[j] == (es + [e])[j];
      }
    }
    forall x | x in IdsOf(es)
      ensures x in IdsOf(es + [e])
    {
      var j :| 0 <= j < |es| && es[j].id == x;
      assert (es + [e])[j] == es[j];
    }
    assert (es + [e])[|es|] == e;
  }

  /** Storing one more collected row keeps the store's rows exactly the old
      ones plus the collected ones. */
  lemma AddedRowsStep(before: map<Id, Enrollment>, rows: map<Id, Enrollment>, es: seq<Enrollment>, e: Enrollment)
    requires rows.Keys == before.Keys + IdsOf(es) && e.id !in before
    requires forall k :: k in before ==> rows[k] == before[k]
    ensures rows[e.id := e].Keys == before.Keys + IdsOf(es + [e])
    ensures forall k :: k in before ==> rows[e.id := e][k] == before[k]
  {
    IdsOfAppend(es, e);
  }

  lemma CourseIdsOfAppend(es: seq<Enrollment>, e: Enrollment)
    ensures CourseIdsOf(es + [e]) == CourseIdsOf(es) + {e.courseId}
  {
    forall x | x in CourseIdsOf(es + [e])
      ensures x in CourseIdsOf(es) + {e.courseId}
    {
      var j :| 0 <= j < |es + [e]| && (es + [e])[j].courseId == x;
      if j < |es| {
        assert es[j] == (es + [e])[j];
      }
    }
    forall x | x in CourseIdsOf(es)
      ensures x in CourseIdsOf(es + [e])
    {
      var j :| 0 <= j < |es| && es[j].courseId == x;
      assert (es + [e])[j] == es[j];
    }
    assert (es + [e])[|es|] == e;
  }

  /** What the loop of `enrollStudentInCourses` has achieved once it has
      collected `es`: every collected enrollment is a new, stored, ungraded
      ACTIVE enrollment of student `s`, dated `today`, in one of `courseIds`, no two of them share a
      course, the stored rows are those of `before` and the collected ones, and each
      course's counter is its `start` value plus one if a collected enrollment
      is for it. */
  ghost predicate AdmittedSoFar(db: Store, s: Id, courseIds: seq<Id>, before: map<Id, Enrollment>,
                                start: map<Id, int>, today: Day, es: seq<Enrollment>)
    reads db`enrollments, db`courses, db.courses.Values`enrolledStudents
    reads (set e | e in es)`status, (set e | e in es)`enrollmentDate, (set e | e in es)`grade
  {
    db.enrollments.Keys == before.Keys + IdsOf(es) && (forall k :: k in before ==> db.enrollments[k] == before[k]) &&
    (forall j :: 0 <= j < |es| ==>
       es[j].id !in before && es[j].studentId == s && es[j].courseId in courseIds && es[j].status == Active &&
       es[j].enrollmentDate == today && es[j].grade == null && es[j].id in db.enrollments && db.enrollments[es[j].id] == es[j]) &&
    (forall j, l :: 0 <= j < l < |es| ==> es[j].courseId != es[l].courseId) &&
    (forall k :: k in db.courses ==>
       k in start && db.courses[k].enrolledStudents == start[k] + (if k in CourseIdsOf(es) then 1 else 0))
  }

  /** One pass of the loop keeps `AdmittedSoFar`: a skipped course changes
      nothing, an admitted one adds a row and one seat for a course that no
      collected enrollment names yet. */
  twostate lemma AdmittedStep(new db: Store, new s: Id, new courseIds: seq<Id>, new before: map<Id, Enrollment>,
                              new start: map<Id, int>, new today: Day, new es: seq<Enrollment>, new c: Id, new attempt: Option<Enrollment>)
    requires old(allocated(db)) && old(allocated(before)) && old(allocated(es))
    requires old(AdmittedSoFar(db, s, courseIds, before, start, today, es))
    requires old(db.Valid()) && c in courseIds && db.courses == old(db.courses)
    requires unchanged(set e | e in es)
    requires forall k :: k in db.courses && db.courses[k] !in old(db.CourseFrame(c)) ==>
               db.courses[k].enrolledStudents == old(db.courses[k].enrolledStudents)
    requires c in db.courses ==>
               db.courses[c].enrolledStudents == old(db.courses[c].enrolledStudents) + (if attempt.Some? then 1 else 0)
    requires attempt.None? ==> db.enrollments == old(db.enrollments)
    requires attempt.Some? ==> !old(ExistsActiveEnrollment(db, s, c))
    requires attempt.Some? ==> attempt.value.studentId == s && attempt.value.courseId == c && attempt.value.status == Active
    requires attempt.Some? ==> attempt.value.enrollmentDate == today && attempt.value.grade == null
    requires attempt.Some? ==>
               attempt.value.id !in old(db.enrollments) && db.enrollments == old(db.enrollments)[attempt.value.id := attempt.value]
    ensures AdmittedSoFar(db, s, courseIds, before, start, today, if attempt.Some? then es + [attempt.value] else es)
  {
    forall k | k in db.courses && k != c
      ensures db.courses[k].enrolledStudents == old(db.courses[k].enrolledStudents)
    {
      if c in db.courses {
        assert old(db.courses[k].id) != old(db.courses[c].id);
      }
    }
    if attempt.Some? {
      forall j | 0 <= j < |es|
        ensures es[j].courseId != c
      {
        assert old(db.enrollments[es[j].id]) == es[j];
        assert old(ExistsActiveEnrollment(db, s, es[j].courseId));
      }
      AdmittedAdd(db, s, courseIds, before, start, today, es, c, attempt.value);
    } else {
      AdmittedSkip(db, s, courseIds, before, start, today, es);
    }
  }

  /** A skipped course leaves `AdmittedSoFar` as it was. */
  twostate lemma AdmittedSkip(new db: Store, new s: Id, new courseIds: seq<Id>, new before: map<Id, Enrollment>,
                              new start: map<Id, int>, new today: Day, new es: seq<Enrollment>)
    requires old(allocated(db)) && old(allocated(before)) && old(allocated(es))
    requires old(AdmittedSoFar(db, s, courseIds, before, start, today, es))
    requires db.courses == old(db.courses) && db.enrollments == old(db.enrollments)
    requires unchanged(set e | e in es)
    requires forall k :: k in db.courses ==> db.courses[k].enrolledStudents == old(db.courses[k].enrolledStudents)
    ensures AdmittedSoFar(db, s, courseIds, before, start, today, es)
  {
  }

  /** An admitted course, which no collected enrollment names yet, adds its
      row and one seat. */
  twostate lemma AdmittedAdd(new db: Store, new s: Id, new courseIds: seq<Id>, new before: map<Id, Enrollment>,
                             new start: map<Id, int>, new today: Day, new es: seq<Enrollment>, new c: Id, new e: Enrollment)
    requires old(allocated(db)) && old(allocated(before)) && old(allocated(es))
    requires old(AdmittedSoFar(db, s, courseIds, before, start, today, es))
    requires c in courseIds && db.courses == old(db.courses)
    requires unchanged(set e | e in es)
    requires forall k :: k in db.courses ==>
               db.courses[k].enrolledStudents == old(db.courses[k].enrolledStudents) + (if k == c then 1 else 0)
    requires forall j :: 0 <= j < |es| ==> es[j].courseId != c
    requires e.studentId == s && e.courseId == c && e.status == Active && e.enrollmentDate == today && e.grade == null
    requires e.id !in old(db.enrollments) && db.enrollments == old(db.enrollments)[e.id := e]
    ensures AdmittedSoFar(db, s, courseIds, before, start, today, es + [e])
  {
    CourseIdsOfAppend(es, e);
    AddedRowsStep(before, old(db.enrollments), es, e);
    var es' := es + [e];
    forall j | 0 <= j < |es'|
      ensures es'[j].id !in before && es'[j].status == Active && es'[j].enrollmentDate == today && es'[j].grade == null
      ensures es'[j].id in db.enrollments && db.enrollments[es'[j].id] == es'[j]
    {
      if j < |es| {
        assert es'[j] == es[j];
        assert es[j].id in old(db.enrollments);
      }
    }
  }

  /** The body of the loop in `enrollStudentInCourses`: one `enrollStudent`
      whose enrollment is appended to `es` when it succeeds and whose failure
      is caught and skipped. */
  method EnrollOrSkip(db: Store, s: Id, c: Id, today: Day, es: seq<Enrollment>,
                      ghost courseIds: seq<Id>, ghost before: map<Id, Enrollment>, ghost start: map<Id, int>)
    returns (es': seq<Enrollment>)
    requires db.Valid() && c in courseIds
    requires AdmittedSoFar(db, s, courseIds, before, start, today, es)
    modifies db`enrollments, db`nextId, db.CourseFrame(c)`enrolledStudents
    ensures db.Valid()
    ensures old(db.SeatsWithinCapacity()) ==> db.SeatsWithinCapacity()
    ensures es' == es <==> old(EnrollmentRefusal(db, s, c)).Some?
    ensures es' != es ==> |es'| == |es| + 1 && es' == es + [es'[|es|]] && es'[|es|].courseId == c &&
                          db.enrollments == old(db.enrollments)[es'[|es|].id := es'[|es|]]
    ensures es' == es ==> db.enrollments == old(db.enrollments) && db.nextId == old(db.nextId)
    ensures forall d :: d != c ==> EnrollmentRefusal(db, s, d) == old(EnrollmentRefusal(db, s, d))
    ensures AdmittedSoFar(db, s, courseIds, before, start, today, es')
  {
    var attempt := EnrollStudent(db, s, c, today);
    AdmittedStep(db, s, courseIds, before, start, today, es, c, if attempt.Ok? then Some(attempt.value) else None);
    if attempt.Ok? {
      es' := es + [attempt.value];
    } else {
      es' := es;
    }
  }

  /** The requested courses that pass every check of `enrollStudent`. */
  function AdmissibleCourses(db: Store, s: Id, courseIds: seq<Id>): set<Id>
    reads db`students, db`courses, db`enrollments, db.enrollments.Values`status
    reads db.courses.Values`enrolledStudents, db.courses.Values`capacity, db.courses.Values`prerequisites
  {
    set c | c in courseIds && EnrollmentRefusal(db, s, c).None?
  }

  /** The ids of `xs` that lie in `keep`, in the order of `xs`. */
  function Filtered(xs: seq<Id>, keep: set<Id>): (ys: seq<Id>)
    ensures |ys| <= |xs|
    ensures forall y :: y in ys <==> y in xs && y in keep
  {
    if xs == [] then []
    else
      assert xs == xs[..|xs| - 1] + [xs[|xs| - 1]];
      Filtered(xs[..|xs| - 1], keep) + (if xs[|xs| - 1] in keep then [xs[|xs| - 1]] else [])
  }

  /** `es` holds one enrollment per course of `cs`, in the order of `cs`. */
  ghost predicate InCourseOrder(es: seq<Enrollment>, cs: seq<Id>)
  {
    |es| == |cs| && forall j :: 0 <= j < |es| ==> es[j].courseId == cs[j]
  }

  lemma InCourseOrderStep(es: seq<Enrollment>, xs: seq<Id>, i: nat, keep: set<Id>, es': seq<Enrollment>)
    requires i < |xs| && InCourseOrder(es, Filtered(xs[..i], keep))
    requires xs[i] !in keep ==> es' == es
    requires xs[i] in keep ==> |es'| == |es| + 1 && es' == es + [es'[|es|]] && es'[|es|].courseId == xs[i]
    ensures InCourseOrder(es', Filtered(xs[..i + 1], keep))
  {
    assert xs[..i + 1][..i] == xs[..i];
  }

  /** The courses of enrollments in the order of `cs` are the courses of `cs`. */
  lemma CourseIdsInOrder(es: seq<Enrollment>, cs: seq<Id>)
    requires InCourseOrder(es, cs)
    ensures forall c :: c in CourseIdsOf(es) <==> c in cs
  {
    forall c | c in cs
      ensures c in CourseIdsOf(es)
    {
      var j :| 0 <= j < |cs| && cs[j] == c;
      assert es[j].courseId == c;
    }
  }

  /** Every course still to try passes its checks exactly when it passed
      them when the loop began. */
  ghost predicate ChecksAsAtStart(db: Store, s: Id, rest: seq<Id>, ok: set<Id>)
    reads db`students, db`courses, db`enrollments, db.enrollments.Values`status
    reads db.courses.Values`enrolledStudents, db.courses.Values`capacity, db.courses.Values`prerequisites
  {
    forall c :: c in rest ==> (EnrollmentRefusal(db, s, c).None? <==> c in ok)
  }

  /** Everything the loop of `enrollStudentInCourses` knows once it has tried
      the first `i` requested courses and collected `es`: the collected rows
      are new, stored and admitted and they are the only rows added
      (`AdmittedSoFar`), they are for the courses among the first `i` that
      passed their checks at the start, in request order, and the courses
      still to try pass their checks as they did at the start. */
  ghost predicate Collected(db: Store, s: Id, courseIds: seq<Id>, i: nat, before: map<Id, Enrollment>,
                            start: map<Id, int>, today: Day, ok: set<Id>, es: seq<Enrollment>)
    reads db`students, db`courses, db`enrollments, db.enrollments.Values`status
    reads db.courses.Values`enrolledStudents, db.courses.Values`capacity, db.courses.Values`prerequisites
    reads (set e | e in es)`status, (set e | e in es)`enrollmentDate, (set e | e in es)`grade
  {
    i <= |courseIds| &&
    AdmittedSoFar(db, s, courseIds, before, start, today, es) &&
    InCourseOrder(es, Filtered(courseIds[..i], ok)) && ChecksAsAtStart(db, s, courseIds[i..], ok)
  }

  /** Once every requested course has been tried, the collected enrollments
      are for exactly the courses that passed their checks at the start, in
      request order; none are collected exactly when no requested course
      passed, and then no row was added. */
  lemma CollectedMeans(db: Store, s: Id, courseIds: seq<Id>, before: map<Id, Enrollment>,
                       start: map<Id, int>, today: Day, ok: set<Id>, es: seq<Enrollment>)
    requires Collected(db, s, courseIds, |courseIds|, before, start, today, ok, es)
    requires forall c :: c in ok ==> c in courseIds
    ensures CourseIdsOf(es) == ok
    ensures InCourseOrder(es, Filtered(courseIds, ok))
    ensures es == [] <==> forall c :: c in courseIds ==> c !in ok
    ensures es == [] ==> db.enrollments == before
  {
    assert courseIds[..|courseIds|] == courseIds;
    CourseIdsInOrder(es, Filtered(courseIds, ok));
    if es == [] {
      assert IdsOf(es) == {};
    } else {
      assert es[0].courseId in CourseIdsOf(es);
    }
  }

  /** One pass of the loop of `enrollStudentInCourses`, for the `i`-th
      requested course: it is admitted exactly when it passed its checks at
      the start of the loop, in which case its row joins the collected ones,
      and the courses after it still pass their checks as they did then. */
  method TryNext(db: Store, s: Id, courseIds: seq<Id>, i: nat, today: Day, es: seq<Enrollment>,
                 ghost before: map<Id, Enrollment>, ghost start: map<Id, int>, ghost ok: set<Id>)
    returns (es': seq<Enrollment>)
    requires db.Valid() && i < |courseIds|
    requires forall k, j :: 0 <= k < j < |courseIds| ==> courseIds[k] != courseIds[j]
    requires Collected(db, s, courseIds, i, before, start, today, ok, es)
    modifies db`enrollments, db`nextId, db.CourseFrame(courseIds[i])`enrolledStudents
    ensures db.Valid()
    ensures old(db.SeatsWithinCapacity()) ==> db.SeatsWithinCapacity()
    ensures es' == es ==> db.nextId == old(db.nextId)
    ensures es' == es || |es'| == |es| + 1
    ensures Collected(db, s, courseIds, i + 1, before, start, today, ok, es')
  {
    RequestRest(courseIds, i);
    es' := EnrollOrSkip(db, s, courseIds[i], today, es, courseIds, before, start);
    InCourseOrderStep(es, courseIds, i, ok, es');
  }

  /** The loop of `enrollStudentInCourses`: every requested course is tried
      once, in request order. */
  method TryAll(db: Store, s: Id, courseIds: seq<Id>, today: Day,
                ghost before: map<Id, Enrollment>, ghost start: map<Id, int>, ghost ok: set<Id>)
    returns (es: seq<Enrollment>)
    requires db.Valid() && before == db.enrollments
    requires forall i, j :: 0 <= i < j < |courseIds| ==> courseIds[i] != courseIds[j]
    requires forall k :: k in db.courses ==> k in start && db.courses[k].enrolledStudents == start[k]
    requires ChecksAsAtStart(db, s, courseIds, ok)
    modifies db`enrollments, db`nextId, db.courses.Values`enrolledStudents
    ensures db.Valid()
    ensures old(db.SeatsWithinCapacity()) ==> db.SeatsWithinCapacity()
    ensures es == [] ==> db.nextId == old(db.nextId)
    ensures Collected(db, s, courseIds, |courseIds|, before, start, today, ok, es)
  {
    es := [];
    var i := 0;
    assert courseIds[0..] == courseIds;
    while i < |courseIds|
      invariant 0 <= i <= |courseIds|
      invariant db.Valid()
      invariant old(db.SeatsWithinCapacity()) ==> db.SeatsWithinCapacity()
      invariant es == [] ==> db.nextId == old(db.nextId)
      invariant Collected(db, s, courseIds, i, before, start, today, ok, es)
    {
      es := TryNext(db, s, courseIds, i, today, es, before, start, ok);
      assert Collected(db, s, courseIds, i + 1, before, start, today, ok, es);
      i := i + 1;
    }
  }

  /** `enrollStudentInCourses` of the enrollment service: tries each course in
      turn, keeps the enrollments that succeed and skips the failures. It
      fails exactly when every requested course fails its checks, and then
      nothing has changed; otherwise the student is enrolled in exactly the
      requested courses that pass their checks, in request order. The
      request's course ids form a set, so no id repeats. */
  method EnrollStudentInCourses(db: Store, s: Id, courseIds: seq<Id>, today: Day) returns (r: Result<seq<Enrollment>>)
    requires db.Valid()
    requires forall i, j :: 0 <= i < j < |courseIds| ==> courseIds[i] != courseIds[j]
    modifies db`enrollments, db`nextId, db.courses.Values`enrolledStudents
    ensures db.Valid()
    ensures old(db.SeatsWithinCapacity()) ==> db.SeatsWithinCapacity()
    ensures r.Err? <==> forall c :: c in courseIds ==> old(EnrollmentRefusal(db, s, c)).Some?
    ensures r.Err? ==> r.error == NoEnrollmentSucceeded
    ensures r.Err? ==> db.enrollments == old(db.enrollments) && db.nextId == old(db.nextId)
    ensures r.Ok? ==> db.enrollments.Keys == old(db.enrollments).Keys + IdsOf(r.value)
    ensures forall k :: k in old(db.enrollments) ==> db.enrollments[k] == old(db.enrollments[k])
    ensures r.Ok? ==> CourseIdsOf(r.value) == old(AdmissibleCourses(db, s, courseIds))
    ensures r.Ok? ==> InCourseOrder(r.value, Filtered(courseIds, old(AdmissibleCourses(db, s, courseIds))))
    ensures r.Ok? ==> forall i :: 0 <= i < |r.value| ==>
              r.value[i].id !in old(db.enrollments) && r.value[i].studentId == s && r.value[i].status == Active &&
              r.value[i].enrollmentDate == today && r.value[i].grade == null &&
              r.value[i].id in db.enrollments && db.enrollments[r.value[i].id] == r.value[i]
    ensures forall k :: k in db.courses ==>
              db.courses[k].enrolledStudents ==
                old(db.courses[k].enrolledStudents) + (if r.Ok? && k in CourseIdsOf(r.value) then 1 else 0)
  {
    ghost var before := db.enrollments;
    ghost var start := map k | k in db.courses :: db.courses[k].enrolledStudents;
    ghost var ok := AdmissibleCourses(db, s, courseIds);
    var es := TryAll(db, s, courseIds, today, before, start, ok);
    CollectedMeans(db, s, courseIds, before, start, today, ok, es);
    if es == [] {
      return Err(NoEnrollmentSucceeded);
    }
    r := Ok(es);
  }

  /** `updateEnrollmentStatus` of the service: sets the new status; only the
      move from ACTIVE to DROPPED releases the course's seat. */
  method UpdateEnrollmentStatus(db: Store, id: Id, status: EnrollmentStatus) returns (r: Result<Enrollment>)
    requires db.Valid()
    modifies db.EnrollmentFrame(id)`status, db.CourseOfEnrollmentFrame(id)`enrolledStudents
    ensures db.Valid()
    ensures old(db.SeatsWithinCapacity()) ==> db.SeatsWithinCapacity()
    ensures r.Err? <==> id !in db.enrollments
    ensures r.Err? ==> r.error == NotFound
    ensures r.Ok? ==> r.value == db.enrollments[id] && r.value.status == status
    ensures r.Ok? ==>
              var c := r.value.courseId;
              db.courses[c].enrolledStudents ==
                if old(r.value.status) == Active && status == Dropped
                then Released(old(db.courses[c].enrolledStudents))
                else old(db.courses[c].enrolledStudents)
  {
    if id !in db.enrollments {
      return Err(NotFound);
    }
    var e := db.enrollments[id];
    if e.status == Active && status == Dropped {
      db.ReleaseSeat(e.courseId);
    }
    db.SetEnrollmentStatus(id, status);
    r := Ok(e);
  }

  /** `dropEnrollment`: deletes the row (its grade goes with it by cascade) and
      releases the seat only if the enrollment was ACTIVE. */
  method DropEnrollment(db: Store, id: Id) returns (r: Result<()>)
    requires db.Valid()
    modifies db`enrollments, db`grades, db.CourseOfEnrollmentFrame(id)`enrolledStudents
    ensures db.Valid()
    ensures old(db.SeatsWithinCapacity()) ==> db.SeatsWithinCapacity()
    ensures r.Err? <==> id !in old(db.enrollments)
    ensures r.Err? ==> r.error == NotFound
    ensures r.Err? ==> db.enrollments == old(db.enrollments) && db.grades == old(db.grades)
    ensures r.Ok? ==> db.enrollments == old(db.enrollments) - {id}
    ensures r.Ok? ==> db.grades == old(db.grades) - old(db.AttachedGradeIds({id}))
    ensures r.Ok? ==>
              var c := old(db.enrollments[id]).courseId;
              db.courses[c].enrolledStudents ==
                if old(db.enrollments[id].status) == Active
                then Released(old(db.courses[c].enrolledStudents))
                else old(db.courses[c].enrolledStudents)
  {
    if id !in db.enrollments {
      return Err(NotFound);
    }
    var e := db.enrollments[id];
    db.RemoveEnrollments({id});
    if e.status == Active {
      db.ReleaseSeat(e.courseId);
    }
    r := Ok(());
  }

  /** `dropStudentFromCourse`: looks the pair's row up (NotFound when there is
      none, whatever the status) and drops it. */
  method DropStudentFromCourse(db: Store, s: Id, c: Id) returns (r: Result<()>)
    requires db.Valid()
    modifies db`enrollments, db`grades, db.CourseFrame(c)`enrolledStudents
    ensures db.Valid()
    ensures old(db.SeatsWithinCapacity()) ==> db.SeatsWithinCapacity()
    ensures r.Err? <==> old(PairIds(db, s, c)) == {}
    ensures r.Err? ==> r.error == NotFound
    ensures r.Err? ==> db.enrollments == old(db.enrollments) && db.grades == old(db.grades)
    ensures r.Ok? ==> db.enrollments == old(db.enrollments) - old(PairIds(db, s, c))
    ensures r.Ok? ==> db.grades == old(db.grades) - old(db.AttachedGradeIds(PairIds(db, s, c)))
    ensures r.Ok? ==>
              db.courses[c].enrolledStudents ==
                if old(ExistsActiveEnrollment(db, s, c))
                then Released(old(db.courses[c].enrolledStudents))
                else old(db.courses[c].enrolledStudents)
  {
    var found := FindByStudentIdAndCourseId(db, s, c);
    if found.None? {
      return Err(NotFound);
    }
    ExistsActiveMeansFoundActive(db, s, c);
    r := DropEnrollment(db, found.value);
  }
}
