/** `StudentServiceImpl`: the email guards of creating and updating a student,
    deleting one with everything it owns, and the progress report with its own
    grade-point mapping and a GPA rounded to hundredths. */
module StudentService {
  import opened Common
  import opened GradeValues
  import opened EnrollmentEntity
  import opened Database
  import opened GradeService

  /** `existsByEmail`. */
  predicate EmailTaken(db: Store, email: string)
    reads db`students
  {
    exists k :: k in db.students && db.students[k].email == email
  }

  /** `createStudent`: refused when the email is in use, otherwise saved under
      a new id. */
  method CreateStudent(db: Store, st: Student) returns (r: Result<Id>)
    requires db.Valid()
    modifies db`students, db`nextId
    ensures db.Valid()
    ensures r.Err? <==> old(EmailTaken(db, st.email))
    ensures r.Err? ==> r.error == AlreadyExists && db.students == old(db.students)
    ensures r.Ok? ==> r.value !in old(db.students) && db.students == old(db.students)[r.value := st]
  {
    if EmailTaken(db, st.email) {
      return Err(AlreadyExists);
    }
    var id := db.InsertStudent(st);
    r := Ok(id);
  }

  /** `updateStudent`: refused when the student is missing, or when the email
      changes to one that is in use; otherwise the row takes the new values. */
  method UpdateStudent(db: Store, id: Id, st: Student) returns (r: Result<()>)
    requires db.Valid()
    modifies db`students
    ensures db.Valid()
    ensures r == Err(NotFound) <==> id !in old(db.students)
    ensures r == Err(AlreadyExists) <==>
              id in old(db.students) && old(db.students[id].email) != st.email && old(EmailTaken(db, st.email))
    ensures r.Err? ==> db.students == old(db.students)
    ensures r.Ok? ==> id in old(db.students) && db.students == old(db.students)[id := st]
    ensures id in old(db.students) && old(db.students[id].email) == st.email ==> r.Ok?
  {
    if id !in db.students {
      return Err(NotFound);
    }
    if db.students[id].email != st.email && EmailTaken(db, st.email) {
      return Err(AlreadyExists);
    }
    db.ReplaceStudent(id, st);
    r := Ok(());
  }

  /** Once saved, an email names exactly one student: the one just created or
      updated. */
  lemma EmailNamesOneStudent(db: Store, id: Id)
    requires db.Valid() && id in db.students
    ensures EmailTaken(db, db.students[id].email)
    ensures forall k :: k in db.students && db.students[k].email == db.students[id].email ==> k == id
  {
  }

  /** `deleteStudent`: refused when the student is missing; otherwise the
      student is deleted, and with it, by cascade, its enrollments and their
      grades. The seat counters of the courses are not touched. */
  method DeleteStudent(db: Store, id: Id) returns (r: Result<()>)
    requires db.Valid()
    modifies db`students, db`enrollments, db`grades
    ensures db.Valid()
    ensures r.Err? <==> id !in old(db.students)
    ensures r.Err? ==> r.error == NotFound && db.students == old(db.students) &&
                       db.enrollments == old(db.enrollments) && db.grades == old(db.grades)
    ensures r.Ok? ==> db.students == old(db.students) - {id}
    ensures r.Ok? ==> db.enrollments == old(db.enrollments) - old(db.StudentEnrollmentIds(id))
    ensures r.Ok? ==> db.grades == old(db.grades) - old(db.AttachedGradeIds(db.StudentEnrollmentIds(id)))
    ensures r.Ok? ==> db.StudentEnrollmentIds(id) == {}
  {
    if id !in db.students {
      return Err(NotFound);
    }
    var owned := db.StudentEnrollmentIds(id);
    db.RemoveEnrollments(owned);
    db.RemoveStudent(id);
    r := Ok(());
  }

  /** `getFullName`. */
  function FullName(st: Student): string
  {
    st.firstName + " " + st.lastName
  }

  /** The points, in tenths, the progress report gives a value: from its first
      character A = 4.0, B = 3.0, C = 2.0, D = 1.0 and anything else 0; a value
      longer than one character ending in `+` adds 0.3 when those points
      exceed 0.3, and one ending in `-` takes 0.3 off. The first character must
      exist: the report reads it unconditionally. */
  function ProgressPoints(v: string): (r: int)
    requires |v| >= 1
    ensures -3 <= r <= 43
  {
    var base := if v[0] == 'A' then 40 else if v[0] == 'B' then 30 else if v[0] == 'C' then 20
                else if v[0] == 'D' then 10 else 0;
    if |v| > 1 && v[|v| - 1] == '+' && base > 3 then base + 3
    else if |v| > 1 && v[|v| - 1] == '-' then base - 3
    else base
  }

  /** Only a value the pattern refuses, such as `F-`, earns negative points. */
  lemma AcceptedPointsNonNegative(v: string)
    requires MatchesGradePattern(v)
    ensures ProgressPoints(v) >= 0
  {
  }

  /** The three point tables of the code base agree on every accepted value
      except these: the report gives A+ 4.3 and D- 0.7 where the grade service
      gives 0.0; it gives P 0.0 where the entity gives 2.0, and A+ 4.3 where the
      entity gives 4.0; and it gives D-, I and W points where the entity has none. */
  lemma {:induction false} ThreeTables(v: string)
    requires MatchesGradePattern(v)
    ensures ProgressPoints(v) == ServiceTablePoints(v) <==> v !in {"A+", "D-"}
    ensures EntityGradePoints(v) == Some(ProgressPoints(v)) <==> v !in {"A+", "P", "D-", "I", "W"}
    ensures ProgressPoints("A+") == 43 && ServiceTablePoints("A+") == 0 && EntityGradePoints("A+") == Some(40)
    ensures ProgressPoints("D-") == 7 && ServiceTablePoints("D-") == 0 && EntityGradePoints("D-").None?
    ensures ProgressPoints("P") == 0 && EntityGradePoints("P") == Some(20)
  {
    PatternAcceptsExactly(v);
  }

  /** One line of the progress report: `CourseGradeDTO`. */
  datatype CourseGrade = CourseGrade(courseTitle: string, gradeValue: string, completed: bool)

  /** The report: `StudentProgressDTO`, with the GPA in hundredths. */
  datatype StudentProgress = StudentProgress(studentName: string, gpa: int, courseGrades: seq<CourseGrade>)

  /** A grade value with a first character, as every stored grade has. */
  type StoredValue = v: string | |v| >= 1 witness "F"

  /** The points `getStudentProgress` gives one grade value, in tenths. */
  type ReportPoints = p: int | -3 <= p <= 43

  /** What the report reads of one enrollment: its course's title and, when it
      holds a grade, the grade's value, its completion flag and the points the
      report gives the value. */
  datatype RowGrade = RowGrade(value: StoredValue, completed: bool, points: ReportPoints)
  datatype Row = Row(courseTitle: string, grade: Option<RowGrade>)

  /** What the report needs of the store: enrollments name stored courses, a
      grade an enrollment holds is stored, and stored values are accepted. */
  ghost predicate ProgressReadable(db: Store)
    reads db`students, db`courses, db`enrollments, db`grades
    reads db.enrollments.Values`grade, db.grades.Values`enrollment, db.grades.Values`gradeValue
  {
    db.EnrollmentsWellFormed() && db.EnrollmentGradesLinked() && ValuesAccepted(db)
  }

  /** The stored enrollments as the report sees them. */
  function Rows(db: Store): (m: map<Id, Row>)
    requires ProgressReadable(db)
    reads db`students, db`courses, db`enrollments, db`grades
    reads db.enrollments.Values`grade, db.grades.Values`enrollment
    reads db.courses.Values`title, db.grades.Values`gradeValue, db.grades.Values`isCourseCompleted
    ensures m.Keys == db.enrollments.Keys
  {
    map k | k in db.enrollments ::
      var e := db.enrollments[k];
      Row(db.courses[e.courseId].title,
          if e.grade == null then None
          else
            assert db.grades[e.grade.id] == e.grade;
            Some(RowGrade(e.grade.gradeValue, e.grade.isCourseCompleted, ProgressPoints(e.grade.gradeValue))))
  }

  /** The three accumulators of the report: total points in tenths, the number
      of grades counted, and the lines listed (in no particular order). */
  datatype Progress = Progress(points: int, courses: nat, listed: multiset<CourseGrade>)

  function Join(a: Progress, b: Progress): Progress
  {
    Progress(a.points + b.points, a.courses + b.courses, a.listed + b.listed)
  }

  const NoProgress := Progress(0, 0, multiset{})

  lemma JoinSwap(t: Progress, a: Progress, b: Progress)
    ensures Join(Join(t, a), b) == Join(Join(t, b), a)
  {
    assert t.listed + a.listed + b.listed == t.listed + b.listed + a.listed;
  }

  lemma JoinRegroup(t: Progress, a: Progress, b: Progress)
    ensures Join(t, Join(a, b)) == Join(Join(t, b), a)
  {
    assert t.listed + (a.listed + b.listed) == t.listed + b.listed + a.listed;
  }

  /** What one enrollment adds: nothing without a grade; otherwise a line, and
      when the grade is completed, its points and one course. */
  function RowProgress(row: Row): Progress
  {
    if row.grade.None? then NoProgress
    else
      var g := row.grade.value;
      Progress(if g.completed then g.points else 0, if g.completed then 1 else 0,
               multiset{CourseGrade(row.courseTitle, g.value, g.completed)})
  }

  /** The accumulators over the enrollments `ids` names, taken in any order. */
  ghost function Report(m: map<Id, Row>, ids: set<Id>): (p: Progress)
    requires ids <= m.Keys
    decreases ids
  {
    if ids == {} then NoProgress
    else
      var k :| k in ids;
      Join(Report(m, ids - {k}), RowProgress(m[k]))
  }

  /** Every graded row carries a value the pattern accepts, and the points the
      report gives it. */
  ghost predicate RowsAccepted(m: map<Id, Row>)
  {
    forall k :: k in m && m[k].grade.Some? ==>
      MatchesGradePattern(m[k].grade.value.value) && m[k].grade.value.points == ProgressPoints(m[k].grade.value.value)
  }

  lemma RowsOfStoreAccepted(db: Store)
    requires ProgressReadable(db)
    ensures RowsAccepted(Rows(db))
  {
  }

  /** Over accepted values no points are negative, and none exceed 4.3 per
      counted course, so the total lies between 0 and 4.3 times the number of
      courses counted, which is at most the number of enrollments visited. */
  lemma {:induction false} ReportWithinScale(m: map<Id, Row>, ids: set<Id>)
    requires ids <= m.Keys && RowsAccepted(m)
    ensures var p := Report(m, ids); 0 <= p.points <= 43 * p.courses && p.courses <= |ids|
    decreases ids
  {
    if ids != {} {
      var k :| k in ids;
      ReportRemove(m, ids, k);
      ReportWithinScale(m, ids - {k});
      if m[k].grade.Some? {
        AcceptedPointsNonNegative(m[k].grade.value.value);
      }
    }
  }

  /** The report does not depend on the order the enrollments are visited in. */
  lemma {:induction false} ReportRemove(m: map<Id, Row>, ids: set<Id>, k: Id)
    requires ids <= m.Keys && k in ids
    ensures Report(m, ids) == Join(Report(m, ids - {k}), RowProgress(m[k]))
    decreases ids
  {
    var j :| j in ids && Report(m, ids) == Join(Report(m, ids - {j}), RowProgress(m[j]));
    if j != k {
      var rest := ids - {j} - {k};
      assert ids - {k} - {j} == rest;
      ReportRemove(m, ids - {j}, k);
      ReportRemove(m, ids - {k}, j);
      var a, b, t := RowProgress(m[j]), RowProgress(m[k]), Report(m, rest);
      calc {
        Report(m, ids);
        Join(Report(m, ids - {j}), a);
        Join(Join(t, b), a);
        { JoinSwap(t, b, a); }
        Join(Join(t, a), b);
        Join(Report(m, ids - {k}), b);
      }
    }
  }

  /** Every graded enrollment is listed, completed or not; an ungraded one
      never is. */
  lemma {:induction false} GradedRowsListed(m: map<Id, Row>, ids: set<Id>, k: Id)
    requires ids <= m.Keys && k in ids
    ensures m[k].grade.Some? ==>
              CourseGrade(m[k].courseTitle, m[k].grade.value.value, m[k].grade.value.completed) in Report(m, ids).listed
    ensures |Report(m, ids).listed| == |Report(m, ids - {k}).listed| + (if m[k].grade.Some? then 1 else 0)
  {
    ReportRemove(m, ids, k);
  }

  /** A row that adds no course to the count: ungraded, or graded but not
      completed. */
  predicate Uncounted(row: Row)
  {
    row.grade.None? || !row.grade.value.completed
  }

  lemma UncountedSplit(m: map<Id, Row>, ids: set<Id>, k: Id)
    requires ids <= m.Keys && k in ids
    ensures (forall j :: j in ids ==> Uncounted(m[j])) <==>
              (forall j :: j in ids - {k} ==> Uncounted(m[j])) && Uncounted(m[k])
  {
    if (forall j :: j in ids - {k} ==> Uncounted(m[j])) && Uncounted(m[k]) {
      forall j | j in ids ensures Uncounted(m[j]) {
        if j != k { assert j in ids - {k}; }
      }
    }
  }

  /** No grade is counted exactly when none of the graded enrollments is
      completed: ungraded enrollments and grades not completed do not count. */
  lemma {:induction false} ReportCountsCompleted(m: map<Id, Row>, ids: set<Id>)
    requires ids <= m.Keys
    ensures Report(m, ids).courses == 0 <==> forall k :: k in ids ==> Uncounted(m[k])
    decreases ids
  {
    if ids != {} {
      var k :| k in ids;
      var rest := ids - {k};
      ReportRemove(m, ids, k);
      ReportCountsCompleted(m, rest);
      assert RowProgress(m[k]).courses == 0 <==> Uncounted(m[k]);
      UncountedSplit(m, ids, k);
    }
  }

  /** The mean of `points` tenths over `courses` courses, in hundredths and
      rounded half up as `Math.round(mean * 100) / 100` does. */
  function RoundedMean(points: int, courses: nat): (r: int)
    requires courses > 0
    ensures 2 * courses * r - courses <= 20 * points < 2 * courses * r + courses
  {
    (20 * points + courses) / (2 * courses)
  }

  /** The reported GPA: the rounded mean, or 0 when no grade was counted. */
  function ReportedGpa(p: Progress): (gpa: int)
    ensures p.courses == 0 ==> gpa == 0
    ensures 0 <= p.points <= 43 * p.courses ==> 0 <= gpa <= 430
  {
    if p.courses > 0 then
      var r := RoundedMean(p.points, p.courses);
      MeanBounds(p.points, p.courses, r);
      r
    else 0
  }

  lemma MeanBounds(points: int, courses: nat, r: int)
    requires courses > 0
    requires 2 * courses * r - courses <= 20 * points < 2 * courses * r + courses
    ensures 0 <= points <= 43 * courses ==> 0 <= r <= 430
  {
    if 0 <= points <= 43 * courses {
      assert courses * (2 * r + 1) == 2 * courses * r + courses;
      assert courses * (861 - 2 * r) == 861 * courses - 2 * courses * r;
      SignOfProduct(courses, 2 * r + 1);
      SignOfProduct(courses, 861 - 2 * r);
    }
  }

  /** A positive factor keeps the sign of the other. */
  lemma SignOfProduct(c: int, x: int)
    requires c > 0
    ensures c * x > 0 <==> x > 0
    ensures c * x >= 0 <==> x >= 0
  {
  }

  /** The enrollments `student.getEnrollments()` holds. */
  function EnrollmentsOf(db: Store, s: Id): (ids: set<Id>)
    reads db`enrollments
    ensures ids <= db.enrollments.Keys
  {
    db.StudentEnrollmentIds(s)
  }

  /** `getStudentProgress`: the student's name, one line per graded
      enrollment, and the rounded mean of the points of the completed grades. */
  method GetStudentProgress(db: Store, s: Id) returns (r: Result<StudentProgress>)
    requires db.Valid()
    ensures r.Err? <==> s !in db.students
    ensures r.Err? ==> r.error == NotFound
    ensures r.Ok? ==> ProgressReadable(db) && s in db.students
    ensures r.Ok? ==>
              var p := Report(Rows(db), EnrollmentsOf(db, s));
              r.value.studentName == FullName(db.students[s]) &&
              multiset(r.value.courseGrades) == p.listed && r.value.gpa == ReportedGpa(p)
    ensures r.Ok? ==> 0 <= r.value.gpa <= 430
  {
    if s !in db.students {
      return Err(NotFound);
    }
    StoreIsReadable(db);
    ghost var m := Rows(db);
    var progress := ProgressOf(db, s, m);
    r := Ok(progress);
  }

  /** A valid store holds everything the report reads. */
  lemma StoreIsReadable(db: Store)
    requires db.Valid()
    ensures ProgressReadable(db)
  {
  }

  /** The report of a stored student: the loop, then the rounding. */
  method ProgressOf(db: Store, s: Id, ghost m: map<Id, Row>) returns (progress: StudentProgress)
    requires ProgressReadable(db) && s in db.students && m == Rows(db)
    ensures var p := Report(m, EnrollmentsOf(db, s));
            progress.studentName == FullName(db.students[s]) &&
            multiset(progress.courseGrades) == p.listed && progress.gpa == ReportedGpa(p)
    ensures 0 <= progress.gpa <= 430
  {
    var totalPoints, totalGradedCourses, courseGrades := AccumulateProgress(db, EnrollmentsOf(db, s), m);
    var gpa := ReportedGpa(Progress(totalPoints, totalGradedCourses, multiset(courseGrades)));
    RowsOfStoreAccepted(db);
    ReportWithinScale(m, EnrollmentsOf(db, s));
    progress := StudentProgress(FullName(db.students[s]), gpa, courseGrades);
  }

  /** The loop of `getStudentProgress` over the enrollments `ids` names. */
  method AccumulateProgress(db: Store, ids: set<Id>, ghost m: map<Id, Row>)
    returns (totalPoints: int, totalGradedCourses: nat, courseGrades: seq<CourseGrade>)
    requires ProgressReadable(db) && ids <= db.enrollments.Keys && m == Rows(db)
    ensures ids <= m.Keys
    ensures Progress(totalPoints, totalGradedCourses, multiset(courseGrades)) == Report(m, ids)
  {
    totalPoints, totalGradedCourses, courseGrades := 0, 0, [];
    var todo := ids;
    NothingJoin(Report(m, ids));
    while todo != {}
      invariant todo <= ids
      invariant Report(m, ids) == Join(Progress(totalPoints, totalGradedCourses, multiset(courseGrades)), Report(m, todo))
      decreases todo
    {
      var k :| k in todo;
      ghost var before := Progress(totalPoints, totalGradedCourses, multiset(courseGrades));
      totalPoints, totalGradedCourses, courseGrades := VisitEnrollment(db, k, totalPoints, totalGradedCourses, courseGrades, m);
      ReportStep(m, ids, todo, k, before, Progress(totalPoints, totalGradedCourses, multiset(courseGrades)));
      todo := todo - {k};
    }
    assert Report(m, todo) == NoProgress;
    JoinNothing(Progress(totalPoints, totalGradedCourses, multiset(courseGrades)));
  }

  /** The body of the loop for one enrollment: a graded one is listed, and a
      completed grade adds its points and one course. */
  method VisitEnrollment(db: Store, k: Id, totalPoints: int, totalGradedCourses: nat, courseGrades: seq<CourseGrade>,
                         ghost m: map<Id, Row>)
    returns (totalPoints': int, totalGradedCourses': nat, courseGrades': seq<CourseGrade>)
    requires ProgressReadable(db) && k in db.enrollments && m == Rows(db)
    ensures k in m
    ensures Progress(totalPoints', totalGradedCourses', multiset(courseGrades')) ==
              Join(Progress(totalPoints, totalGradedCourses, multiset(courseGrades)), RowProgress(m[k]))
  {
    totalPoints', totalGradedCourses', courseGrades' := totalPoints, totalGradedCourses, courseGrades;
    var e := db.enrollments[k];
    if e.grade != null {
      assert db.grades[e.grade.id] == e.grade;
      var gradeValue := e.grade.gradeValue;
      var isCompleted := e.grade.isCourseCompleted;
      if isCompleted {
        totalPoints' := totalPoints' + ProgressPoints(gradeValue);
        totalGradedCourses' := totalGradedCourses' + 1;
      }
      courseGrades' := courseGrades' + [CourseGrade(db.courses[e.courseId].title, gradeValue, isCompleted)];
    } else {
      JoinNothing(Progress(totalPoints, totalGradedCourses, multiset(courseGrades)));
    }
  }

  lemma NothingJoin(p: Progress)
    ensures Join(NoProgress, p) == p
  {
    assert multiset{} + p.listed == p.listed;
  }

  lemma JoinNothing(p: Progress)
    ensures Join(p, NoProgress) == p
  {
    assert p.listed + multiset{} == p.listed;
  }

  /** One turn of the loop: taking enrollment `k` out of the unvisited ones and
      adding what its row contributes keeps the total. */
  lemma ReportStep(m: map<Id, Row>, ids: set<Id>, todo: set<Id>, k: Id, before: Progress, after: Progress)
    requires ids <= m.Keys && todo <= ids && k in todo
    requires Report(m, ids) == Join(before, Report(m, todo))
    requires after == Join(before, RowProgress(m[k]))
    ensures Report(m, ids) == Join(after, Report(m, todo - {k}))
  {
    ReportRemove(m, todo, k);
    JoinRegroup(before, Report(m, todo - {k}), RowProgress(m[k]));
  }

}
