/** The persistent tables of the engine, keyed by generated id, and the
    invariants the database schema and the services keep on them. */
module Database {
  import opened Common
  import opened CourseEntity
  import opened EnrollmentEntity
  import opened GradeValues

  /** A `Student` row, reduced to the columns the engine reads. */
  datatype Student = Student(firstName: string, lastName: string, email: string)

  class Store {
    var students: map<Id, Student>
    var courses: map<Id, Course>
    var enrollments: map<Id, Enrollment>
    var grades: map<Id, Grade>
    /** The identity generator: every id handed out so far is below it. */
    var nextId: Id

    /** Each course sits under its own id, keeps its declared bounds and lists
        only existing courses as prerequisites. */
    ghost predicate CoursesWellFormed()
      reads this`courses, courses.Values`credits, courses.Values`capacity, courses.Values`prerequisites
    {
      forall k :: k in courses ==>
        courses[k].id == k && courses[k].Valid() && courses[k].prerequisites <= courses.Keys
    }

    /** The `code` column is unique. */
    ghost predicate UniqueCodes()
      reads this`courses, courses.Values`code
    {
      forall k1, k2 :: k1 in courses && k2 in courses && courses[k1].code == courses[k2].code ==> k1 == k2
    }

    /** The `email` column is unique. */
    ghost predicate UniqueEmails()
      reads this`students
    {
      forall k1, k2 :: k1 in students && k2 in students && students[k1].email == students[k2].email ==> k1 == k2
    }

    /** Each enrollment sits under its own id and references an existing
        student and course. */
    ghost predicate EnrollmentsWellFormed()
      reads this`enrollments, this`students, this`courses
    {
      forall k :: k in enrollments ==>
        enrollments[k].id == k && enrollments[k].studentId in students && enrollments[k].courseId in courses
    }

    /** The unique (student_id, course_id) constraint: one row per pair,
        whatever its status. */
    ghost predicate UniquePairs()
      reads this`enrollments
    {
      forall k1, k2 ::
        (k1 in enrollments && k2 in enrollments &&
         enrollments[k1].studentId == enrollments[k2].studentId &&
         enrollments[k1].courseId == enrollments[k2].courseId) ==> k1 == k2
    }

    /** Every stored grade references a stored enrollment that references it
        back, and carries a value the pattern accepts. */
    ghost predicate GradesLinked()
      reads this`grades, this`enrollments, grades.Values`gradeValue, grades.Values`enrollment
      reads enrollments.Values`grade
    {
      forall k :: k in grades ==>
        var g := grades[k];
        g.id == k && MatchesGradePattern(g.gradeValue) &&
        g.enrollment != null && g.enrollment.id in enrollments &&
        enrollments[g.enrollment.id] == g.enrollment && g.enrollment.grade == g
    }

    /** Every grade an enrollment holds is stored and references it back. */
    ghost predicate EnrollmentGradesLinked()
      reads this`grades, this`enrollments, grades.Values`enrollment, enrollments.Values`grade
    {
      forall k :: k in enrollments && enrollments[k].grade != null ==>
        var g := enrollments[k].grade;
        g.id in grades && grades[g.id] == g && g.enrollment == enrollments[k]
    }

    ghost predicate IdsBelowNext()
      reads this`students, this`courses, this`enrollments, this`grades, this`nextId
    {
      (forall k :: k in students ==> k < nextId) &&
      (forall k :: k in courses ==> k < nextId) &&
      (forall k :: k in enrollments ==> k < nextId) &&
      (forall k :: k in grades ==> k < nextId)
    }

    /** No seat counter has gone negative. */
    ghost predicate CountersNonNegative()
      reads this`courses, courses.Values`enrolledStudents
    {
      forall k :: k in courses ==> 0 <= courses[k].enrolledStudents
    }

    /** What every operation keeps. */
    ghost predicate Consistent()
      reads this`students, this`courses, this`enrollments, this`grades, this`nextId
      reads courses.Values`credits, courses.Values`capacity, courses.Values`prerequisites, courses.Values`code
      reads grades.Values`gradeValue, grades.Values`enrollment, enrollments.Values`grade
    {
      CoursesWellFormed() && UniqueCodes() && UniqueEmails() &&
      EnrollmentsWellFormed() && UniquePairs() &&
      GradesLinked() && EnrollmentGradesLinked() && IdsBelowNext()
    }

    /** No course is its own direct prerequisite. */
    ghost predicate NoSelfPrerequisite()
      reads this`courses, courses.Values`prerequisites
    {
      forall k :: k in courses ==> k !in courses[k].prerequisites
    }

    /** The store invariant. It is written as a conditional rather than a
        conjunction so that the verifier proves it at a call site as two facts
        instead of one per quantified clause. */
    ghost predicate Valid()
      reads this`students, this`courses, this`enrollments, this`grades, this`nextId
      reads courses.Values`credits, courses.Values`capacity, courses.Values`prerequisites, courses.Values`code
      reads grades.Values`gradeValue, grades.Values`enrollment, enrollments.Values`grade
    {
      if Consistent() then NoSelfPrerequisite() else false
    }

    /** The seat bound 0 <= enrolledStudents <= capacity on every course. Every
        operation keeps it except a course update that lowers the capacity
        below the seats in use. */
    ghost predicate SeatsWithinCapacity()
      reads this`courses, courses.Values`enrolledStudents, courses.Values`capacity
    {
      forall k :: k in courses ==> 0 <= courses[k].enrolledStudents <= courses[k].capacity
    }

    constructor ()
      ensures students == map[] && courses == map[] && enrollments == map[] && grades == map[]
      ensures Valid() && SeatsWithinCapacity()
    {
      students := map[];
      courses := map[];
      enrollments := map[];
      grades := map[];
      nextId := 0;
    }

    /** Saves a new ACTIVE enrollment of student `s` in course `c` under the
        next id. */
    method InsertEnrollment(s: Id, c: Id, today: Day) returns (e: Enrollment)
      requires Valid()
      requires s in students && c in courses
      requires forall k :: k in enrollments ==> !(enrollments[k].studentId == s && enrollments[k].courseId == c)
      modifies this`enrollments, this`nextId
      ensures fresh(e)
      ensures e.id == old(nextId) && e.studentId == s && e.courseId == c && e.enrollmentDate == today
      ensures e.status == Active && e.grade == null && e.withdrawalReason == None && e.withdrawalDate == None
      ensures e.id !in old(enrollments) && enrollments == old(enrollments)[e.id := e]
      ensures old(SeatsWithinCapacity()) ==> SeatsWithinCapacity()
      ensures Valid()
    {
      e := new Enrollment(nextId, s, c, today);
      nextId := nextId + 1;
      enrollments := enrollments[e.id := e];
      ValidKeptByNewEnrollment(e);
    }

    /** Takes one seat in course `c`: `incrementEnrolledStudents`. */
    method TakeSeat(c: Id)
      requires Valid() && c in courses
      modifies {courses[c]}`enrolledStudents
      ensures courses[c].enrolledStudents == old(courses[c].enrolledStudents) + 1
      ensures forall k :: k in courses && k != c ==> courses[k].enrolledStudents == old(courses[k].enrolledStudents)
      ensures old(SeatsWithinCapacity() && courses[c].HasAvailableCapacity()) ==> SeatsWithinCapacity()
      ensures old(CountersNonNegative()) ==> CountersNonNegative()
      ensures Valid()
    {
      courses[c].IncrementEnrolledStudents();
      ValidKeptByFieldUpdates();
      CountersKept(c);
    }

    twostate lemma ValidKeptByNewEnrollment(new e: Enrollment)
      requires old(Valid())
      requires students == old(students) && courses == old(courses) && grades == old(grades)
      requires e.id == old(nextId) && nextId == old(nextId) + 1
      requires enrollments == old(enrollments)[e.id := e]
      requires e.grade == null && e.studentId in students && e.courseId in courses
      requires forall k :: k in old(enrollments) ==>
                 !(old(enrollments)[k].studentId == e.studentId && old(enrollments)[k].courseId == e.courseId)
      requires forall k :: k in courses ==>
                 courses[k].credits == old(courses[k].credits) && courses[k].capacity == old(courses[k].capacity) &&
                 courses[k].code == old(courses[k].code) && courses[k].prerequisites == old(courses[k].prerequisites)
      requires forall k :: k in old(enrollments) ==> unchanged(old(enrollments)[k])
      requires forall k :: k in grades ==> unchanged(grades[k])
      ensures Consistent() && NoSelfPrerequisite()
    {
      forall k | k in grades
        ensures grades[k].enrollment.id in enrollments && enrollments[grades[k].enrollment.id] == grades[k].enrollment
      {
        assert grades[k].enrollment.id in old(enrollments);
      }
    }

    /** Writes a new status on stored enrollment `id`. */
    method SetEnrollmentStatus(id: Id, status: EnrollmentStatus)
      requires Valid() && id in enrollments
      modifies {enrollments[id]}`status
      ensures enrollments[id].status == status
      ensures old(SeatsWithinCapacity()) ==> SeatsWithinCapacity()
      ensures Valid()
    {
      enrollments[id].status := status;
      ValidKeptByFieldUpdates();
    }

    /** Marks stored enrollment `id` WITHDRAWN, with the reason and the day. */
    method WithdrawEnrollment(id: Id, reason: Option<string>, today: Day)
      requires Valid() && id in enrollments
      modifies {enrollments[id]}`status, {enrollments[id]}`withdrawalReason, {enrollments[id]}`withdrawalDate
      ensures enrollments[id].status == Withdrawn
      ensures enrollments[id].withdrawalReason == reason && enrollments[id].withdrawalDate == Some(today)
      ensures old(SeatsWithinCapacity()) ==> SeatsWithinCapacity()
      ensures Valid()
    {
      var e := enrollments[id];
      e.status, e.withdrawalReason, e.withdrawalDate := Withdrawn, reason, Some(today);
      ValidKeptByFieldUpdates();
    }

    /** Gives back one seat in course `c`: `decrementEnrolledStudents`. */
    method ReleaseSeat(c: Id)
      requires Valid() && c in courses
      modifies {courses[c]}`enrolledStudents
      ensures courses[c].enrolledStudents == Released(old(courses[c].enrolledStudents))
      ensures forall k :: k in courses && k != c ==> courses[k].enrolledStudents == old(courses[k].enrolledStudents)
      ensures old(SeatsWithinCapacity()) ==> SeatsWithinCapacity()
      ensures old(CountersNonNegative()) ==> CountersNonNegative()
      ensures Valid()
    {
      courses[c].DecrementEnrolledStudents();
      ValidKeptByFieldUpdates();
      CountersKept(c);
    }

    /** The seat bounds of the other courses survive a step that changes the
        counter of course `c` alone. */
    twostate lemma CountersKept(c: Id)
      requires c in courses && courses == old(courses)
      requires forall k :: k in courses ==> courses[k].capacity == old(courses[k].capacity)
      requires forall k :: k in courses && k != c ==> courses[k].enrolledStudents == old(courses[k].enrolledStudents)
      ensures old(CountersNonNegative()) && courses[c].enrolledStudents >= 0 ==> CountersNonNegative()
      ensures old(SeatsWithinCapacity()) && 0 <= courses[c].enrolledStudents <= courses[c].capacity ==>
                SeatsWithinCapacity()
    {
    }

    /** The store stays valid across a step that changes no table and no link,
        no course column but the seat counter, and writes only accepted grade
        values. */
    twostate lemma ValidKeptByFieldUpdates()
      requires old(Valid())
      requires unchanged(this)
      requires forall k :: k in courses ==>
                 courses[k].credits == old(courses[k].credits) && courses[k].capacity == old(courses[k].capacity) &&
                 courses[k].code == old(courses[k].code) && courses[k].prerequisites == old(courses[k].prerequisites)
      requires forall k :: k in grades ==>
                 grades[k].enrollment == old(grades[k].enrollment) && MatchesGradePattern(grades[k].gradeValue)
      requires forall k :: k in enrollments ==> enrollments[k].grade == old(enrollments[k].grade)
      ensures Consistent() && NoSelfPrerequisite()
    {
    }

    /** The course stored under `c`, if any: the frame of an operation that
        may change that course's seat counter. */
    function CourseFrame(c: Id): set<Course>
      reads this`courses
    {
      if c in courses then {courses[c]} else {}
    }

    /** The enrollment stored under `id`, if any. */
    function EnrollmentFrame(id: Id): set<Enrollment>
      reads this`enrollments
    {
      if id in enrollments then {enrollments[id]} else {}
    }

    /** The course of the enrollment stored under `id`, if any. */
    function CourseOfEnrollmentFrame(id: Id): set<Course>
      reads this`enrollments, this`courses
    {
      if id in enrollments then CourseFrame(enrollments[id].courseId) else {}
    }

    /** The ids of the grades attached to the enrollments `ids` names. */
    function AttachedGradeIds(ids: set<Id>): (gs: set<Id>)
      reads this`enrollments, enrollments.Values`grade
      ensures forall k :: k in ids && k in enrollments && enrollments[k].grade != null ==> enrollments[k].grade.id in gs
      ensures forall g :: g in gs ==>
                exists k :: k in ids && k in enrollments && enrollments[k].grade != null && enrollments[k].grade.id == g
    {
      set k | k in ids && k in enrollments && enrollments[k].grade != null :: enrollments[k].grade.id
    }

    /** Deletes the enrollments `ids` names together with their grades, as the
        cascade from an enrollment to its grade does. */
    method RemoveEnrollments(ids: set<Id>)
      requires Valid()
      modifies this`enrollments, this`grades
      ensures enrollments == old(enrollments) - ids
      ensures grades == old(grades) - old(AttachedGradeIds(ids))
      ensures old(AttachedGradeIds(ids)) == {} ==> grades == old(grades)
      ensures old(SeatsWithinCapacity()) ==> SeatsWithinCapacity()
      ensures Valid()
    {
      var gone := AttachedGradeIds(ids);
      if gone == {} {
        RemovingNothing(grades, gone);
      }
      grades := grades - gone;
      enrollments := enrollments - ids;
      ValidKeptByRemoval(ids, gone);
    }

    /** Removing enrollments together with exactly their grades keeps the
        store valid. */
    twostate lemma ValidKeptByRemoval(new ids: set<Id>, new gone: set<Id>)
      requires old(Valid())
      requires students == old(students) && courses == old(courses) && nextId == old(nextId)
      requires gone == old(AttachedGradeIds(ids))
      requires enrollments == old(enrollments) - ids && grades == old(grades) - gone
      requires forall k :: k in courses ==> unchanged(courses[k])
      requires forall k :: k in old(grades) ==> unchanged(old(grades)[k])
      requires forall k :: k in old(enrollments) ==> unchanged(old(enrollments)[k])
      ensures Consistent() && NoSelfPrerequisite()
    {
      forall k | k in grades
        ensures grades[k].enrollment.id in enrollments
      {
        var e := grades[k].enrollment;
        assert old(enrollments)[e.id].grade == grades[k];
        assert e.id in ids ==> k in gone;
      }
      forall k | k in enrollments && enrollments[k].grade != null
        ensures enrollments[k].grade.id in grades
      {
        var g := enrollments[k].grade;
        forall k' | k' in ids && k' in old(enrollments) && old(enrollments)[k'].grade != null
          ensures old(enrollments)[k'].grade.id != g.id
        {
          assert old(enrollments)[k'].grade.enrollment == old(enrollments)[k'];
          assert old(enrollments)[k'].id == k' != k;
        }
      }
    }

    static lemma RemovingNothing<T>(m: map<Id, T>, none: set<Id>)
      requires none == {}
      ensures m - none == m
    {
      assert (m - none).Keys == m.Keys;
    }

    /** Saves a new course under the next id: `code` is one no stored course
        has, the bounds hold, and every prerequisite is a stored course. */
    method InsertCourse(code: string, title: string, credits: int, capacity: int, prerequisites: set<Id>)
      returns (c: Course)
      requires Valid()
      requires forall k :: k in courses ==> courses[k].code != code
      requires DeclaredBounds(credits, capacity) && prerequisites <= courses.Keys
      modifies this`courses, this`nextId
      ensures fresh(c) && c.id == old(nextId) && c.id !in old(courses) && courses == old(courses)[c.id := c]
      ensures c.code == code && c.title == title && c.credits == credits && c.capacity == capacity
      ensures c.enrolledStudents == 0 && c.prerequisites == prerequisites
      ensures old(SeatsWithinCapacity()) ==> SeatsWithinCapacity()
      ensures Valid()
    {
      c := NewCourse(nextId, code, title, credits, capacity, prerequisites);
      nextId := nextId + 1;
      courses := courses[c.id := c];
      ValidKeptByNewCourse(c);
    }

    /** A course as `createCourse` builds it: the request's columns over the
        defaults, and no seat taken. */
    static method NewCourse(id: Id, code: string, title: string, credits: int, capacity: int, prerequisites: set<Id>)
      returns (c: Course)
      ensures fresh(c) && c.id == id && c.code == code && c.title == title
      ensures c.credits == credits && c.capacity == capacity
      ensures c.enrolledStudents == 0 && c.prerequisites == prerequisites
    {
      c := new Course(id, code, title);
      c.credits, c.capacity, c.prerequisites := credits, capacity, prerequisites;
    }

    twostate lemma ValidKeptByNewCourse(new c: Course)
      requires old(Valid())
      requires students == old(students) && enrollments == old(enrollments) && grades == old(grades)
      requires c.id == old(nextId) && nextId == old(nextId) + 1 && courses == old(courses)[c.id := c]
      requires DeclaredBounds(c.credits, c.capacity) && c.prerequisites <= old(courses).Keys
      requires forall k :: k in old(courses) ==> old(courses)[k].code != c.code
      requires forall k :: k in old(courses) ==> unchanged(old(courses)[k])
      requires forall k :: k in enrollments ==> unchanged(enrollments[k])
      requires forall k :: k in grades ==> unchanged(grades[k])
      ensures Consistent() && NoSelfPrerequisite()
    {
    }

    /** Overwrites the columns of stored course `id` other than its seat
        counter; `code` is one no other stored course has, the bounds hold,
        and the prerequisites are stored courses other than `id`. */
    method RewriteCourse(id: Id, code: string, title: string, credits: int, capacity: int, prerequisites: set<Id>)
      requires Valid() && id in courses
      requires forall k :: k in courses && k != id ==> courses[k].code != code
      requires DeclaredBounds(credits, capacity) && prerequisites <= courses.Keys && id !in prerequisites
      modifies {courses[id]}`code, {courses[id]}`title, {courses[id]}`credits, {courses[id]}`capacity
      modifies {courses[id]}`prerequisites
      ensures courses[id].code == code && courses[id].title == title
      ensures courses[id].credits == credits && courses[id].capacity == capacity
      ensures courses[id].prerequisites == prerequisites
      ensures old(SeatsWithinCapacity()) && old(courses[id].enrolledStudents) <= capacity ==> SeatsWithinCapacity()
      ensures Valid()
    {
      var c := courses[id];
      c.code, c.title, c.credits, c.capacity, c.prerequisites := code, title, credits, capacity, prerequisites;
      ValidKeptByCourseRewrite(id);
      SeatsKeptByCapacityChange(id);
    }

    /** The seat bound survives a step that changes the capacity of course
        `id` alone, to no less than its seats in use. */
    twostate lemma SeatsKeptByCapacityChange(id: Id)
      requires old(CoursesWellFormed()) && id in courses && courses == old(courses)
      requires forall k :: k in courses && k != id ==>
                 courses[k].capacity == old(courses[k].capacity) &&
                 courses[k].enrolledStudents == old(courses[k].enrolledStudents)
      requires courses[id].enrolledStudents == old(courses[id].enrolledStudents)
      ensures old(SeatsWithinCapacity()) && courses[id].enrolledStudents <= courses[id].capacity ==>
                SeatsWithinCapacity()
    {
    }

    twostate lemma ValidKeptByCourseRewrite(new id: Id)
      requires old(Valid()) && id in courses
      requires unchanged(this)
      requires DeclaredBounds(courses[id].credits, courses[id].capacity)
      requires courses[id].prerequisites <= courses.Keys && id !in courses[id].prerequisites
      requires forall k :: k in courses && k != id ==> courses[k].code != courses[id].code
      requires forall k :: k in courses && k != id ==> unchanged(courses[k])
      requires forall k :: k in enrollments ==> unchanged(enrollments[k])
      requires forall k :: k in grades ==> unchanged(grades[k])
      ensures Consistent() && NoSelfPrerequisite()
    {
    }

    /** Sets the capacity of stored course `id` to a value the bounds allow. */
    method SetCapacity(id: Id, capacity: int)
      requires Valid() && id in courses && MinCapacity <= capacity
      modifies {courses[id]}`capacity
      ensures courses[id].capacity == capacity
      ensures old(SeatsWithinCapacity()) && old(courses[id].enrolledStudents) <= capacity ==> SeatsWithinCapacity()
      ensures Valid()
    {
      courses[id].capacity := capacity;
      SeatsKeptByCapacityChange(id);
    }

    /** Adds stored course `p`, other than `id`, to the prerequisites of stored course `id`. */
    method AddPrerequisiteTo(id: Id, p: Id)
      requires Valid() && id in courses && p in courses && p != id
      modifies {courses[id]}`prerequisites
      ensures courses[id].prerequisites == old(courses[id].prerequisites) + {p}
      ensures old(SeatsWithinCapacity()) ==> SeatsWithinCapacity()
      ensures Valid()
    {
      courses[id].AddPrerequisite(p);
    }

    /** Takes `p` out of the prerequisites of stored course `id`. */
    method RemovePrerequisiteFrom(id: Id, p: Id)
      requires Valid() && id in courses
      modifies {courses[id]}`prerequisites
      ensures courses[id].prerequisites == old(courses[id].prerequisites) - {p}
      ensures old(SeatsWithinCapacity()) ==> SeatsWithinCapacity()
      ensures Valid()
    {
      courses[id].RemovePrerequisite(p);
    }

    /** The ids of the stored enrollments in course `c`. */
    function CourseEnrollmentIds(c: Id): (ids: set<Id>)
      reads this`enrollments
      ensures ids <= enrollments.Keys
    {
      set k | k in enrollments && enrollments[k].courseId == c
    }

    /** Deletes stored course `id`, which no enrollment and no course's
        prerequisites reference any more. */
    method RemoveCourse(id: Id)
      requires Valid() && id in courses && CourseEnrollmentIds(id) == {}
      requires forall k :: k in courses ==> id !in courses[k].prerequisites
      modifies this`courses
      ensures courses == old(courses) - {id}
      ensures old(SeatsWithinCapacity()) ==> SeatsWithinCapacity()
      ensures Valid()
    {
      courses := courses - {id};
      ValidKeptByCourseRemoval(id);
    }

    /** Removing a course that no enrollment and no other course references
        keeps the store valid. */
    twostate lemma ValidKeptByCourseRemoval(new id: Id)
      requires old(Valid()) && old(CourseEnrollmentIds(id)) == {}
      requires students == old(students) && enrollments == old(enrollments) && grades == old(grades)
      requires nextId == old(nextId) && courses == old(courses) - {id}
      requires forall k :: k in courses ==> id !in courses[k].prerequisites
      requires forall k :: k in old(courses) ==> unchanged(old(courses)[k])
      requires forall k :: k in old(grades) ==> unchanged(old(grades)[k])
      requires forall k :: k in old(enrollments) ==> unchanged(old(enrollments)[k])
      ensures Consistent() && NoSelfPrerequisite()
    {
      forall k | k in enrollments
        ensures enrollments[k].courseId in courses
      {
        assert k !in old(CourseEnrollmentIds(id));
      }
    }

    /** The ids of the stored enrollments of student `s`. */
    function StudentEnrollmentIds(s: Id): (ids: set<Id>)
      reads this`enrollments
      ensures ids <= enrollments.Keys
    {
      set k | k in enrollments && enrollments[k].studentId == s
    }

    /** Saves a student whose email no stored student has, under the next id. */
    method InsertStudent(st: Student) returns (id: Id)
      requires Valid()
      requires forall k :: k in students ==> students[k].email != st.email
      modifies this`students, this`nextId
      ensures id == old(nextId) && id !in old(students) && students == old(students)[id := st]
      ensures Valid()
    {
      id := nextId;
      nextId := nextId + 1;
      students := students[id := st];
    }

    /** Overwrites stored student `id` with `st`, whose email no other stored
        student has. */
    method ReplaceStudent(id: Id, st: Student)
      requires Valid() && id in students
      requires forall k :: k in students && k != id ==> students[k].email != st.email
      modifies this`students
      ensures students == old(students)[id := st]
      ensures Valid()
    {
      students := students[id := st];
    }

    /** Deletes stored student `id`, who no longer has enrollments. */
    method RemoveStudent(id: Id)
      requires Valid() && id in students && StudentEnrollmentIds(id) == {}
      modifies this`students
      ensures students == old(students) - {id}
      ensures Valid()
    {
      students := students - {id};
      ValidKeptByStudentRemoval(id);
    }

    /** Removing a student who has no enrollment keeps the store valid. */
    twostate lemma ValidKeptByStudentRemoval(new id: Id)
      requires old(Valid()) && old(StudentEnrollmentIds(id)) == {}
      requires courses == old(courses) && enrollments == old(enrollments) && grades == old(grades)
      requires nextId == old(nextId) && students == old(students) - {id}
      requires forall k :: k in courses ==> unchanged(courses[k])
      requires forall k :: k in grades ==> unchanged(grades[k])
      requires forall k :: k in enrollments ==> unchanged(enrollments[k])
      ensures Consistent() && NoSelfPrerequisite()
    {
      forall k | k in enrollments
        ensures enrollments[k].studentId in students
      {
        assert k !in old(StudentEnrollmentIds(id));
      }
    }

    /** The grade stored under `id`, if any. */
    function GradeFrame(id: Id): set<Grade>
      reads this`grades
    {
      if id in grades then {grades[id]} else {}
    }

    /** The enrollment the grade stored under `id` references, if any. */
    function GradeEnrollmentFrame(id: Id): set<Enrollment>
      reads this`grades, grades.Values`enrollment
    {
      if id in grades && grades[id].enrollment != null then {grades[id].enrollment} else {}
    }

    /** The grade the enrollment stored under `id` holds, if any. */
    function EnrollmentGradeFrame(id: Id): set<Grade>
      reads this`enrollments, enrollments.Values`grade
    {
      if id in enrollments && enrollments[id].grade != null then {enrollments[id].grade} else {}
    }

    /** Saves a new grade for the ungraded enrollment `eid` under the next id,
        linked to it in both directions; with `mark` the grade is completed on
        `today` before it is saved, which completes the enrollment too. */
    method InsertGrade(eid: Id, value: string, comments: Option<string>, mark: bool, today: Day)
      returns (g: Grade)
      requires Valid() && eid in enrollments && enrollments[eid].grade == null
      requires MatchesGradePattern(value)
      modifies this`grades, this`nextId, EnrollmentFrame(eid)`grade, EnrollmentFrame(eid)`status
      ensures fresh(g)
      ensures g.id == old(nextId) && g.id !in old(grades) && grades == old(grades)[g.id := g]
      ensures g.gradeValue == value && g.comments == comments
      ensures g.isCourseCompleted == mark && g.gradedDate == (if mark then Some(today) else None)
      ensures g.enrollment == enrollments[eid] && enrollments[eid].grade == g
      ensures enrollments[eid].status == (if mark then Completed else old(enrollments[eid].status))
      ensures old(SeatsWithinCapacity()) ==> SeatsWithinCapacity()
      ensures Valid()
    {
      var e := enrollments[eid];
      g := NewGradeFor(e, nextId, value, comments, mark, today);
      nextId := nextId + 1;
      grades := grades[g.id := g];
      ValidKeptByNewGrade(g, e);
    }

    /** Builds a grade for the ungraded enrollment `e`, links the two and, with
        `mark`, completes it. */
    static method NewGradeFor(e: Enrollment, id: Id, value: string, comments: Option<string>, mark: bool, today: Day)
      returns (g: Grade)
      requires e.grade == null
      modifies e`grade, e`status
      ensures fresh(g)
      ensures g.id == id && g.gradeValue == value && g.comments == comments
      ensures g.isCourseCompleted == mark && g.gradedDate == (if mark then Some(today) else None)
      ensures g.enrollment == e && e.grade == g
      ensures e.status == (if mark then Completed else old(e.status))
    {
      g := new Grade(id, value, comments);
      g.enrollment := e;
      if mark {
        g.MarkAsCompleted(today);
      }
      e.SetGrade(g);
    }

    twostate lemma ValidKeptByNewGrade(new g: Grade, e: Enrollment)
      requires old(Valid())
      requires students == old(students) && courses == old(courses) && enrollments == old(enrollments)
      requires g.id == old(nextId) && nextId == old(nextId) + 1 && grades == old(grades)[g.id := g]
      requires MatchesGradePattern(g.gradeValue)
      requires e.id in enrollments && enrollments[e.id] == e && old(e.grade) == null
      requires g.enrollment == e && e.grade == g
      requires forall k :: k in enrollments && k != e.id ==> enrollments[k].grade == old(enrollments[k].grade)
      requires forall k :: k in old(grades) ==> unchanged(old(grades)[k])
      requires forall k :: k in courses ==> unchanged(courses[k])
      ensures Consistent() && NoSelfPrerequisite()
    {
      forall k | k in old(grades)
        ensures grades[k].enrollment != e
      {
        assert old(grades[k].enrollment.grade) == grades[k];
      }
      forall k | k in enrollments && k != e.id && enrollments[k].grade != null
        ensures enrollments[k].grade.id != g.id && grades[enrollments[k].grade.id] == enrollments[k].grade
      {
        assert old(enrollments[k].grade.id) in old(grades);
      }
    }

    /** Writes the value and the comments of the stored grade `g`, each when
        given; a given value is one the pattern accepts. */
    method SetGradeText(g: Grade, value: Option<string>, comments: Option<string>)
      requires Valid() && g.id in grades && grades[g.id] == g
      requires value.Some? ==> MatchesGradePattern(value.value)
      modifies g`gradeValue, g`comments
      ensures g.enrollment != null && g.State() == WithText(old(g.State()), value, comments)
      ensures old(SeatsWithinCapacity()) ==> SeatsWithinCapacity()
      ensures Valid()
    {
      g.SetText(value, comments);
      ValidKeptByGradeWrite(g);
    }

    /** Sets the completion flag of the stored grade `g` to `mark`. Completing a
        grade that was not completed dates it `today` and completes its
        enrollment; clearing the flag changes nothing else. */
    method SetGradeCompletion(g: Grade, mark: bool, today: Day)
      requires Valid() && g.id in grades && grades[g.id] == g
      modifies g`isCourseCompleted, g`gradedDate, {g.enrollment}`status
      ensures g.enrollment != null && g.State() == WithCompletion(old(g.State()), mark, today)
      ensures old(SeatsWithinCapacity()) ==> SeatsWithinCapacity()
      ensures Valid()
    {
      g.SetCompletion(mark, today);
      ValidKeptByGradeWrite(g);
    }

    /** The store stays valid across a write to the columns of stored grade
        `g` (and the status of enrollments) that keeps its value accepted and
        its link in place. */
    twostate lemma ValidKeptByGradeWrite(g: Grade)
      requires old(Valid()) && unchanged(this)
      requires g.id in grades && grades[g.id] == g
      requires MatchesGradePattern(g.gradeValue) && g.enrollment == old(g.enrollment)
      requires forall k :: k in grades && grades[k] != g ==> unchanged(grades[k])
      requires forall k :: k in courses ==> unchanged(courses[k])
      requires forall k :: k in enrollments ==> enrollments[k].grade == old(enrollments[k].grade)
      ensures Consistent() && NoSelfPrerequisite()
    {
    }

    /** Deletes stored grade `id` after detaching it from its enrollment. */
    method RemoveGrade(id: Id)
      requires Valid() && id in grades
      modifies this`grades, GradeEnrollmentFrame(id)`grade, GradeFrame(id)`enrollment
      ensures grades == old(grades) - {id}
      ensures old(grades[id].enrollment) != null && old(grades[id].enrollment).grade == null
      ensures old(SeatsWithinCapacity()) ==> SeatsWithinCapacity()
      ensures Valid()
    {
      grades[id].enrollment.SetGrade(null);
      grades := grades - {id};
      ValidKeptByGradeRemoval(id);
    }

    twostate lemma ValidKeptByGradeRemoval(new id: Id)
      requires old(Valid())
      requires students == old(students) && courses == old(courses) && enrollments == old(enrollments)
      requires nextId == old(nextId)
      requires id in old(grades) && grades == old(grades) - {id}
      requires old(grades[id].enrollment) != null && old(grades[id].enrollment).grade == null
      requires forall k :: k in enrollments && k != old(grades[id].enrollment.id) ==>
                 enrollments[k].grade == old(enrollments[k].grade)
      requires forall k :: k in grades ==> unchanged(grades[k])
      requires forall k :: k in courses ==> unchanged(courses[k])
      ensures Consistent() && NoSelfPrerequisite()
    {
      forall k | k in grades
        ensures grades[k].enrollment != old(grades[id].enrollment)
      {
        assert old(grades[k].enrollment.grade) == grades[k];
      }
    }

  }
}
