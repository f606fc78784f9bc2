# School management: the enrollment and grading engine

This project models the enrollment and grading engine of a school
management backend, a Spring service over a relational database. Students
enroll in courses that have a capacity and prerequisites. Their
enrollments move through the states ACTIVE, DROPPED, COMPLETED, FAILED
and WITHDRAWN. Grades are recorded against enrollments, and the services
compute grade-point averages and a progress report.

The model mirrors the program's structure:

- `common.dfy` (`Common`): identifiers, days, the `Option`/`Result`
  wrappers and one error constructor per exception the services throw.
- `course.dfy` (`CourseEntity`): the `Course` entity as a class whose
  seat counter and prerequisite set its methods update in place.
- `enrollment.dfy` (`EnrollmentEntity`): the `Enrollment` and `Grade`
  entities as classes. Each refers to the other: an enrollment holds its
  grade, and a grade holds its enrollment.
- `grade_values.dfy` (`GradeValues`): the grade pattern, the entity's
  grade-point table and its notion of a passing grade.
- `data_import.dfy` (`DataImportEntity`): the status machine and record
  counters of a bulk import.
- `store.dfy` (`Database`): the tables as a `Store` class with one map
  per table, keyed by generated id. `Store.Valid()` holds the schema
  constraints:
  - foreign keys;
  - unique course codes and student emails;
  - one enrollment per (student, course) pair;
  - the two-way link between a grade and its enrollment;
  - the bean-validation bounds on credits and capacity.

  Every table write goes through a `Store` method that keeps `Valid()`.
  Each such method also keeps the seat bound
  `0 <= enrolledStudents <= capacity` whenever it held before the write.
- `enrollment_repository.dfy` (`EnrollmentRepository`): the repository's
  queries as set comprehensions over the enrollment table, and its two
  bulk statements as methods.
- `enrollment_service.dfy`, `grade_service.dfy`, `student_service.dfy`,
  `course_service.dfy` and `school_management_service.dfy`: each service
  operation as a method on a `Store`.
  - Every operation that can fail returns a `Result`.
  - A failing call leaves the store as it was, as the surrounding
    transaction's rollback does.
  - The exact reason for a refusal is a function of the state before the
    call, and that function lists the checks in the order the service
    makes them.

Grade points are integer tenths (4.0 is 40). The progress report's GPA is
in hundredths, and its round-half-up is computed exactly. The clock is
never read: every operation that stamps a day or an instant takes it as a
parameter.

## Model

| member | source | states |
|---|---|---|
| CourseEntity.Course.constructor | src/main/java/com/example/school/entity/Course.java:33-50 | A new course has 3 credits, 30 seats, no seat taken and no prerequisites, and satisfies the declared bounds |
| CourseEntity.Course.IncrementEnrolledStudents | src/main/java/com/example/school/entity/Course.java:78-80 | The counter goes up by one; if a seat was available, the counter stays within the capacity |
| CourseEntity.Released | src/main/java/com/example/school/entity/Course.java:83-87 | Releasing a seat never takes a non-negative counter below zero or above its old value, and it changes the counter exactly when the counter was positive |
| CourseEntity.Course.DecrementEnrolledStudents | src/main/java/com/example/school/entity/Course.java:83-87 | The counter becomes `Released` of its old value, so it stays between zero and its old value |
| CourseEntity.Course.AddPrerequisite | src/main/java/com/example/school/entity/Course.java:63-65 | The prerequisite set gains the course, and nothing else changes |
| CourseEntity.Course.RemovePrerequisite | src/main/java/com/example/school/entity/Course.java:68-70 | The prerequisite set loses the course, and nothing else changes |
| EnrollmentEntity.Enrollment.constructor | src/main/java/com/example/school/entity/Enrollment.java:25-54 | A new enrollment is ACTIVE, has no grade and no withdrawal data |
| EnrollmentEntity.Enrollment.SetGrade | src/main/java/com/example/school/entity/Enrollment.java:64-73 | The grade is attached and points back here. Detaching clears the back-reference of the grade that was attached; replacing one grade with another leaves the old grade's link as it was |
| EnrollmentEntity.Grade.constructor | src/main/java/com/example/school/entity/Grade.java:17-38 | A new grade holds the given value and comments, is not completed, not dated and not linked |
| EnrollmentEntity.Grade.MarkAsCompleted | src/main/java/com/example/school/entity/Grade.java:78-84 | The grade becomes completed and dated today, and a linked enrollment becomes COMPLETED |
| EnrollmentEntity.WithText | src/main/java/com/example/school/service/impl/GradeServiceImpl.java:148-164 | Replacing the text keeps the completion flag, the date and the enrollment status, and an empty request keeps everything |
| EnrollmentEntity.WithCompletion | src/main/java/com/example/school/service/impl/GradeServiceImpl.java:167-173 | Setting the completion flag keeps the value and the comments, and asking for the current flag changes nothing |
| EnrollmentEntity.Grade.SetText | src/main/java/com/example/school/service/impl/GradeServiceImpl.java:148-164 | The grade's state after the write is `WithText` of its state before it |
| EnrollmentEntity.Grade.SetCompletion | src/main/java/com/example/school/service/impl/GradeServiceImpl.java:167-173 | The grade's state after the write is `WithCompletion` of its state before it |
| EnrollmentEntity.Grade.UnmarkAsCompleted | src/main/java/com/example/school/service/impl/GradeServiceImpl.java:172 | The completion flag is cleared |
| GradeValues.PatternAcceptsExactly | src/main/java/com/example/school/entity/Grade.java:22 | The grade pattern, matched against the whole value, accepts exactly the seventeen values A+, A, A-, B+, …, D-, F, P, NP, I and W |
| GradeValues.AcceptedAreListedPlusTwo | src/main/java/com/example/school/entity/Grade.java:22-23 | The pattern accepts A+ and D- on top of the fifteen values its message lists |
| GradeValues.EntityGradePoints | src/main/java/com/example/school/entity/Grade.java:48-68 | Points are between 0.0 and 4.0 and are given only to values the pattern accepts; the empty value, I and W get none |
| GradeValues.EntityTableCoverage | src/main/java/com/example/school/entity/Grade.java:48-68 | Among accepted values, the entity table has no points for exactly D-, I and W |
| GradeValues.PassingMeansPositivePoints | src/main/java/com/example/school/entity/Grade.java:71-75 | An accepted value passes exactly when it earns positive entity points, or is D- |
| DataImportEntity.DataImport.constructor | src/main/java/com/example/school/entity/DataImport.java:27-67 | A new import is PENDING with zeroed counters that balance |
| DataImportEntity.DataImport.StartProcessing | src/main/java/com/example/school/entity/DataImport.java:70-73 | The import is PROCESSING, with its start time stamped |
| DataImportEntity.DataImport.Complete | src/main/java/com/example/school/entity/DataImport.java:75-78 | The import is COMPLETED, with its end time stamped |
| DataImportEntity.DataImport.Fail | src/main/java/com/example/school/entity/DataImport.java:80-84 | The import is FAILED, with the error and the end time recorded |
| DataImportEntity.DataImport.IncrementProcessed | src/main/java/com/example/school/entity/DataImport.java:86-103 | One more record is processed and counted as a success or as a failure (a missing counter counts from zero). If processed equalled successes plus failures before, it still does |
| EnrollmentRepository.PairIds | src/main/java/com/example/school/repository/EnrollmentRepository.java:19-23 | The rows of a (student, course) pair are stored rows; under the unique constraint there is at most one |
| EnrollmentRepository.FindByStudentIdAndCourseId | src/main/java/com/example/school/repository/EnrollmentRepository.java:19-23 | Finds a row exactly when the pair has one, whatever its status, and that row is the pair's only one |
| EnrollmentRepository.ExistsActiveMeansFoundActive | src/main/java/com/example/school/repository/EnrollmentRepository.java:36-37 | An active enrollment of the pair exists exactly when the pair's row is found and is ACTIVE |
| EnrollmentRepository.ActiveEnrollmentIdsOfStudent | src/main/java/com/example/school/repository/EnrollmentRepository.java:25-26 | The student's active rows are stored rows, each an active enrollment of its course |
| EnrollmentRepository.ActiveEnrollmentsOnePerCourse | src/main/java/com/example/school/repository/EnrollmentRepository.java:25-26 | The student's active rows name pairwise different courses, and every course the student is active in is named by one of them |
| EnrollmentRepository.CompletedMeansFoundCompleted | src/main/java/com/example/school/repository/EnrollmentRepository.java:39-40 | A course is among the student's completed courses exactly when the pair's row is found and is COMPLETED |
| EnrollmentRepository.CountActiveEnrollmentsByCourseId | src/main/java/com/example/school/repository/EnrollmentRepository.java:52-53 | The count is at most the table size, and zero exactly when the course has no ACTIVE row |
| EnrollmentRepository.UpdateEnrollmentStatus | src/main/java/com/example/school/repository/EnrollmentRepository.java:42-45 | The bulk update reports one row touched exactly when the id is stored, sets that row's status and no other, and leaves seat counters alone |
| EnrollmentRepository.DeleteByStudentIdAndCourseId | src/main/java/com/example/school/repository/EnrollmentRepository.java:47-50 | The bulk delete fails on the foreign key exactly when a deleted row still holds a grade; otherwise the pair's rows are gone, nothing else is, and no grade is touched |
| EnrollmentService.HasStudentCompletedPrerequisites | src/main/java/com/example/school/service/impl/EnrollmentServiceImpl.java:190-210 | NotFound exactly for a missing course; otherwise true exactly when every direct prerequisite is a course the student has a COMPLETED row in |
| EnrollmentService.IsCourseFull | src/main/java/com/example/school/service/impl/EnrollmentServiceImpl.java:212-217 | NotFound exactly for a missing course; otherwise full exactly when the seats taken reach the capacity |
| EnrollmentService.GetAvailableSeats | src/main/java/com/example/school/service/impl/EnrollmentServiceImpl.java:219-224 | NotFound exactly for a missing course. A positive answer means exactly that the course is not full, and under the seat bound the answer lies between zero and the capacity |
| EnrollmentService.EnrollmentRefusal | src/main/java/com/example/school/service/impl/EnrollmentServiceImpl.java:79-112 | No refusal exactly when the student and the course exist, a seat is free, every prerequisite is completed and the pair has no row. AlreadyExists exactly when the student is active in the course; CapacityExceeded means no seat is free, and PrerequisiteNotMet that a seat is free but a prerequisite is missing |
| EnrollmentService.Admit | src/main/java/com/example/school/service/impl/EnrollmentServiceImpl.java:101-112 | A fresh ACTIVE row dated today is added under a new id, the course's counter goes up by one, and no other row is touched |
| EnrollmentService.EnrollStudent | src/main/java/com/example/school/service/impl/EnrollmentServiceImpl.java:75-113 | Fails exactly when `EnrollmentRefusal` names a reason, with that reason and nothing changed. Otherwise a fresh ACTIVE ungraded row dated today is added under a new id, and the course's counter goes up by one exactly on success. Either way every other course's checks come out as they were |
| EnrollmentService.AdmissionKeepsRefusals | src/main/java/com/example/school/service/impl/EnrollmentServiceImpl.java:101-112 | Admitting the student to one course leaves the checks of every other course as they were, so a loop over distinct courses meets each course's checks as they stood when it began |
| EnrollmentService.EnrollOrSkip | src/main/java/com/example/school/service/impl/EnrollmentServiceImpl.java:121-134 | The course is skipped exactly when it fails its checks, and then nothing changes. Otherwise exactly one row, for that course, is appended and stored under its new id; like every collected row it is ungraded, ACTIVE and dated today. Either way the other courses' checks are unchanged and the loop invariant is kept |
| EnrollmentService.TryNext | src/main/java/com/example/school/service/impl/EnrollmentServiceImpl.java:119-134 | The next requested course is admitted exactly when it passed its checks when the loop began. The collected rows stay the only rows added, for the courses tried so far that passed, in request order, and the courses still to try keep their checks |
| EnrollmentService.TryAll | src/main/java/com/example/school/service/impl/EnrollmentServiceImpl.java:115-134 | After the loop every requested course has been tried once in request order, and the collected rows are exactly the new rows, for exactly the requested courses that passed their checks when the loop began |
| EnrollmentService.CollectedMeans | src/main/java/com/example/school/service/impl/EnrollmentServiceImpl.java:115-141 | The collected rows name exactly the courses that passed at the start, in request order. None are collected exactly when no requested course passed, and then no row was added |
| EnrollmentService.EnrollStudentInCourses | src/main/java/com/example/school/service/impl/EnrollmentServiceImpl.java:115-141 | Fails exactly when every requested course fails its checks, and then nothing changed. Otherwise the student is enrolled in exactly the requested courses that pass their checks, in request order, each as a new ungraded ACTIVE stored row dated today. The old rows are kept and no other row is added, and a counter rises by one exactly for each admitted course |
| EnrollmentService.UpdateEnrollmentStatus | src/main/java/com/example/school/service/impl/EnrollmentServiceImpl.java:143-158 | NotFound exactly for a missing id. Otherwise the row takes the status, and the course's seat is released only for a move from ACTIVE to DROPPED |
| EnrollmentService.DropEnrollment | src/main/java/com/example/school/service/impl/EnrollmentServiceImpl.java:160-173 | NotFound exactly for a missing id. Otherwise the row and its grade are deleted, and the seat is released only if the row was ACTIVE |
| EnrollmentService.DropStudentFromCourse | src/main/java/com/example/school/service/impl/EnrollmentServiceImpl.java:175-183 | NotFound exactly when the pair has no row of any status. Otherwise that row and its grade go, and the seat is released only if it was ACTIVE |
| GradeService.GradeValidMeansAccepted | src/main/java/com/example/school/service/impl/GradeServiceImpl.java:258-273 | The service finds a value valid exactly when it is one of the seventeen accepted values; a value the pattern accepts always has text |
| GradeService.PatternHasText | src/main/java/com/example/school/service/impl/GradeServiceImpl.java:258-273 | Any value the entity's pattern accepts passes the service's validity check |
| GradeService.ConvertGradeToPoints | src/main/java/com/example/school/service/impl/GradeServiceImpl.java:275-300 | An illegal argument exactly for an invalid value; otherwise between 0.0 and 4.0 |
| GradeService.ConvertZeroes | src/main/java/com/example/school/service/impl/GradeServiceImpl.java:275-300 | Among accepted values, exactly F, NP, P, I, W, A+ and D- convert to 0.0 |
| GradeService.RecordRefusal | src/main/java/com/example/school/service/impl/GradeServiceImpl.java:76-98 | The checks in the service's order: a missing enrollment, one not ACTIVE, one already graded, an invalid value, then comments too long to save. With no refusal, the enrollment exists, is ACTIVE and ungraded, and the value is one of the seventeen accepted values |
| GradeService.IsCourseCompleted | src/main/java/com/example/school/service/impl/GradeServiceImpl.java:242-256 | NotFound exactly for a missing enrollment; otherwise whether its grade is marked completed |
| GradeService.RecordGrade | src/main/java/com/example/school/service/impl/GradeServiceImpl.java:70-130 | Fails exactly when `RecordRefusal` names a reason, changing nothing. Otherwise a new grade linked both ways is stored; with the completion mark the enrollment becomes COMPLETED and is reported completed; a second recording is then refused |
| GradeService.UpdateGrade | src/main/java/com/example/school/service/impl/GradeServiceImpl.java:132-184 | Fails exactly when `UpdateRefusal` names a reason: a missing grade, an enrollment not ACTIVE, a changed value that is invalid, or comments too long. A failure changes neither the grade nor its enrollment; on success the grade's state becomes `Revision` of the old one |
| GradeService.Revision | src/main/java/com/example/school/service/impl/GradeServiceImpl.java:148-173 | The completion flag becomes the request's. Completing a grade that was not complete dates it today and completes its enrollment, anything else keeps the date and the status, and absent fields are kept |
| GradeService.RevisionIdempotent | src/main/java/com/example/school/service/impl/GradeServiceImpl.java:132-184 | Sending the same update again, on any later day, changes nothing further |
| GradeService.EmptyRevisionKeeps | src/main/java/com/example/school/service/impl/GradeServiceImpl.java:148-173 | An update with no value, no comments and the current completion flag leaves the grade as it was |
| GradeService.DeleteGrade | src/main/java/com/example/school/service/impl/GradeServiceImpl.java:186-211 | NotFound exactly for a missing grade. Otherwise the grade is detached from its enrollment and deleted, and nothing else is. The enrollment keeps its status and reports not completed. A new grade is no longer refused as already recorded: for an ACTIVE enrollment it is accepted exactly when the value is valid and the comments fit, and an enrollment left COMPLETED is still refused as not active |
| GradeService.Contribution | src/main/java/com/example/school/service/impl/GradeServiceImpl.java:227-234 | A grade adds one course exactly when it is completed, and at most 4.0 points per course it adds |
| GradeService.TallyRemove | src/main/java/com/example/school/service/impl/GradeServiceImpl.java:227-234 | The accumulated total does not depend on the order the grades are visited in |
| GradeService.TallyWithinScale | src/main/java/com/example/school/service/impl/GradeServiceImpl.java:227-236 | The total is non-negative, at most 4.0 per counted course, and counts at most one course per grade, so the GPA lies in 0.0..4.0 |
| GradeService.TallyCountsCompleted | src/main/java/com/example/school/service/impl/GradeServiceImpl.java:227-236 | No course is counted, and the GPA is 0.0, exactly when no grade adds a course |
| GradeService.CompletedGradeIsCounted | src/main/java/com/example/school/service/impl/GradeServiceImpl.java:213-256 | A grade that `isCourseCompleted` reports completed makes its student's GPA count at least one course |
| GradeService.CalculateStudentGpa | src/main/java/com/example/school/service/impl/GradeServiceImpl.java:213-240 | The accumulated points and course count are the order-independent tally over the student's grades, within 0.0..4.0 per course |
| GradeService.AccumulateGpa | src/main/java/com/example/school/service/impl/GradeServiceImpl.java:227-234 | The loop's accumulators equal the tally over the grades visited |
| GradeService.GradeContribution | src/main/java/com/example/school/service/impl/GradeServiceImpl.java:228-233 | The loop body adds exactly the grade's contribution |
| StudentService.CreateStudent | src/main/java/com/example/school/service/impl/StudentServiceImpl.java:64-77 | AlreadyExists exactly when the email is in use, changing nothing; otherwise the student is stored under a new id |
| StudentService.UpdateStudent | src/main/java/com/example/school/service/impl/StudentServiceImpl.java:79-97 | NotFound for a missing student, and AlreadyExists exactly when the email changes to one in use. Otherwise the row takes the new values; keeping one's own email never fails |
| StudentService.EmailNamesOneStudent | src/main/java/com/example/school/service/impl/StudentServiceImpl.java:64-97 | In a valid store an email names exactly one student |
| StudentService.DeleteStudent | src/main/java/com/example/school/service/impl/StudentServiceImpl.java:99-109 | NotFound exactly for a missing student; otherwise the student, their enrollments and those enrollments' grades are deleted, and nothing else is |
| StudentService.ProgressPoints | src/main/java/com/example/school/service/impl/StudentServiceImpl.java:145-160 | The report gives any value between -0.3 and 4.3 points |
| StudentService.AcceptedPointsNonNegative | src/main/java/com/example/school/service/impl/StudentServiceImpl.java:145-160 | A value the pattern accepts never gets negative points |
| StudentService.ThreeTables | src/main/java/com/example/school/service/impl/StudentServiceImpl.java:145-160 | The report and the grade service's table agree on every accepted value except A+ and D-; the report and the entity's table agree except on A+, P, D-, I and W. The values where they differ: A+ is 4.3 in the report, 0.0 in the grade service and 4.0 in the entity; D- is 0.7 in the report, 0.0 in the grade service and has no entity points; P is 0.0 in the report and 2.0 in the entity |
| StudentService.ReportRemove | src/main/java/com/example/school/service/impl/StudentServiceImpl.java:138-173 | The report's totals and its list of lines do not depend on the order the enrollments are visited in |
| StudentService.ReportWithinScale | src/main/java/com/example/school/service/impl/StudentServiceImpl.java:138-173 | Over stored grades the points are non-negative and at most 4.3 per counted course, and at most one course is counted per enrollment |
| StudentService.GradedRowsListed | src/main/java/com/example/school/service/impl/StudentServiceImpl.java:139-172 | Every graded enrollment appears in the list, completed or not; an ungraded one never does |
| StudentService.ReportCountsCompleted | src/main/java/com/example/school/service/impl/StudentServiceImpl.java:139-164 | No course is counted exactly when no visited enrollment holds a completed grade |
| StudentService.RoundedMean | src/main/java/com/example/school/service/impl/StudentServiceImpl.java:176 | The result is the mean in hundredths, rounded half up: it lies within half a hundredth of the exact mean, below or on the boundary |
| StudentService.ReportedGpa | src/main/java/com/example/school/service/impl/StudentServiceImpl.java:176 | 0.00 when no course is counted; within 0.00..4.30 when the points are within scale |
| StudentService.GetStudentProgress | src/main/java/com/example/school/service/impl/StudentServiceImpl.java:121-185 | NotFound exactly for a missing student. Otherwise the report carries the full name, the lines and the rounded GPA of the order-independent report over the student's enrollments, and the GPA lies in 0.00..4.30 |
| StudentService.ProgressOf | src/main/java/com/example/school/service/impl/StudentServiceImpl.java:133-184 | For a stored student: the full name, the lines and the rounded GPA of the order-independent report over their enrollments, with the GPA in 0.00..4.30 |
| StudentService.AccumulateProgress | src/main/java/com/example/school/service/impl/StudentServiceImpl.java:138-173 | The loop's accumulators equal the report over the enrollments visited |
| StudentService.VisitEnrollment | src/main/java/com/example/school/service/impl/StudentServiceImpl.java:139-172 | The loop body adds exactly what the enrollment's row contributes |
| CourseService.PrerequisiteRefusal | src/main/java/com/example/school/service/impl/CourseServiceImpl.java:104-112 | No refusal exactly when the course is not among its own requested prerequisites and all of them are stored; an IllegalArgument means a self-reference, a NotFound a missing course |
| CourseService.CreateCourse | src/main/java/com/example/school/service/impl/CourseServiceImpl.java:60-84 | AlreadyExists exactly for a code in use, then a validation failure exactly for credits or capacity out of bounds. Otherwise it succeeds exactly when every prerequisite is an already stored course, so the new course never lists itself. The new course is stored under a new id with the request's columns and no seat taken, and a failure changes nothing |
| CourseService.UpdateCourse | src/main/java/com/example/school/service/impl/CourseServiceImpl.java:86-116 | Succeeds exactly when the course exists, the code is its own or free, the course is not its own prerequisite, every prerequisite is stored and the bounds hold. NotFound for a missing course, AlreadyExists exactly when the code changes to one in use, IllegalArgument only for a self-prerequisite. A failure leaves the course as it was. On success the columns and prerequisites are replaced and the seat counter is kept; the seat bound survives exactly unless the capacity drops below the seats taken |
| CourseService.CoursesRequiring | src/main/java/com/example/school/service/impl/CourseServiceImpl.java:125 | The courses that list the course as a prerequisite are stored courses |
| CourseService.DeleteCourse | src/main/java/com/example/school/service/impl/CourseServiceImpl.java:118-132 | NotFound exactly for a missing course, IllegalState exactly when another course requires it, either changing nothing. Otherwise the course, its enrollments and their grades are deleted, and nothing else is |
| CourseService.AddPrerequisite | src/main/java/com/example/school/service/impl/CourseServiceImpl.java:134-150 | IllegalArgument exactly for a self-reference, NotFound exactly for a missing course, and AlreadyExists exactly for a prerequisite already listed. It succeeds exactly when none of these holds, and then the course gains the prerequisite |
| CourseService.RemovePrerequisite | src/main/java/com/example/school/service/impl/CourseServiceImpl.java:152-164 | NotFound exactly when either course is missing or the prerequisite is not listed; otherwise the course loses it |
| CourseService.AddThenRemoveRestores | src/main/java/com/example/school/service/impl/CourseServiceImpl.java:134-164 | Calling `addPrerequisite` and then `removePrerequisite` on the same pair: when the add succeeds, the remove succeeds too and the course's prerequisite set is what it was before both calls. When the add fails, the remove succeeds exactly when the prerequisite was already listed |
| CourseService.RemoveThenAddRestores | src/main/java/com/example/school/service/impl/CourseServiceImpl.java:134-164 | Calling `removePrerequisite` and then `addPrerequisite` on the same pair: when the remove succeeds, the add succeeds too and the prerequisite set is what it was before both calls. When the remove fails, the add succeeds exactly when both courses exist, differ, and the prerequisite was not listed |
| CourseService.GetPrerequisites | src/main/java/com/example/school/service/impl/CourseServiceImpl.java:166-170 | NotFound exactly for a missing course. Otherwise a copy of its prerequisites, which in a valid store are stored courses other than itself |
| CourseService.HasAvailableCapacity | src/main/java/com/example/school/service/impl/CourseServiceImpl.java:182-186 | NotFound exactly for a missing course |
| CourseService.CapacityViewsAgree | src/main/java/com/example/school/service/impl/CourseServiceImpl.java:182-186 | The course service's capacity test is the negation of the enrollment service's `isCourseFull`, and holds exactly when a positive number of seats is available |
| SchoolManagementService.Failures | src/main/java/com/example/school/service/impl/SchoolManagementServiceImpl.java:47-92 | One failure per refused requested course, with the reason of the first check that course fails, and none for a course that passes |
| SchoolManagementService.EnrollNext | src/main/java/com/example/school/service/impl/SchoolManagementServiceImpl.java:73-85 | One pass adds the next requested course's row and takes one of its seats, keeping the loop invariant |
| SchoolManagementService.AdmitAll | src/main/java/com/example/school/service/impl/SchoolManagementServiceImpl.java:47-92 | Every requested course gets a new ACTIVE row dated today, in request order, and each of their counters rises by one |
| SchoolManagementService.AllRequestedAdmitted | src/main/java/com/example/school/service/impl/SchoolManagementServiceImpl.java:47-99 | Once a row exists for every requested course, the courses admitted are exactly those requested |
| SchoolManagementService.EnrollStudentInCourses | src/main/java/com/example/school/service/impl/SchoolManagementServiceImpl.java:40-100 | Fails exactly when some course fails its checks, naming every failure in request order and changing nothing. Otherwise it returns one new ACTIVE row per requested course, in order, and only those courses' counters rise, by one each |
| SchoolManagementService.RecordGradeAndUpdateEnrollment | src/main/java/com/example/school/service/impl/SchoolManagementServiceImpl.java:117-133 | Fails exactly as `recordGrade` does, changing nothing. Otherwise the grade is stored and linked, and the enrollment is COMPLETED exactly when the request marks completion |
| SchoolManagementService.DropStudentFromCourse | src/main/java/com/example/school/service/impl/SchoolManagementServiceImpl.java:135-140 | Same outcome as the enrollment service's drop: NotFound exactly when the pair has no row, otherwise the row and its grade go and an ACTIVE row's seat is released |
| SchoolManagementService.CapacityRefusal | src/main/java/com/example/school/service/impl/SchoolManagementServiceImpl.java:168-187 | No refusal exactly when the capacity is at least one, the course exists and the capacity covers the seats taken; IllegalArgument before the lookup, then NotFound, then CapacityExceeded exactly when the capacity is below the seats taken |
| SchoolManagementService.UpdateCourseCapacity | src/main/java/com/example/school/service/impl/SchoolManagementServiceImpl.java:168-187 | Fails exactly when `CapacityRefusal` names a reason. Otherwise only the capacity changes, and the seat bound of every course survives |
| SchoolManagementService.WithdrawRow | src/main/java/com/example/school/service/impl/SchoolManagementServiceImpl.java:150-152 | The row is WITHDRAWN with the reason and today's date, and the other rows keep their withdrawal columns |
| SchoolManagementService.ReleaseRowSeat | src/main/java/com/example/school/service/impl/SchoolManagementServiceImpl.java:155-159 | The row's course releases one seat, keeping the seat bound and the loop's record of released seats |
| SchoolManagementService.WithdrawNext | src/main/java/com/example/school/service/impl/SchoolManagementServiceImpl.java:149-162 | One pass withdraws the row and releases its course's seat, keeping the loop invariant |
| SchoolManagementService.WithdrawAll | src/main/java/com/example/school/service/impl/SchoolManagementServiceImpl.java:149-162 | Every visited row is withdrawn and every other row keeps its columns; each course of a visited row releases one seat, and every other counter is unchanged |
| SchoolManagementService.WithdrawalComplete | src/main/java/com/example/school/service/impl/SchoolManagementServiceImpl.java:142-166 | After the loop the student has no active row left, and the per-row and per-course results read in terms of the state before the call |
| SchoolManagementService.ProcessStudentWithdrawal | src/main/java/com/example/school/service/impl/SchoolManagementServiceImpl.java:142-166 | Every ACTIVE row of the student becomes WITHDRAWN with the reason and today's date, and every other row is unchanged. Each course the student was active in releases one seat, other counters are unchanged, and the student has no active row left |
| SchoolManagementService.RefusalAfterDrop | src/main/java/com/example/school/service/impl/SchoolManagementServiceImpl.java:102-115 | If the target passes its checks after the drop, the student and the target exist, a seat is free after the released one, and the target does not require the dropped course |
| SchoolManagementService.RefusalAfterDropElsewhere | src/main/java/com/example/school/service/impl/SchoolManagementServiceImpl.java:102-115 | Dropping a course that the target neither is nor requires leaves the target's checks as they were |
| SchoolManagementService.TransferOutOfPrerequisiteFails | src/main/java/com/example/school/service/impl/SchoolManagementServiceImpl.java:102-115 | A transfer out of a course into one that requires it always fails, with PrerequisiteNotMet once the earlier checks pass |
| SchoolManagementService.DropDecidesRefusal | src/main/java/com/example/school/service/impl/SchoolManagementServiceImpl.java:102-113 | After the drop, the enrollment checks of the target give what `RefusalAfterDrop` computed before it |
| SchoolManagementService.DropPair | src/main/java/com/example/school/service/impl/SchoolManagementServiceImpl.java:106 | The pair's row and its grade go, an ACTIVE row's seat is released, and students, courses, the other rows' statuses, capacities and prerequisites are untouched |
| SchoolManagementService.DropForTransfer | src/main/java/com/example/school/service/impl/SchoolManagementServiceImpl.java:105-106 | The pair's row and its grade go, an ACTIVE row's seat is released, and the courses are the same objects; afterwards the target passes its enrollment checks |
| SchoolManagementService.OnlyCourseFailures | src/main/java/com/example/school/service/impl/SchoolManagementServiceImpl.java:108-113 | A one-course request whose course passes its checks collects no failure |
| SchoolManagementService.EnrollInOne | src/main/java/com/example/school/service/impl/SchoolManagementServiceImpl.java:108-114 | The single target gets a new ACTIVE row dated today, and only its counter rises |
| SchoolManagementService.DropAndEnroll | src/main/java/com/example/school/service/impl/SchoolManagementServiceImpl.java:102-115 | The drop then the enrollment: the source row and its grade go, a new ACTIVE row for the target is added, and the counters move accordingly |
| SchoolManagementService.TransferStudentCourse | src/main/java/com/example/school/service/impl/SchoolManagementServiceImpl.java:102-115 | NotFound exactly when the source pair has no row; one failure naming the target exactly when the target fails its checks after the drop; either failure changes nothing. Otherwise the source row and its grade are replaced by a new ACTIVE target row, the source seat is released if it was active, and the target takes one |

## Left out

- Floating point: grade points and averages are exact integers in tenths and hundredths. Where the services round a binary `double` sum, the model rounds the exact value, so a mean that lands on a rounding boundary may round differently.
- GradeService.CalculateStudentGpa: returns the total points and the number of counted courses rather than their quotient. The quotient, or 0.0 when nothing is counted, is the service's answer; the bounds are proved on the pair.
- The clock: `LocalDate.now()` and `LocalDateTime.now()` become `today`/`now` parameters, and creation/update timestamps are not modelled.
- Logging, exception message text and the aggregated error string of the bulk enrollment (its failures are kept as a list of course id and reason).
- DTO mapping and the lookups of the controller layer; the course request is reduced to the columns the service copies.
- Bean-validation of strings (blank codes and titles, length limits, email format) and the description column; only the numeric bounds on credits and capacity and the grade pattern are checked when a row is written.
- Comments longer than the grade's size limit make the save in `recordGrade` fail inside its try block, which rethrows a generic runtime exception; the model reports that failure as ValidationFailed. The comment length is counted in Dafny characters (Unicode scalar values), while `@Size` counts UTF-16 code units, so a comment with characters outside the Basic Multilingual Plane is measured shorter here than by the validator.
- The identity values a failed insert consumes: a failing call leaves the id generator where it was.
- The order of `HashSet`s and of query results: prerequisite and enrollment collections are sets of ids, and the loops over them are proved for every visiting order.
- EnrollmentService.EnrollStudentInCourses: a unique-constraint failure inside the loop is modelled as one more skipped course. In the running system it marks the whole transaction rollback-only, so the later commit would fail.
- SchoolManagementService.EnrollStudentInCourses: requires the requested course ids to be pairwise different, as the request's `Set` guarantees; it does not state `fresh` for the returned enrollments.
- EnrollmentService.EnrollStudentInCourses: requires the requested course ids to be pairwise different, as the request's `Set` guarantees (src/main/java/com/example/school/dto/EnrollmentRequestDTO.java:16).
- CourseService.UpdateCourse: when a request holds both the course itself and a missing course as prerequisites, which of IllegalArgument or NotFound is reported depends on the set's iteration order. The contract allows either.
- StudentService.GetStudentProgress: `getStudentProgress` calls `studentRepository.findByIdWithEnrollmentsAndGrades` (`StudentServiceImpl.java:127`), which `StudentRepository.java` does not declare, so the source as shipped does not compile. The model reads the call as a fetch by id that loads the student together with whatever enrollments and grades it has, as a LEFT JOIN FETCH would. A student with no enrollments therefore gets an empty report with GPA 0. An inner JOIN FETCH would report such a student as NotFound instead; the model does not take that reading.
- Entity equality: all four entities are Lombok `@Data` classes with no exclusions (`Course.java:13`, `Enrollment.java:16`, `Grade.java:12`, `Student.java:19`). Their generated `equals` and `hashCode` therefore follow the two-way links Course↔Enrollment and Enrollment↔Grade, and hashing a course that has enrollments, or an enrollment that has a grade, can plausibly recurse until the stack overflows. This would affect, for example, `getPrerequisites().contains(prerequisite)` (`CourseServiceImpl.java:144`, `:158`) and the hashing of loaded enrollment sets. The model identifies every entity by its id, so it does not capture that failure.
- EnrollmentEntity.Grade.UnmarkAsCompleted: the grade service calls it, but `Grade.java` does not declare it. The model clears the flag and touches neither the date nor the enrollment.
- The read-only finders that only list or page rows (`findAll`, search and paging queries, the remaining repositories) and the import controller that drives `DataImport`.
- Transfer atomicity: the code runs the drop and the enrollment in one transaction (the call to `enrollStudentInCourses` is a self-invocation), so a failing enrollment undoes the drop. The model follows the code, not a description in which the drop stays in effect.

## Findings

| source | as written | input that shows it | evidently intended | confidence | as-written member | corrected member |
|---|---|---|---|---|---|---|
| src/main/java/com/example/school/service/impl/CourseServiceImpl.java:72-80 | `createCourse` saves the new course before it looks up the requested prerequisites, so the new course's own id is found and added as its own prerequisite | a store whose next id is 7 and a create request whose prerequisite ids are {7} | refuse a self-prerequisite with IllegalArgument, as `updateCourse` (lines 106-108) and `addPrerequisite` (lines 137-139) do | not executed | CourseService.SelfPrerequisiteAsWritten | CourseService.CreateCourse |
