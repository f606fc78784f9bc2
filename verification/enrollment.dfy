/** The `Enrollment` and `Grade` entities. They reference each other (an
    enrollment holds its grade, a grade its enrollment), so they share a module. */
module EnrollmentEntity {
  import opened Common
  import opened GradeValues

  /** The lifecycle states of an enrollment; a new enrollment is `Active`. */
  datatype EnrollmentStatus = Active | Dropped | Completed | Failed | Withdrawn

  class Enrollment {
    const id: Id
    const studentId: Id
    const courseId: Id
    var enrollmentDate: Day
    var status: EnrollmentStatus
    var withdrawalReason: Option<string>
    var withdrawalDate: Option<Day>
    var grade: Grade?

    constructor (id: Id, studentId: Id, courseId: Id, enrollmentDate: Day)
      ensures this.id == id && this.studentId == studentId && this.courseId == courseId
      ensures this.enrollmentDate == enrollmentDate
      ensures status == Active
      ensures withdrawalReason == None && withdrawalDate == None && grade == null
    {
      this.id := id;
      this.studentId := studentId;
      this.courseId := courseId;
      this.enrollmentDate := enrollmentDate;
      status := Active;
      withdrawalReason := None;
      withdrawalDate := None;
      grade := null;
    }

    /** Attaches `g` and points it back here; detaching (`g == null`) clears the
        back-reference of the grade that was attached. A different grade that was
        attached before a non-null `g` keeps its back-reference. */
    method SetGrade(g: Grade?)
      modifies this`grade, {g, grade}`enrollment
      ensures grade == g
      ensures g != null ==> g.enrollment == this
      ensures g == null && old(grade) != null ==> old(grade).enrollment == null
      ensures g != null && old(grade) != null && old(grade) != g ==>
                old(grade).enrollment == old(grade.enrollment)
    {
      if g == null {
        if grade != null {
          grade.enrollment := null;
        }
      } else {
        g.enrollment := this;
      }
      grade := g;
    }

    predicate IsActive()
      reads this`status
    {
      status == Active
    }

    predicate IsCompleted()
      reads this`status
    {
      status == Completed
    }
  }

  /** What a grade holds apart from its identity and its link: the value, the
      comments, the completion flag and date, and the status of the linked
      enrollment. */
  datatype GradeState = GradeState(value: string, comments: Option<string>, completed: bool,
                                   gradedDate: Option<Day>, status: EnrollmentStatus)

  /** The state after the value and the comments are replaced, each when given. */
  function WithText(s: GradeState, value: Option<string>, comments: Option<string>): (t: GradeState)
    ensures t.completed == s.completed && t.gradedDate == s.gradedDate && t.status == s.status
    ensures value.None? && comments.None? ==> t == s
  {
    s.(value := if value.Some? then value.value else s.value,
       comments := if comments.Some? then comments else s.comments)
  }

  /** The state after the completion flag is set to `mark`: completing a grade
      that was not completed dates it `today` and completes its enrollment;
      anything else changes the flag alone. */
  function WithCompletion(s: GradeState, mark: bool, today: Day): (t: GradeState)
    ensures t.completed == mark && t.value == s.value && t.comments == s.comments
    ensures mark == s.completed ==> t == s
  {
    if mark && !s.completed then s.(completed := true, gradedDate := Some(today), status := Completed)
    else s.(completed := mark)
  }

  class Grade {
    const id: Id
    var gradeValue: string
    var comments: Option<string>
    var isCourseCompleted: bool
    var enrollment: Enrollment?
    var gradedDate: Option<Day>

    /** A grade as the service builds it: value and comments set, not completed,
        not yet linked. */
    constructor (id: Id, gradeValue: string, comments: Option<string>)
      ensures this.id == id && this.gradeValue == gradeValue && this.comments == comments
      ensures !isCourseCompleted && enrollment == null && gradedDate == None
    {
      this.id := id;
      this.gradeValue := gradeValue;
      this.comments := comments;
      isCourseCompleted := false;
      enrollment := null;
      gradedDate := None;
    }

    /** The grade's state; it has one only while linked to an enrollment. */
    function State(): GradeState
      requires enrollment != null
      reads this`gradeValue, this`comments, this`isCourseCompleted, this`gradedDate, this`enrollment
      reads enrollment`status
    {
      GradeState(gradeValue, comments, isCourseCompleted, gradedDate, enrollment.status)
    }

    /** Replaces the value and the comments, each when given. */
    method SetText(value: Option<string>, newComments: Option<string>)
      requires enrollment != null
      modifies this`gradeValue, this`comments
      ensures State() == WithText(old(State()), value, newComments)
    {
      if value.Some? {
        gradeValue := value.value;
      }
      if newComments.Some? {
        comments := newComments;
      }
    }

    /** Completes the course: the flag is set, the day recorded, and a linked
        enrollment becomes COMPLETED (its seat counter is not touched). */
    method MarkAsCompleted(today: Day)
      modifies this`isCourseCompleted, this`gradedDate, {enrollment}`status
      ensures isCourseCompleted && gradedDate == Some(today)
      ensures enrollment != null ==> enrollment.status == Completed
    {
      isCourseCompleted := true;
      gradedDate := Some(today);
      if enrollment != null {
        enrollment.status := Completed;
      }
    }

    /** Brings the completion flag to `mark`: marks a grade that is not
        completed, unmarks one that is, and leaves it alone otherwise. */
    method SetCompletion(mark: bool, today: Day)
      requires enrollment != null
      modifies this`isCourseCompleted, this`gradedDate, {enrollment}`status
      ensures State() == WithCompletion(old(State()), mark, today)
    {
      if mark && !isCourseCompleted {
        MarkAsCompleted(today);
      } else if !mark && isCourseCompleted {
        UnmarkAsCompleted();
      }
    }

    /** The reverse of `MarkAsCompleted` that the grade service calls. The entity
        does not declare it; the model clears the flag and nothing else. */
    method UnmarkAsCompleted()
      modifies this`isCourseCompleted
      ensures !isCourseCompleted
    {
      isCourseCompleted := false;
    }
  }
}
