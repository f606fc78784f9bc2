/** The `Course` entity: its seat counter, its capacity and its set of direct
    prerequisites, updated in place by the services. */
module CourseEntity {
  import opened Common

  /** Field defaults of a freshly constructed course. */
  const DefaultCredits: int := 3
  const DefaultCapacity: int := 30

  /** Bean-validation bounds declared on the entity's fields. */
  const MinCredits: int := 1
  const MaxCredits: int := 12
  const MinCapacity: int := 1

  /** The declared bounds on credits and capacity, checked whenever the store writes a course. */
  predicate DeclaredBounds(credits: int, capacity: int)
  {
    MinCredits <= credits <= MaxCredits && MinCapacity <= capacity
  }

  /** The counter after one seat is released: one less, but never below zero. */
  function Released(n: int): (r: int)
    ensures n >= 0 ==> 0 <= r <= n
    ensures r == n <==> n <= 0
  {
    if n > 0 then n - 1 else n
  }

  class Course {
    const id: Id
    var code: string
    var title: string
    var credits: int
    var capacity: int
    var enrolledStudents: int
    /** Direct prerequisites, by course id. */
    var prerequisites: set<Id>

    /** The declared bounds on credits and capacity hold. */
    ghost predicate Valid()
      reads this`credits, this`capacity
    {
      DeclaredBounds(credits, capacity)
    }

    /** A course as `new Course()` leaves it before the DTO is copied in. */
    constructor (id: Id, code: string, title: string)
      ensures this.id == id && this.code == code && this.title == title
      ensures credits == DefaultCredits && capacity == DefaultCapacity
      ensures enrolledStudents == 0 && prerequisites == {}
      ensures Valid()
    {
      this.id := id;
      this.code := code;
      this.title := title;
      credits := DefaultCredits;
      capacity := DefaultCapacity;
      enrolledStudents := 0;
      prerequisites := {};
    }

    /** True exactly when one more student fits. */
    predicate HasAvailableCapacity()
      reads this`enrolledStudents, this`capacity
    {
      enrolledStudents < capacity
    }

    /** Raises the counter by one; the capacity is the caller's business. */
    method IncrementEnrolledStudents()
      modifies this`enrolledStudents
      ensures enrolledStudents == old(enrolledStudents) + 1
      ensures old(HasAvailableCapacity()) ==> enrolledStudents <= capacity
    {
      enrolledStudents := enrolledStudents + 1;
    }

    /** Lowers a positive counter by one and leaves zero at zero. */
    method DecrementEnrolledStudents()
      modifies this`enrolledStudents
      ensures enrolledStudents == Released(old(enrolledStudents))
      ensures old(enrolledStudents) >= 0 ==> 0 <= enrolledStudents <= old(enrolledStudents)
    {
      if enrolledStudents > 0 {
        enrolledStudents := enrolledStudents - 1;
      }
    }

    method AddPrerequisite(prerequisite: Id)
      modifies this`prerequisites
      ensures prerequisites == old(prerequisites) + {prerequisite}
    {
      prerequisites := prerequisites + {prerequisite};
    }

    method RemovePrerequisite(prerequisite: Id)
      modifies this`prerequisites
      ensures prerequisites == old(prerequisites) - {prerequisite}
    {
      prerequisites := prerequisites - {prerequisite};
    }
  }
}
