/** `CourseServiceImpl`: creating and updating courses behind the code
    uniqueness guard, deleting a course no other course requires, and editing
    a course's set of direct prerequisites. Each call is one atomic step: a
    call that fails leaves the store as it was. */
module CourseService {
  import opened Common
  import opened CourseEntity
  import opened Database
  import opened EnrollmentService

  /** The columns of a `CourseDTO` the service copies, and its prerequisite ids
      (an absent list is the empty set). */
  datatype CourseRequest = CourseRequest(code: string, title: string, credits: int, capacity: int,
                                         prerequisiteIds: set<Id>)

  /** `existsByCode`. */
  predicate CodeTaken(db: Store, code: string)
    reads db`courses, db.courses.Values`code
  {
    exists k :: k in db.courses && db.courses[k].code == code
  }

  /** The loop over the requested prerequisite ids as `updateCourse` runs it,
      in the set's own iteration order: the course's own id is an illegal
      argument and an id naming no stored course is not found. When the set
      holds both kinds, which one is reported depends on that order. */
  method PrerequisiteRefusal(db: Store, self: Id, requested: set<Id>) returns (refusal: Option<Error>)
    ensures refusal.None? <==> self !in requested && requested <= db.courses.Keys
    ensures refusal.Some? ==> refusal.value == IllegalArgument || refusal.value == NotFound
    ensures refusal == Some(IllegalArgument) ==> self in requested
    ensures refusal == Some(NotFound) ==> !(requested <= db.courses.Keys)
  {
    var todo := requested;
    while todo != {}
      invariant todo <= requested
      invariant self !in requested - todo && requested - todo <= db.courses.Keys
      decreases todo
    {
      var p :| p in todo;
      if p == self {
        return Some(IllegalArgument);
      }
      if p !in db.courses {
        return Some(NotFound);
      }
      todo := todo - {p};
    }
    return None;
  }

  /** The prerequisite step of `createCourse` as written: the course is saved
      first, under `newId`, and each requested id is then looked up among the
      stored courses, which now include the new course itself. */
  function CreatedPrerequisitesAsWritten(stored: set<Id>, newId: Id, requested: set<Id>): (r: Result<set<Id>>)
    ensures r.Ok? <==> requested <= stored + {newId}
    ensures r.Err? ==> r.error == NotFound
  {
    if requested <= stored + {newId} then Ok(requested) else Err(NotFound)
  }

  /** A request that names the id the new course is about to receive makes
      the course its own prerequisite, which `updateCourse` and
      `addPrerequisite` both refuse. */
  lemma SelfPrerequisiteAsWritten(stored: set<Id>, newId: Id)
    requires newId !in stored
    ensures CreatedPrerequisitesAsWritten(stored, newId, {newId}) == Ok({newId})
    ensures newId in CreatedPrerequisitesAsWritten(stored, newId, {newId}).value
  {
  }

  /** `createCourse`, with its prerequisite loop refusing the new course's own
      id as `updateCourse` does: refused when the code is in use, when bean
      validation rejects the credits or the capacity, or when a requested
      prerequisite is the new course or no stored course. */
  method CreateCourse(db: Store, request: CourseRequest) returns (r: Result<Course>)
    requires db.Valid()
    modifies db`courses, db`nextId
    ensures db.Valid()
    ensures old(db.SeatsWithinCapacity()) ==> db.SeatsWithinCapacity()
    ensures r == Err(AlreadyExists) <==> old(CodeTaken(db, request.code))
    ensures r == Err(ValidationFailed) <==>
              !old(CodeTaken(db, request.code)) && !DeclaredBounds(request.credits, request.capacity)
    ensures r.Ok? <==>
              !old(CodeTaken(db, request.code)) && DeclaredBounds(request.credits, request.capacity) &&
              request.prerequisiteIds <= old(db.courses.Keys)
    ensures r == Err(IllegalArgument) ==> old(db.nextId) in request.prerequisiteIds
    ensures r == Err(NotFound) ==> !(request.prerequisiteIds <= old(db.courses.Keys))
    ensures r.Err? ==> db.courses == old(db.courses) && db.nextId == old(db.nextId)
    ensures r.Ok? ==>
              var c := r.value;
              fresh(c) && c.id !in old(db.courses) && db.courses == old(db.courses)[c.id := c] &&
              c.code == request.code && c.title == request.title &&
              c.credits == request.credits && c.capacity == request.capacity &&
              c.enrolledStudents == 0 && c.prerequisites == request.prerequisiteIds &&
              c.id !in c.prerequisites
  {
    if CodeTaken(db, request.code) {
      return Err(AlreadyExists);
    }
    if !DeclaredBounds(request.credits, request.capacity) {
      return Err(ValidationFailed);
    }
    var refusal := PrerequisiteRefusal(db, db.nextId, request.prerequisiteIds);
    if refusal.Some? {
      return Err(refusal.value);
    }
    var c := db.InsertCourse(request.code, request.title, request.credits, request.capacity, request.prerequisiteIds);
    r := Ok(c);
  }

  /** `updateCourse`: refused when the course is missing, when the code changes
      to one in use, when a requested prerequisite is the course itself or no
      stored course, or when bean validation rejects the credits or the
      capacity. Otherwise the columns and the prerequisite set become the
      request's. The capacity is not checked against the seats in use. */
  method UpdateCourse(db: Store, id: Id, request: CourseRequest) returns (r: Result<Course>)
    requires db.Valid()
    modifies db.CourseFrame(id)`code, db.CourseFrame(id)`title, db.CourseFrame(id)`credits
    modifies db.CourseFrame(id)`capacity, db.CourseFrame(id)`prerequisites
    ensures db.Valid()
    ensures id !in db.courses ==> r == Err(NotFound)
    ensures r == Err(NotFound) ==> id !in db.courses || !(request.prerequisiteIds <= db.courses.Keys)
    ensures r == Err(AlreadyExists) <==>
              id in db.courses && old(db.courses[id].code) != request.code && old(CodeTaken(db, request.code))
    ensures r.Ok? <==>
              id in db.courses && !(old(db.courses[id].code) != request.code && old(CodeTaken(db, request.code))) &&
              id !in request.prerequisiteIds && request.prerequisiteIds <= db.courses.Keys &&
              DeclaredBounds(request.credits, request.capacity)
    ensures r == Err(IllegalArgument) ==> id in request.prerequisiteIds
    ensures r == Err(ValidationFailed) ==> !DeclaredBounds(request.credits, request.capacity)
    ensures r.Err? ==> r.error in {NotFound, AlreadyExists, IllegalArgument, ValidationFailed}
    ensures r.Err? && id in db.courses ==> unchanged(db.courses[id])
    ensures r.Ok? ==>
              var c := r.value;
              c == db.courses[id] && c.code == request.code && c.title == request.title &&
              c.credits == request.credits && c.capacity == request.capacity &&
              c.prerequisites == request.prerequisiteIds &&
              c.enrolledStudents == old(c.enrolledStudents)
    ensures old(db.SeatsWithinCapacity()) && (r.Ok? ==> old(db.courses[id].enrolledStudents) <= request.capacity) ==>
              db.SeatsWithinCapacity()
    ensures r.Ok? && request.capacity < old(db.courses[id].enrolledStudents) ==> !db.SeatsWithinCapacity()
  {
    if id !in db.courses {
      return Err(NotFound);
    }
    var c := db.courses[id];
    if c.code != request.code && CodeTaken(db, request.code) {
      return Err(AlreadyExists);
    }
    var refusal := PrerequisiteRefusal(db, id, request.prerequisiteIds);
    if refusal.Some? {
      return Err(refusal.value);
    }
    if !DeclaredBounds(request.credits, request.capacity) {
      return Err(ValidationFailed);
    }
    db.RewriteCourse(id, request.code, request.title, request.credits, request.capacity, request.prerequisiteIds);
    r := Ok(c);
  }

  /** `findCoursesThatRequireCourse`: the courses listing `id` as a prerequisite. */
  function CoursesRequiring(db: Store, id: Id): (ks: set<Id>)
    reads db`courses, db.courses.Values`prerequisites
    ensures ks <= db.courses.Keys
  {
    set k | k in db.courses && id in db.courses[k].prerequisites
  }

  /** `deleteCourse`: refused when the course is missing or another course
      requires it; otherwise the course is deleted, and with it, by cascade,
      its enrollments and their grades. */
  method DeleteCourse(db: Store, id: Id) returns (r: Result<()>)
    requires db.Valid()
    modifies db`courses, db`enrollments, db`grades
    ensures db.Valid()
    ensures old(db.SeatsWithinCapacity()) ==> db.SeatsWithinCapacity()
    ensures r == Err(NotFound) <==> id !in old(db.courses)
    ensures r == Err(IllegalState) <==> id in old(db.courses) && old(CoursesRequiring(db, id)) != {}
    ensures r.Err? ==> r.error == NotFound || r.error == IllegalState
    ensures r.Err? ==> db.courses == old(db.courses) && db.enrollments == old(db.enrollments) &&
                       db.grades == old(db.grades)
    ensures r.Ok? ==> db.courses == old(db.courses) - {id}
    ensures r.Ok? ==> db.enrollments == old(db.enrollments) - old(db.CourseEnrollmentIds(id))
    ensures r.Ok? ==> db.grades == old(db.grades) - old(db.AttachedGradeIds(db.CourseEnrollmentIds(id)))
  {
    if id !in db.courses {
      return Err(NotFound);
    }
    if CoursesRequiring(db, id) != {} {
      return Err(IllegalState);
    }
    assert forall k :: k in db.courses ==> id !in db.courses[k].prerequisites by {
      forall k | k in db.courses
        ensures id !in db.courses[k].prerequisites
      {
        assert k !in CoursesRequiring(db, id);
      }
    }
    var owned := db.CourseEnrollmentIds(id);
    db.RemoveEnrollments(owned);
    db.RemoveCourse(id);
    r := Ok(());
  }

  /** `addPrerequisite`: a self-reference is refused before any lookup, then
      either course may be missing, then the prerequisite may be there
      already; otherwise the set gains exactly that course. */
  method AddPrerequisite(db: Store, c: Id, p: Id) returns (r: Result<()>)
    requires db.Valid()
    modifies db.CourseFrame(c)`prerequisites
    ensures db.Valid()
    ensures old(db.SeatsWithinCapacity()) ==> db.SeatsWithinCapacity()
    ensures r == Err(IllegalArgument) <==> c == p
    ensures r == Err(NotFound) <==> c != p && (c !in db.courses || p !in db.courses)
    ensures r == Err(AlreadyExists) <==>
              c != p && c in db.courses && p in db.courses && p in old(db.courses[c].prerequisites)
    ensures r.Err? && c in db.courses ==> unchanged(db.courses[c])
    ensures r.Ok? <==> c != p && c in db.courses && p in db.courses && p !in old(db.courses[c].prerequisites)
    ensures r.Ok? ==> c in db.courses && p !in old(db.courses[c].prerequisites) &&
                      db.courses[c].prerequisites == old(db.courses[c].prerequisites) + {p}
  {
    if c == p {
      return Err(IllegalArgument);
    }
    if c !in db.courses || p !in db.courses {
      return Err(NotFound);
    }
    if p in db.courses[c].prerequisites {
      return Err(AlreadyExists);
    }
    db.AddPrerequisiteTo(c, p);
    r := Ok(());
  }

  /** `removePrerequisite`: refused when either course is missing or `p` is
      not a prerequisite of `c`; otherwise the set loses exactly that course. */
  method RemovePrerequisite(db: Store, c: Id, p: Id) returns (r: Result<()>)
    requires db.Valid()
    modifies db.CourseFrame(c)`prerequisites
    ensures db.Valid()
    ensures old(db.SeatsWithinCapacity()) ==> db.SeatsWithinCapacity()
    ensures r.Err? <==> c !in db.courses || p !in db.courses || p !in old(db.courses[c].prerequisites)
    ensures r.Err? ==> r.error == NotFound
    ensures r.Err? && c in db.courses ==> unchanged(db.courses[c])
    ensures r.Ok? ==> c in db.courses && p in old(db.courses[c].prerequisites) &&
                      db.courses[c].prerequisites == old(db.courses[c].prerequisites) - {p}
  {
    if c !in db.courses || p !in db.courses {
      return Err(NotFound);
    }
    if p !in db.courses[c].prerequisites {
      return Err(NotFound);
    }
    db.RemovePrerequisiteFrom(c, p);
    r := Ok(());
  }

  /** `addPrerequisite` followed by `removePrerequisite` of the same pair:
      when the add succeeds, so does the remove, and the course's
      prerequisite set is back where it started. */
  method AddThenRemoveRestores(db: Store, c: Id, p: Id) returns (added: Result<()>, removed: Result<()>)
    requires db.Valid()
    modifies db.CourseFrame(c)`prerequisites
    ensures db.Valid()
    ensures added.Ok? ==> removed.Ok? && c in db.courses && db.courses[c].prerequisites == old(db.courses[c].prerequisites)
    ensures added.Err? ==> (removed.Ok? <==> c in db.courses && p in db.courses && p in old(db.courses[c].prerequisites))
  {
    added := AddPrerequisite(db, c, p);
    removed := RemovePrerequisite(db, c, p);
  }

  /** `removePrerequisite` followed by `addPrerequisite` of the same pair:
      when the remove succeeds, so does the add, and the course's
      prerequisite set is back where it started. */
  method RemoveThenAddRestores(db: Store, c: Id, p: Id) returns (removed: Result<()>, added: Result<()>)
    requires db.Valid()
    modifies db.CourseFrame(c)`prerequisites
    ensures db.Valid()
    ensures removed.Ok? ==> added.Ok? && c in db.courses && db.courses[c].prerequisites == old(db.courses[c].prerequisites)
    ensures removed.Err? ==> (added.Ok? <==> c != p && c in db.courses && p in db.courses && p !in old(db.courses[c].prerequisites))
  {
    assert c in db.courses && p in db.courses[c].prerequisites ==> p != c;
    removed := RemovePrerequisite(db, c, p);
    added := AddPrerequisite(db, c, p);
  }

  /** `getPrerequisites`: a copy of the course's prerequisite set; in a valid
      store it names stored courses other than the course itself. */
  function GetPrerequisites(db: Store, c: Id): (r: Result<set<Id>>)
    reads db`students, db`courses, db`enrollments, db`grades, db`nextId
    reads db.courses.Values`credits, db.courses.Values`capacity, db.courses.Values`prerequisites
    reads db.courses.Values`code, db.grades.Values`gradeValue, db.grades.Values`enrollment
    reads db.enrollments.Values`grade
    ensures r.Err? <==> c !in db.courses
    ensures r.Err? ==> r.error == NotFound
    ensures r.Ok? ==> forall p :: p in r.value <==> p in db.courses[c].prerequisites
    ensures r.Ok? && db.Valid() ==> r.value <= db.courses.Keys - {c}
  {
    if c !in db.courses then Err(NotFound) else Ok(db.courses[c].prerequisites)
  }

  /** The service's `hasAvailableCapacity`. */
  function HasAvailableCapacity(db: Store, c: Id): (r: Result<bool>)
    reads db`courses, db.courses.Values`enrolledStudents, db.courses.Values`capacity
    ensures r.Err? <==> c !in db.courses
    ensures r.Err? ==> r.error == NotFound
  {
    if c !in db.courses then Err(NotFound) else Ok(db.courses[c].HasAvailableCapacity())
  }

  /** The course service's capacity test and the enrollment service's
      `isCourseFull` and `getAvailableSeats` agree: a course has room exactly
      when it is not full, exactly when a seat is available. */
  lemma CapacityViewsAgree(db: Store, c: Id, b: bool)
    ensures HasAvailableCapacity(db, c) == Ok(b) <==> IsCourseFull(db, c) == Ok(!b)
    ensures HasAvailableCapacity(db, c) == Ok(true) <==> GetAvailableSeats(db, c).Ok? && GetAvailableSeats(db, c).value > 0
  {
  }
}
