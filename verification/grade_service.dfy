/** The grade service: validation and point conversion of grade values, the
    recording, revision and deletion of the one grade an enrollment may hold,
    and the unweighted GPA over a student's completed grades. */
module GradeService {
  import opened Common
  import opened GradeValues
  import opened EnrollmentEntity
  import opened Database

  /** The request a grade is recorded or revised from. */
  datatype GradeRequest = GradeRequest(enrollmentId: Id, gradeValue: Option<string>,
                                       comments: Option<string>, markAsCompleted: bool)

  /** The size bound bean validation puts on a grade's comments. */
  const MaxCommentLength: int := 500

  predicate CommentsFit(comments: Option<string>)
  {
    comments.None? || |comments.value| <= MaxCommentLength
  }

  /** `Character.isWhitespace`: the ASCII controls and separators and the
      Unicode space, line and paragraph separators other than the no-break spaces. */
  predicate IsWhitespace(c: char)
  {
    || '\t' <= c <= '\r'
    || '\U{1C}' <= c <= ' '
    || c == '\U{1680}'
    || ('\U{2000}' <= c <= '\U{200A}' && c != '\U{2007}')
    || c == '\U{2028}' || c == '\U{2029}' || c == '\U{205F}' || c == '\U{3000}'
  }

  /** `StringUtils.hasText`: present and holding a character that is not whitespace. */
  predicate HasText(v: Option<string>)
  {
    v.Some? && exists i :: 0 <= i < |v.value| && !IsWhitespace(v.value[i])
  }

  /** `isGradeValid`: a value with text that the grade pattern accepts. */
  predicate IsGradeValid(v: Option<string>)
  {
    HasText(v) && MatchesGradePattern(v.value)
  }

  /** The service accepts exactly the seventeen values the pattern does; the
      text test rejects only what the pattern rejects anyway. */
  lemma {:induction false} GradeValidMeansAccepted(v: Option<string>)
    ensures IsGradeValid(v) <==> v.Some? && v.value in AcceptedGradeValues
    ensures v.Some? && MatchesGradePattern(v.value) ==> HasText(v)
  {
    if v.Some? {
      PatternAcceptsExactly(v.value);
      if MatchesGradePattern(v.value) {
        PatternHasText(v.value);
      }
    }
  }

  /** A value the pattern accepts is never blank, so the service finds it valid. */
  lemma PatternHasText(v: string)
    requires MatchesGradePattern(v)
    ensures IsGradeValid(Some(v))
  {
    assert !IsWhitespace(v[0]);
  }

  /** The `switch` of `convertGradeToPoints`, in tenths; its default arm gives 0. */
  function ServiceTablePoints(v: string): int
  {
    if v == "A" then 40
    else if v == "A-" then 37
    else if v == "B+" then 33
    else if v == "B" then 30
    else if v == "B-" then 27
    else if v == "C+" then 23
    else if v == "C" then 20
    else if v == "C-" then 17
    else if v == "D+" then 13
    else if v == "D" then 10
    else 0
  }

  /** `convertGradeToPoints`: an invalid value is an illegal argument; a valid
      one earns its table points, between 0.0 and 4.0. */
  function ConvertGradeToPoints(v: Option<string>): (r: Result<int>)
    ensures r.Err? <==> !IsGradeValid(v)
    ensures r.Err? ==> r.error == IllegalArgument
    ensures r.Ok? ==> 0 <= r.value <= 40
  {
    if !IsGradeValid(v) then Err(IllegalArgument) else Ok(ServiceTablePoints(v.value))
  }

  /** Among accepted values, the conversion gives zero exactly to F and NP,
      which fail, and to P, I, W, A+ and D-, which no case of the table names. */
  lemma {:induction false} ConvertZeroes(v: string)
    requires MatchesGradePattern(v)
    ensures ConvertGradeToPoints(Some(v)).Ok?
    ensures ConvertGradeToPoints(Some(v)).value == 0 <==> v in {"F", "NP", "P", "I", "W", "A+", "D-"}
  {
    GradeValidMeansAccepted(Some(v));
  }

  /** Why `recordGrade` refuses a request, in the order the service checks;
      the last check is bean validation of the comments when the grade is saved. */
  function RecordRefusal(db: Store, request: GradeRequest): (refusal: Option<Error>)
    reads db`enrollments, db.enrollments.Values`status, db.enrollments.Values`grade
    ensures refusal.None? ==>
              (request.enrollmentId in db.enrollments &&
               db.enrollments[request.enrollmentId].status == Active &&
               db.enrollments[request.enrollmentId].grade == null &&
               request.gradeValue.Some? && request.gradeValue.value in AcceptedGradeValues)
  {
    GradeValidMeansAccepted(request.gradeValue);
    if request.enrollmentId !in db.enrollments then Some(NotFound)
    else if !db.enrollments[request.enrollmentId].IsActive() then Some(EnrollmentNotActive)
    else if db.enrollments[request.enrollmentId].grade != null then Some(AlreadyExists)
    else if !IsGradeValid(request.gradeValue) then Some(InvalidGrade)
    else if !CommentsFit(request.comments) then Some(ValidationFailed)
    else None
  }

  /** `isCourseCompleted`: whether the enrollment holds a grade marked completed. */
  function IsCourseCompleted(db: Store, enrollmentId: Id): (r: Result<bool>)
    reads db`enrollments, db.enrollments.Values`grade, db.EnrollmentGradeFrame(enrollmentId)`isCourseCompleted
    ensures r.Err? <==> enrollmentId !in db.enrollments
    ensures r.Err? ==> r.error == NotFound
  {
    if enrollmentId !in db.enrollments then Err(NotFound)
    else
      var e := db.enrollments[enrollmentId];
      Ok(e.grade != null && e.grade.isCourseCompleted)
  }

  /** `recordGrade`: attaches a new grade to an ACTIVE, ungraded enrollment;
      with `markAsCompleted` the grade is completed and the enrollment becomes
      COMPLETED. The seat counter is not touched. */
  method RecordGrade(db: Store, request: GradeRequest, today: Day) returns (r: Result<Grade>)
    requires db.Valid()
    modifies db`grades, db`nextId, db.EnrollmentFrame(request.enrollmentId)`grade
    modifies db.EnrollmentFrame(request.enrollmentId)`status
    ensures db.Valid()
    ensures old(db.SeatsWithinCapacity()) ==> db.SeatsWithinCapacity()
    ensures r.Err? <==> old(RecordRefusal(db, request)).Some?
    ensures r.Err? ==> r.error == old(RecordRefusal(db, request)).value
    ensures r.Err? ==> db.grades == old(db.grades) && db.nextId == old(db.nextId) &&
                       unchanged(db.EnrollmentFrame(request.enrollmentId))
    ensures r.Ok? ==>
              var g, e := r.value, db.enrollments[request.enrollmentId];
              fresh(g) && g.id !in old(db.grades) && db.grades == old(db.grades)[g.id := g] &&
              g.enrollment == e && e.grade == g &&
              g.gradeValue == request.gradeValue.value && g.comments == request.comments &&
              g.isCourseCompleted == request.markAsCompleted &&
              g.gradedDate == (if request.markAsCompleted then Some(today) else None) &&
              e.status == (if request.markAsCompleted then Completed else Active)
    ensures r.Ok? ==> IsCourseCompleted(db, request.enrollmentId) == Ok(request.markAsCompleted)
    ensures r.Ok? ==> RecordRefusal(db, request).Some?
  {
    if request.enrollmentId !in db.enrollments {
      return Err(NotFound);
    }
    var e := db.enrollments[request.enrollmentId];
    if !e.IsActive() {
      return Err(EnrollmentNotActive);
    }
    if e.grade != null {
      return Err(AlreadyExists);
    }
    if !IsGradeValid(request.gradeValue) {
      return Err(InvalidGrade);
    }
    if !CommentsFit(request.comments) {
      return Err(ValidationFailed);
    }
    var g := db.InsertGrade(request.enrollmentId, request.gradeValue.value, request.comments,
                            request.markAsCompleted, today);
    r := Ok(g);
  }

  /** Why `updateGrade` refuses a request, in the order the service checks. The
      request's enrollment id is not read: a grade stays with its enrollment. */
  function UpdateRefusal(db: Store, gradeId: Id, request: GradeRequest): Option<Error>
    requires gradeId in db.grades ==> db.grades[gradeId].enrollment != null
    reads db`grades, db.grades.Values`gradeValue, db.grades.Values`comments, db.grades.Values`enrollment
    reads db.GradeEnrollmentFrame(gradeId)`status
  {
    if gradeId !in db.grades then Some(NotFound)
    else
      var g := db.grades[gradeId];
      if !g.enrollment.IsActive() then Some(EnrollmentNotActive)
      else if request.gradeValue.Some? && request.gradeValue.value != g.gradeValue &&
              !IsGradeValid(request.gradeValue) then Some(InvalidGrade)
      else if !CommentsFit(if request.comments.Some? then request.comments else g.comments) then
        Some(ValidationFailed)
      else None
  }

  /** `updateGrade`: on a grade whose enrollment is ACTIVE, replaces the value
      and the comments the request carries and sets the completion flag to the
      request's; completing also completes the enrollment. */
  method UpdateGrade(db: Store, gradeId: Id, request: GradeRequest, today: Day) returns (r: Result<Grade>)
    requires db.Valid()
    modifies db.GradeFrame(gradeId)`gradeValue, db.GradeFrame(gradeId)`comments
    modifies db.GradeFrame(gradeId)`isCourseCompleted, db.GradeFrame(gradeId)`gradedDate
    modifies db.GradeEnrollmentFrame(gradeId)`status
    ensures db.Valid()
    ensures old(db.SeatsWithinCapacity()) ==> db.SeatsWithinCapacity()
    ensures r.Err? <==> old(UpdateRefusal(db, gradeId, request)).Some?
    ensures r.Err? ==> r.error == old(UpdateRefusal(db, gradeId, request)).value
    ensures r.Err? && gradeId in old(db.grades) ==>
              unchanged(old(db.grades[gradeId])) && unchanged(old(db.grades[gradeId].enrollment))
    ensures r.Ok? ==> gradeId in old(db.grades) && r.value == old(db.grades[gradeId])
    ensures r.Ok? ==> r.value.enrollment != null &&
                      r.value.State() == Revision(old(r.value.State()), request, today)
  {
    if gradeId !in db.grades {
      return Err(NotFound);
    }
    var g := db.grades[gradeId];
    var e := g.enrollment;
    if !e.IsActive() {
      return Err(EnrollmentNotActive);
    }
    var changesValue := request.gradeValue.Some? && request.gradeValue.value != g.gradeValue;
    if changesValue && !IsGradeValid(request.gradeValue) {
      return Err(InvalidGrade);
    }
    // Bean validation runs when the grade is saved; a failure rolls every
    // write back, so it is checked before the writes.
    if !CommentsFit(if request.comments.Some? then request.comments else g.comments) {
      return Err(ValidationFailed);
    }
    db.SetGradeText(g, if changesValue then request.gradeValue else None, request.comments);
    db.SetGradeCompletion(g, request.markAsCompleted, today);
    r := Ok(g);
  }

  /** The state `updateGrade` leaves a grade in: the value and the comments
      the request carries replace the old ones, then the flag becomes the
      requested one. */
  function Revision(s: GradeState, request: GradeRequest, today: Day): (t: GradeState)
    ensures t.completed == request.markAsCompleted
    ensures request.markAsCompleted && !s.completed ==> t.status == Completed && t.gradedDate == Some(today)
    ensures !(request.markAsCompleted && !s.completed) ==> t.status == s.status && t.gradedDate == s.gradedDate
    ensures request.gradeValue.None? ==> t.value == s.value
    ensures request.comments.None? ==> t.comments == s.comments
  {
    WithCompletion(WithText(s, request.gradeValue, request.comments), request.markAsCompleted, today)
  }

  /** Sending the same request again, on any day, changes nothing more. */
  lemma {:induction false} RevisionIdempotent(s: GradeState, request: GradeRequest, today: Day, later: Day)
    ensures Revision(Revision(s, request, today), request, later) == Revision(s, request, today)
  {
    var t := Revision(s, request, today);
    var u := WithText(t, request.gradeValue, request.comments);
    assert u == t;
  }

  /** A request that carries no value and no comments and repeats the current
      flag leaves the grade as it was. */
  lemma EmptyRevisionKeeps(s: GradeState, request: GradeRequest, today: Day)
    requires request.gradeValue.None? && request.comments.None? && request.markAsCompleted == s.completed
    ensures Revision(s, request, today) == s
  {
  }

  /** `deleteGrade`: detaches the grade from its enrollment and deletes it.
      The enrollment keeps its status, so it is no longer refused as already
      graded; an ACTIVE one accepts a new grade, while one left COMPLETED is
      still refused as not active. */
  method DeleteGrade(db: Store, gradeId: Id) returns (r: Result<()>)
    requires db.Valid()
    modifies db`grades, db.GradeEnrollmentFrame(gradeId)`grade, db.GradeFrame(gradeId)`enrollment
    ensures db.Valid()
    ensures old(db.SeatsWithinCapacity()) ==> db.SeatsWithinCapacity()
    ensures r.Err? <==> gradeId !in old(db.grades)
    ensures r.Err? ==> r.error == NotFound && db.grades == old(db.grades)
    ensures r.Ok? ==> db.grades == old(db.grades) - {gradeId}
    ensures r.Ok? ==>
              var e := old(db.grades[gradeId].enrollment);
              e != null && e.grade == null && e.status == old(e.status) &&
              IsCourseCompleted(db, e.id) == Ok(false) &&
              forall request: GradeRequest :: request.enrollmentId == e.id ==>
                RecordRefusal(db, request) != Some(AlreadyExists)
    ensures r.Ok? ==>
              var e := old(db.grades[gradeId].enrollment);
              forall request: GradeRequest :: request.enrollmentId == e.id ==>
                (old(e.status) == Active ==>
                   (RecordRefusal(db, request).None? <==>
                    IsGradeValid(request.gradeValue) && CommentsFit(request.comments))) &&
                (old(e.status) != Active ==> RecordRefusal(db, request) == Some(EnrollmentNotActive))
  {
    if gradeId !in db.grades {
      return Err(NotFound);
    }
    db.RemoveGrade(gradeId);
    r := Ok(());
  }

  /** The two accumulators of `calculateStudentGPA`: total points in tenths and
      the number of grades counted. The GPA is `points / (10 * courses)`, or 0
      when no grade was counted. */
  datatype Gpa = Gpa(points: int, courses: nat)

  function Plus(a: Gpa, b: Gpa): Gpa
  {
    Gpa(a.points + b.points, a.courses + b.courses)
  }

  /** The grades `findByStudentId` returns: those of the student's enrollments. */
  function StudentGradeIds(db: Store, studentId: Id): (ids: set<Id>)
    reads db`grades, db.grades.Values`enrollment
    ensures ids <= db.grades.Keys
  {
    set k | k in db.grades && db.grades[k].enrollment != null && db.grades[k].enrollment.studentId == studentId
  }

  /** What the GPA reads of a stored grade: its value and its completion flag. */
  datatype GradeEntry = GradeEntry(value: string, completed: bool)

  /** What one grade adds to the accumulators: its table points and one course
      when it is completed, nothing otherwise. */
  function Contribution(entry: GradeEntry): (c: Gpa)
    ensures 0 <= c.points <= 40 * c.courses && c.courses <= 1
    ensures c.courses == 1 <==> entry.completed
  {
    if entry.completed then Gpa(ServiceTablePoints(entry.value), 1) else Gpa(0, 0)
  }

  /** What each stored grade adds to the GPA. */
  function Contributions(db: Store): (m: map<Id, Gpa>)
    reads db`grades, db.grades.Values`gradeValue, db.grades.Values`isCourseCompleted
    ensures m.Keys == db.grades.Keys
  {
    map k | k in db.grades :: Contribution(GradeEntry(db.grades[k].gradeValue, db.grades[k].isCourseCompleted))
  }

  /** The accumulators over the grades `ids` names, taken in any order. */
  ghost function Tally(m: map<Id, Gpa>, ids: set<Id>): Gpa
    requires ids <= m.Keys
    decreases ids
  {
    if ids == {} then Gpa(0, 0)
    else
      var k :| k in ids;
      Plus(Tally(m, ids - {k}), m[k])
  }

  /** The tally does not depend on the order the grades are visited in: any
      grade can be taken out first. */
  lemma {:induction false} TallyRemove(m: map<Id, Gpa>, ids: set<Id>, k: Id)
    requires ids <= m.Keys && k in ids
    ensures Tally(m, ids) == Plus(Tally(m, ids - {k}), m[k])
    decreases ids
  {
    var j :| j in ids && Tally(m, ids) == Plus(Tally(m, ids - {j}), m[j]);
    if j != k {
      var rest := ids - {j} - {k};
      assert ids - {k} - {j} == rest;
      TallyRemove(m, ids - {j}, k);
      TallyRemove(m, ids - {k}, j);
      var t := Tally(m, rest);
      calc {
        Tally(m, ids);
        Plus(Tally(m, ids - {j}), m[j]);
        Plus(Plus(t, m[k]), m[j]);
        Plus(Plus(t, m[j]), m[k]);
        Plus(Tally(m, ids - {k}), m[k]);
      }
    }
  }

  /** Every grade adds at most one course and at most 4.0 per course, so the
      total stays within 0.0 to 4.0 per counted course. */
  lemma {:induction false} TallyWithinScale(m: map<Id, Gpa>, ids: set<Id>)
    requires ids <= m.Keys
    requires forall k :: k in ids ==> 0 <= m[k].points <= 40 * m[k].courses && m[k].courses <= 1
    ensures 0 <= Tally(m, ids).points <= 40 * Tally(m, ids).courses && Tally(m, ids).courses <= |ids|
    decreases ids
  {
    if ids != {} {
      var k :| k in ids;
      TallyRemove(m, ids, k);
      TallyWithinScale(m, ids - {k});
    }
  }

  /** No grade is counted exactly when none of them adds a course. */
  lemma {:induction false} TallyCountsCompleted(m: map<Id, Gpa>, ids: set<Id>)
    requires ids <= m.Keys
    ensures Tally(m, ids).courses == 0 <==> forall k :: k in ids ==> m[k].courses == 0
    decreases ids
  {
    if ids != {} {
      var k :| k in ids;
      TallyRemove(m, ids, k);
      TallyCountsCompleted(m, ids - {k});
    }
  }

  lemma ZeroPlus(t: Gpa)
    ensures Plus(Gpa(0, 0), t) == t
  {
  }

  lemma PlusZero(t: Gpa)
    ensures Plus(t, Gpa(0, 0)) == t
  {
  }

  /** Every stored grade carries a value the pattern accepts: the part of the
      store invariant the GPA relies on. */
  ghost predicate ValuesAccepted(db: Store)
    reads db`grades, db.grades.Values`gradeValue
  {
    forall k :: k in db.grades ==> MatchesGradePattern(db.grades[k].gradeValue)
  }

  /** `calculateStudentGPA`: visits the student's grades and accumulates the
      points of the completed ones. */
  method CalculateStudentGpa(db: Store, studentId: Id) returns (gpa: Gpa)
    requires db.Valid()
    ensures gpa == Tally(Contributions(db), StudentGradeIds(db, studentId))
    ensures 0 <= gpa.points <= 40 * gpa.courses && gpa.courses <= |StudentGradeIds(db, studentId)|
  {
    assert ValuesAccepted(db);
    gpa := AccumulateGpa(db, StudentGradeIds(db, studentId));
    TallyWithinScale(Contributions(db), StudentGradeIds(db, studentId));
  }

  /** The loop of `calculateStudentGPA` over the grades `ids` names: a
      completed grade adds its converted points and one course. */
  method AccumulateGpa(db: Store, ids: set<Id>) returns (gpa: Gpa)
    requires ValuesAccepted(db) && ids <= db.grades.Keys
    ensures gpa == Tally(Contributions(db), ids)
  {
    ghost var m := Contributions(db);
    gpa := Gpa(0, 0);
    var todo := ids;
    ZeroPlus(Tally(m, ids));
    while todo != {}
      invariant todo <= ids
      invariant Tally(m, ids) == Plus(gpa, Tally(m, todo))
      decreases todo
    {
      var k :| k in todo;
      var grade := db.grades[k];
      assert m[k] == Contribution(GradeEntry(grade.gradeValue, grade.isCourseCompleted));
      var c := GradeContribution(grade);
      TallyStep(m, ids, todo, gpa, k, Plus(gpa, c));
      gpa := Plus(gpa, c);
      todo := todo - {k};
    }
    assert Tally(m, todo) == Gpa(0, 0);
    PlusZero(gpa);
  }

  /** The body of the loop for one grade: a completed grade counts once, with
      the points `convertGradeToPoints` gives its value. */
  method GradeContribution(grade: Grade) returns (c: Gpa)
    requires MatchesGradePattern(grade.gradeValue)
    ensures c == Contribution(GradeEntry(grade.gradeValue, grade.isCourseCompleted))
  {
    if grade.isCourseCompleted {
      PatternHasText(grade.gradeValue);
      var points := ConvertGradeToPoints(Some(grade.gradeValue));
      c := Gpa(points.value, 1);
    } else {
      c := Gpa(0, 0);
    }
  }

  /** One turn of the loop: taking grade `k` out of the unvisited ones and
      adding its contribution to the accumulators keeps the total. */
  lemma TallyStep(m: map<Id, Gpa>, ids: set<Id>, todo: set<Id>, gpa: Gpa, k: Id, next: Gpa)
    requires ids <= m.Keys && todo <= ids && k in todo
    requires Tally(m, ids) == Plus(gpa, Tally(m, todo))
    requires next == Plus(gpa, m[k])
    ensures Tally(m, ids) == Plus(next, Tally(m, todo - {k}))
  {
    TallyRemove(m, todo, k);
  }

  /** A grade marked completed on any of the student's enrollments makes the
      GPA a real mean rather than the default 0: it is counted. */
  lemma {:induction false} CompletedGradeIsCounted(db: Store, enrollmentId: Id)
    requires db.Valid() && IsCourseCompleted(db, enrollmentId) == Ok(true)
    ensures Tally(Contributions(db), StudentGradeIds(db, db.enrollments[enrollmentId].studentId)).courses >= 1
  {
    var e := db.enrollments[enrollmentId];
    var ids := StudentGradeIds(db, e.studentId);
    assert e.grade.id in ids;
    TallyCountsCompleted(Contributions(db), ids);
  }
}
