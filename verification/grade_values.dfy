/** The letter-grade vocabulary of the `Grade` entity: the validation pattern on
    its value, its grade-point table and its notion of a passing grade.
    Grade points are integer tenths (A = 40 stands for 4.0). */
module GradeValues {
  import opened Common

  predicate IsBaseLetter(c: char)
  {
    'A' <= c <= 'D'
  }

  /** The pattern `^[A-D][+-]?|F|P|NP|I|W$` matched against the whole value,
      as bean validation and `String.matches` both do: a letter A to D with an
      optional `+` or `-`, or one of F, P, NP, I, W. */
  predicate MatchesGradePattern(v: string)
  {
    || (|v| == 1 && IsBaseLetter(v[0]))
    || (|v| == 2 && IsBaseLetter(v[0]) && (v[1] == '+' || v[1] == '-'))
    || v == "F" || v == "P" || v == "NP" || v == "I" || v == "W"
  }

  /** Every string the pattern accepts. */
  const AcceptedGradeValues: set<string> :=
    {"A+", "A", "A-", "B+", "B", "B-", "C+", "C", "C-", "D+", "D", "D-",
     "F", "P", "NP", "I", "W"}

  /** The values the pattern's own message (and the service's comment) lists. */
  const ListedGradeValues: set<string> :=
    {"A", "A-", "B+", "B", "B-", "C+", "C", "C-", "D+", "D", "F", "P", "NP", "I", "W"}

  /** The pattern accepts exactly the seventeen strings of `AcceptedGradeValues`. */
  lemma {:induction false} PatternAcceptsExactly(v: string)
    ensures MatchesGradePattern(v) <==> v in AcceptedGradeValues
  {
    if |v| == 1 && IsBaseLetter(v[0]) {
      assert v == [v[0]];
      assert v[0] == 'A' || v[0] == 'B' || v[0] == 'C' || v[0] == 'D';
    } else if |v| == 2 && IsBaseLetter(v[0]) && (v[1] == '+' || v[1] == '-') {
      assert v == [v[0], v[1]];
      assert v[0] == 'A' || v[0] == 'B' || v[0] == 'C' || v[0] == 'D';
    }
  }

  /** The pattern accepts the values its message lists plus A+ and D-, which
      the message leaves out. */
  lemma AcceptedAreListedPlusTwo()
    ensures AcceptedGradeValues == ListedGradeValues + {"A+", "D-"}
    ensures "A+" !in ListedGradeValues && "D-" !in ListedGradeValues
  {
  }

  /** `Grade.getGradePoints`: the entity's own table, absent for the empty value,
      for I, for W and for any string outside the table. */
  function EntityGradePoints(v: string): (r: Option<int>)
    ensures r.Some? ==> 0 <= r.value <= 40
    ensures r.Some? ==> MatchesGradePattern(v)
    ensures |v| == 0 || v == "I" || v == "W" ==> r.None?
  {
    if |v| == 0 then None
    else if v == "A" || v == "A+" then Some(40)
    else if v == "A-" then Some(37)
    else if v == "B+" then Some(33)
    else if v == "B" then Some(30)
    else if v == "B-" then Some(27)
    else if v == "C+" then Some(23)
    else if v == "C" then Some(20)
    else if v == "C-" then Some(17)
    else if v == "D+" then Some(13)
    else if v == "D" then Some(10)
    else if v == "F" || v == "NP" then Some(0)
    else if v == "P" then Some(20)
    else None
  }

  /** `Grade.isPassingGrade` for a present value: everything but F, NP, I and W. */
  predicate IsPassingValue(v: string)
  {
    !(v == "F" || v == "NP" || v == "I" || v == "W")
  }

  /** Among accepted values, D- is the one the entity table leaves without points:
      the pattern admits it but `getGradePoints` has no case for it. */
  lemma {:induction false} EntityTableCoverage(v: string)
    requires MatchesGradePattern(v)
    ensures EntityGradePoints(v).None? <==> v in {"D-", "I", "W"}
  {
    PatternAcceptsExactly(v);
  }

  /** A passing accepted value earns positive points in the entity table, except
      D-, which earns none; a failing one earns zero or none. */
  lemma {:induction false} PassingMeansPositivePoints(v: string)
    requires MatchesGradePattern(v)
    ensures IsPassingValue(v) <==>
              (EntityGradePoints(v).Some? && EntityGradePoints(v).value > 0) || v == "D-"
  {
    PatternAcceptsExactly(v);
  }
}
