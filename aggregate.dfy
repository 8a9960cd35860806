/** Grade aggregation: the per-semester totals over the subject rows, the semester
    records the calculator keeps, the cumulative sums over semesters, and the range
    check on the number of semesters. */
module Aggregate {
  import opened Wrappers
  import opened Grades

  /** One subject row as read from the form: its credits (already parsed; a field that
      does not parse reads as 0) and its selected grade (None for "Select Grade"). */
  datatype Subject = Subject(credits: real, grade: Option<Grade>)

  /** Running totals: credits, credit-weighted grade points, and how many items were counted. */
  datatype Tally = Tally(credits: real, points: real, count: nat) {
    function Plus(t: Tally): Tally {
      Tally(credits + t.credits, points + t.points, count + t.count)
    }
  }

  const Zero := Tally(0.0, 0.0, 0)

  lemma PlusZero(t: Tally)
    ensures t.Plus(Zero) == t && Zero.Plus(t) == t
  {
  }

  lemma PlusAssoc(x: Tally, y: Tally, z: Tally)
    ensures x.Plus(y).Plus(z) == x.Plus(y.Plus(z))
  {
  }

  /** A subject counts towards a semester only with a grade selected and positive credits. */
  predicate Contributes(s: Subject) {
    s.grade.Some? && s.credits > 0.0
  }

  /** What one subject adds to the semester's totals: a single row, counted only when it
      contributes, whose weighted points never exceed ten per credit. */
  function Contribution(s: Subject): (t: Tally)
    ensures t.count <= 1
    ensures t.count == 1 <==> Contributes(s)
    ensures t.count == 1 ==> t.credits == s.credits
    ensures 0.0 <= t.credits && 0.0 <= t.points <= 10.0 * t.credits
  {
    if Contributes(s) then Tally(s.credits, Points(s.grade.value) * s.credits, 1) else Zero
  }

  /** The semester's totals over its subject rows, accumulated in row order. */
  function Totals(subjects: seq<Subject>): Tally
    decreases |subjects|
  {
    if |subjects| == 0 then Zero
    else Totals(subjects[..|subjects| - 1]).Plus(Contribution(subjects[|subjects| - 1]))
  }

  /** Totals are additive over a split of the subject rows. */
  lemma {:induction false} TotalsAppend(a: seq<Subject>, b: seq<Subject>)
    ensures Totals(a + b) == Totals(a).Plus(Totals(b))
    decreases |b|
  {
    if |b| == 0 {
      assert a + b == a;
      PlusZero(Totals(a));
    } else {
      var b', last := b[..|b| - 1], b[|b| - 1];
      assert (a + b)[..|a + b| - 1] == a + b';
      assert (a + b)[|a + b| - 1] == last;
      TotalsAppend(a, b');
      PlusAssoc(Totals(a), Totals(b'), Contribution(last));
    }
  }

  /** Extending a prefix of the rows by one row adds that row's contribution. */
  lemma TotalsSnoc(subjects: seq<Subject>, i: nat)
    requires i < |subjects|
    ensures Totals(subjects[..i + 1]) == Totals(subjects[..i]).Plus(Contribution(subjects[i]))
  {
    assert subjects[..i + 1][..i] == subjects[..i];
  }

  /** A subject row adds its credits, its points times credits and one to the count when
      it has a grade and positive credits, and changes none of the totals otherwise. */
  lemma SubjectEffect(a: seq<Subject>, s: Subject, b: seq<Subject>)
    ensures Contributes(s) ==>
      var before, after := Totals(a + b), Totals(a + [s] + b);
      && after.credits == before.credits + s.credits
      && after.points == before.points + Points(s.grade.value) * s.credits
      && after.count == before.count + 1
    ensures !Contributes(s) ==> Totals(a + [s] + b) == Totals(a + b)
  {
    var c := Contribution(s);
    assert c == if Contributes(s) then Tally(s.credits, Points(s.grade.value) * s.credits, 1) else Zero;
    assert a + [s] + b == (a + [s]) + b;
    TotalsAppend(a + [s], b);
    TotalsAppend(a, b);
    assert Totals(a + [s]) == Totals(a).Plus(c) by {
      assert (a + [s])[..|a|] == a;
    }
    PlusAssoc(Totals(a), c, Totals(b));
    if !Contributes(s) {
      PlusZero(Totals(b));
    }
  }

  /** Credits are never negative, and points lie between 0 and ten times the credits
      (every table value lies in [0, 10]); positive credits mean at least one counted
      subject, and the count never exceeds the number of rows. */
  lemma {:induction false} TotalsBounds(subjects: seq<Subject>)
    ensures var t := Totals(subjects);
      && 0.0 <= t.credits
      && 0.0 <= t.points <= 10.0 * t.credits
      && t.count <= |subjects|
      && (t.credits > 0.0 <==> t.count > 0)
    decreases |subjects|
  {
    if |subjects| > 0 {
      var s := subjects[|subjects| - 1];
      TotalsBounds(subjects[..|subjects| - 1]);
      if Contributes(s) {
        var p := Points(s.grade.value);
        assert 0.0 <= p * s.credits <= 10.0 * s.credits;
      }
    }
  }

  /** The totals are positive exactly when some row has a grade and positive credits. */
  lemma {:induction false} TotalsPositive(subjects: seq<Subject>)
    ensures Totals(subjects).count > 0 <==> exists i :: 0 <= i < |subjects| && Contributes(subjects[i])
    decreases |subjects|
  {
    if |subjects| > 0 {
      var init := subjects[..|subjects| - 1];
      TotalsPositive(init);
      if exists i :: 0 <= i < |init| && Contributes(init[i]) {
        var i :| 0 <= i < |init| && Contributes(init[i]);
        assert subjects[i] == init[i];
      }
      if exists i :: 0 <= i < |subjects| && Contributes(subjects[i]) {
        var i :| 0 <= i < |subjects| && Contributes(subjects[i]);
        if i < |init| {
          assert init[i] == subjects[i];
        }
      }
    }
  }

  /** The zero-guarded average: points per credit, or 0 when there are no credits. */
  function Gpa(points: real, credits: real): (g: real)
    ensures credits > 0.0 ==> g * credits == points
    ensures credits <= 0.0 ==> g == 0.0
  {
    if credits > 0.0 then points / credits else 0.0
  }

  /** When points lie between 0 and ten times the credits, the average lies in [0, 10]. */
  lemma GpaInRange(points: real, credits: real)
    requires 0.0 <= points <= 10.0 * credits
    ensures 0.0 <= Gpa(points, credits) <= 10.0
  {
    if credits > 0.0 {
      var g := points / credits;
      assert g * credits == points;
      if g > 10.0 {
        assert g * credits > 10.0 * credits;
      }
    }
  }

  /** What the semester card shows: counted subjects, credits and GPA. */
  datatype Summary = Summary(validSubjects: nat, totalCredits: real, totalGradePoints: real, gpa: real)

  /** The accumulation loop over the subject rows of one semester. */
  method SummarizeSubjects(subjects: seq<Subject>) returns (s: Summary)
    ensures var t := Totals(subjects);
      && s.validSubjects == t.count
      && s.totalCredits == t.credits
      && s.totalGradePoints == t.points
    ensures s.gpa == Gpa(s.totalGradePoints, s.totalCredits)
    ensures 0.0 <= s.totalCredits && 0.0 <= s.totalGradePoints <= 10.0 * s.totalCredits
    ensures 0.0 <= s.gpa <= 10.0
    ensures s.totalCredits > 0.0 <==> exists i :: 0 <= i < |subjects| && Contributes(subjects[i])
  {
    var totalCredits: real, totalGradePoints: real, validSubjects: nat := 0.0, 0.0, 0;
    for i := 0 to |subjects|
      invariant Totals(subjects[..i]) == Tally(totalCredits, totalGradePoints, validSubjects)
    {
      ghost var before := Tally(totalCredits, totalGradePoints, validSubjects);
      var row := subjects[i];
      if row.grade.Some? && row.credits > 0.0 {
        var gradePoints := Points(row.grade.value) * row.credits;
        totalCredits := totalCredits + row.credits;
        totalGradePoints := totalGradePoints + gradePoints;
        validSubjects := validSubjects + 1;
      }
      assert Tally(totalCredits, totalGradePoints, validSubjects) == before.Plus(Contribution(row));
      TotalsSnoc(subjects, i);
    }
    assert subjects[..|subjects|] == subjects;
    var gpa := if totalCredits > 0.0 then totalGradePoints / totalCredits else 0.0;
    s := Summary(validSubjects, totalCredits, totalGradePoints, gpa);
    TotalsBounds(subjects);
    TotalsPositive(subjects);
    GpaInRange(totalGradePoints, totalCredits);
  }

  /** A semester record as the calculator keeps it: the ordinal id and the totals last
      written back by the semester summary. */
  datatype Semester = Semester(id: int, totalCredits: real, totalGradePoints: real, gpa: real)

  /** The totals of a record agree with each other the way a semester summary leaves them. */
  predicate Consistent(sem: Semester) {
    && 0.0 <= sem.totalCredits
    && 0.0 <= sem.totalGradePoints <= 10.0 * sem.totalCredits
    && sem.gpa == Gpa(sem.totalGradePoints, sem.totalCredits)
  }

  /** Index of the first record with the given id, as an array's find picks it. */
  function FindSemester(sems: seq<Semester>, id: int): (k: Option<nat>)
    ensures k.None? <==> forall i :: 0 <= i < |sems| ==> sems[i].id != id
    ensures k.Some? ==> k.value < |sems| && sems[k.value].id == id
    ensures k.Some? ==> forall i :: 0 <= i < k.value ==> sems[i].id != id
    decreases |sems|
  {
    if |sems| == 0 then None
    else if sems[0].id == id then Some(0)
    else match FindSemester(sems[1..], id)
      case None => None
      case Some(k) => Some(k + 1)
  }

  /** The cumulative sums over the semester records that have positive credits; `count`
      is the number of such semesters. */
  function SemesterTotals(sems: seq<Semester>): Tally
    decreases |sems|
  {
    if |sems| == 0 then Zero
    else
      var last := sems[|sems| - 1];
      var rest := SemesterTotals(sems[..|sems| - 1]);
      if last.totalCredits > 0.0 then rest.Plus(Tally(last.totalCredits, last.totalGradePoints, 1))
      else rest
  }

  /** Some semester has positive credits exactly when the summed credits are positive, and
      exactly when the count of such semesters is; so once a semester qualifies the sum
      never needs its zero guard. With consistent records, the points stay within ten
      times the credits. */
  lemma {:induction false} SemesterTotalsPositive(sems: seq<Semester>)
    ensures var t := SemesterTotals(sems);
      && 0.0 <= t.credits
      && (t.count > 0 <==> t.credits > 0.0)
      && (t.count > 0 <==> exists i :: 0 <= i < |sems| && sems[i].totalCredits > 0.0)
    ensures (forall i :: 0 <= i < |sems| ==> Consistent(sems[i])) ==>
      0.0 <= SemesterTotals(sems).points <= 10.0 * SemesterTotals(sems).credits
    decreases |sems|
  {
    if |sems| > 0 {
      var init := sems[..|sems| - 1];
      SemesterTotalsPositive(init);
      if exists i :: 0 <= i < |init| && init[i].totalCredits > 0.0 {
        var i :| 0 <= i < |init| && init[i].totalCredits > 0.0;
        assert sems[i] == init[i];
      }
      if exists i :: 0 <= i < |sems| && sems[i].totalCredits > 0.0 {
        var i :| 0 <= i < |sems| && sems[i].totalCredits > 0.0;
        if i < |init| {
          assert init[i] == sems[i];
        }
      }
      if forall i :: 0 <= i < |sems| ==> Consistent(sems[i]) {
        assert forall i :: 0 <= i < |init| ==> init[i] == sems[i];
      }
    }
  }

  /** The records created for a new calculation: ids 1 to n, every total zero. */
  function FreshSemesters(n: nat): (sems: seq<Semester>)
    ensures |sems| == n
    ensures forall i :: 0 <= i < n ==> sems[i].id == i + 1 && Consistent(sems[i])
    ensures SemesterTotals(sems) == Zero
    decreases n
  {
    if n == 0 then [] else
      var sems := FreshSemesters(n - 1) + [Semester(n, 0.0, 0.0, 0.0)];
      assert sems[..n - 1] == FreshSemesters(n - 1);
      sems
  }

  lemma FreshSemestersSnoc(n: nat)
    ensures FreshSemesters(n + 1) == FreshSemesters(n) + [Semester(n + 1, 0.0, 0.0, 0.0)]
  {
  }

  /** Limits on the number of semesters a calculation may have. */
  const MinSemesters := 1
  const MaxSemesters := 12

  /** The semester-count check as written: a count below 1 or above 12 is rejected. The
      count is an integer parse of the form field, modelled as None when the parse yields
      NaN; every comparison with NaN is false, so NaN is NOT rejected. */
  function SetupGuardAsWritten(parsed: Option<int>): (accepted: bool)
    ensures parsed.Some? ==> (accepted <==> MinSemesters <= parsed.value <= MaxSemesters)
  {
    match parsed
    case None => true
    case Some(n) => !(n < MinSemesters || n > MaxSemesters)
  }

  /** The number of semester records the setup loop creates: one per i from 1 up to the
      count; a NaN bound runs the loop zero times. */
  function SemestersCreated(parsed: Option<int>): nat {
    match parsed
    case None => 0
    case Some(n) => if n < 0 then 0 else n
  }

  /** An empty or non-numeric count passes the check as written and sets up a
      calculation with no semesters at all. */
  lemma NaNCountPassesGuard()
    ensures SetupGuardAsWritten(None)
    ensures SemestersCreated(None) == 0 < MinSemesters
  {
  }

  /** The corrected check: a count that parsed to a number between 1 and 12. */
  function ValidSemesterCount(parsed: Option<int>): (accepted: bool)
    ensures accepted ==> parsed.Some? && MinSemesters <= SemestersCreated(parsed) <= MaxSemesters
    ensures parsed.Some? ==> (accepted <==> SetupGuardAsWritten(parsed))
  {
    parsed.Some? && MinSemesters <= parsed.value <= MaxSemesters
  }
}
