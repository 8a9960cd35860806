/** The calculator object: the semester records of the calculation under way and the
    stored history log. The browser's key-value store is the field `storage`, holding the
    log kept under the history key, or None when that key is absent. */
module Calculator {
  import opened Wrappers
  import opened Grades
  import opened Aggregate
  import opened History
  import opened Csv

  /** The outcome of a successful CGPA calculation. */
  datatype Cgpa = Cgpa(cgpa: real, totalCredits: real, totalGradePoints: real, letterGrade: Grade)

  class CgpaCalculator {
    var semesters: seq<Semester>
    var storage: Option<seq<Entry>>

    /** The records are numbered 1, 2, ... in order, and each one's totals are those a
        semester summary leaves behind. */
    ghost predicate Valid()
      reads this
    {
      forall i :: 0 <= i < |semesters| ==> semesters[i].id == i + 1 && Consistent(semesters[i])
    }

    /** A new calculator starts with no semesters, over whatever the store already holds. */
    constructor (persisted: Option<seq<Entry>>)
      ensures Valid()
      ensures semesters == [] && storage == persisted
    {
      semesters := [];
      storage := persisted;
    }

    /** The stored log; an absent key reads as the empty log. */
    function LoadFromLocalStorage(): (h: seq<Entry>)
      reads this
      ensures storage.None? ==> h == []
    {
      storage.GetOr([])
    }

    /** Checks the parsed semester count and, when it is accepted, replaces the records by
        fresh ones numbered 1 to the count. A rejected count changes nothing. */
    method SetupCalculation(count: Option<int>) returns (accepted: bool)
      modifies this
      ensures accepted == ValidSemesterCount(count)
      ensures accepted ==> semesters == FreshSemesters(count.value) && Valid()
      ensures !accepted ==> semesters == old(semesters)
      ensures storage == old(storage)
    {
      if !ValidSemesterCount(count) {
        return false;
      }
      semesters := [];
      CreateSemesterInputs(count.value);
      accepted := true;
    }

    /** Appends one zeroed record per semester, with ids 1 to n (none when n < 1). */
    method CreateSemesterInputs(n: int)
      modifies this
      ensures semesters == old(semesters) + FreshSemesters(SemestersCreated(Some(n)))
      ensures storage == old(storage)
    {
      var i := 1;
      while i <= n
        invariant 1 <= i && (n >= 0 ==> i <= n + 1) && (n < 1 ==> i == 1)
        invariant storage == old(storage)
        invariant semesters == old(semesters) + FreshSemesters(i - 1)
      {
        FreshSemestersSnoc(i - 1);
        semesters := semesters + [Semester(i, 0.0, 0.0, 0.0)];
        i := i + 1;
      }
    }

    /** Recomputes a semester's totals from its subject rows and writes them into the
        record with that id; every other record, and the stored log, stay as they were. */
    method UpdateSemesterSummary(semesterNum: int, subjects: seq<Subject>) returns (summary: Summary)
      requires Valid()
      modifies this
      ensures Valid()
      ensures var t := Totals(subjects);
        && summary.validSubjects == t.count
        && summary.totalCredits == t.credits
        && summary.totalGradePoints == t.points
        && summary.gpa == Gpa(t.points, t.credits)
      ensures |semesters| == |old(semesters)|
      ensures forall i :: 0 <= i < |semesters| ==>
        semesters[i] == if old(semesters)[i].id == semesterNum
          then Semester(semesterNum, summary.totalCredits, summary.totalGradePoints, summary.gpa)
          else old(semesters)[i]
      ensures storage == old(storage)
    {
      summary := SummarizeSubjects(subjects);
      var found := FindSemester(semesters, semesterNum);
      if found.Some? {
        var k := found.value;
        semesters := semesters[k := Semester(semesterNum, summary.totalCredits, summary.totalGradePoints, summary.gpa)];
      }
    }

    /** Sums credits and grade points over the semesters with positive credits. Reports an
        error (None) exactly when no semester has positive credits; otherwise the CGPA is
        the credit-weighted mean, and for valid records it lies in [0, 10]. */
    method CalculateCGPA() returns (result: Option<Cgpa>)
      ensures result.None? <==> forall i :: 0 <= i < |semesters| ==> semesters[i].totalCredits <= 0.0
      ensures result.Some? ==>
        var t := SemesterTotals(semesters);
        && result.value.totalCredits == t.credits > 0.0
        && result.value.totalGradePoints == t.points
        && result.value.cgpa * t.credits == t.points
        && result.value.letterGrade == LetterGrade(result.value.cgpa)
      ensures result.Some? && Valid() ==> 0.0 <= result.value.cgpa <= 10.0
    {
      var hasValidData := false;
      var totalCredits, totalGradePoints := 0.0, 0.0;
      for i := 0 to |semesters|
        invariant SemesterTotals(semesters[..i]).credits == totalCredits
        invariant SemesterTotals(semesters[..i]).points == totalGradePoints
        invariant hasValidData <==> SemesterTotals(semesters[..i]).count > 0
      {
        assert semesters[..i + 1][..i] == semesters[..i];
        var semester := semesters[i];
        if semester.totalCredits > 0.0 {
          hasValidData := true;
          totalCredits := totalCredits + semester.totalCredits;
          totalGradePoints := totalGradePoints + semester.totalGradePoints;
        }
      }
      assert semesters[..|semesters|] == semesters;
      SemesterTotalsPositive(semesters);
      if !hasValidData {
        return None;
      }
      var cgpa := if totalCredits > 0.0 then totalGradePoints / totalCredits else 0.0;
      result := Some(Cgpa(cgpa, totalCredits, totalGradePoints, LetterGrade(cgpa)));
      if Valid() {
        GpaInRange(totalGradePoints, totalCredits);
      }
    }

    /** Drops the semester records of the calculation (once the user confirmed). */
    method ResetCalculation()
      modifies this
      ensures Valid()
      ensures semesters == [] && storage == old(storage)
    {
      semesters := [];
    }

    /** Puts a result in front of the stored log and keeps at most 50 entries. */
    method SaveToLocalStorage(result: Entry)
      modifies this
      ensures storage == Some(Prepend(old(LoadFromLocalStorage()), result))
      ensures LoadFromLocalStorage()[0] == result
      ensures |LoadFromLocalStorage()| == Min(|old(LoadFromLocalStorage())| + 1, Capacity)
      ensures semesters == old(semesters)
    {
      var history := LoadFromLocalStorage();
      history := [result] + history;
      if |history| > Capacity {
        history := history[..Capacity];
      }
      storage := Some(history);
    }

    /** The stored entry with the given id, if any. */
    method ViewHistoryDetails(id: int) returns (item: Option<Entry>)
      ensures item.None? <==> forall e :: e in LoadFromLocalStorage() ==> e.id != id
      ensures item.Some? ==> item.value in LoadFromLocalStorage() && item.value.id == id
      ensures item == FindById(LoadFromLocalStorage(), id)
      ensures var h := LoadFromLocalStorage();
        forall k :: 0 <= k < |h| && h[k].id == id && (forall j :: 0 <= j < k ==> h[j].id != id) ==>
          item == Some(h[k])
    {
      var history := LoadFromLocalStorage();
      item := FindById(history, id);
      forall k | 0 <= k < |history| && history[k].id == id && (forall j :: 0 <= j < k ==> history[j].id != id)
        ensures item == Some(history[k])
      {
        FindByIdFirst(history, id, k);
      }
    }

    /** Stores the log without the entries carrying the id (once the user confirmed). */
    method DeleteHistoryItem(id: int)
      modifies this
      ensures storage == Some(DeleteById(old(LoadFromLocalStorage()), id))
      ensures semesters == old(semesters)
    {
      var history := LoadFromLocalStorage();
      history := DeleteById(history, id);
      storage := Some(history);
    }

    /** Removes the stored log (once the user confirmed); it then reads as empty. */
    method ClearHistory()
      modifies this
      ensures storage == None && LoadFromLocalStorage() == []
      ensures semesters == old(semesters)
    {
      storage := None;
    }

    /** The CSV text of the stored log, or None ("no history to export") when it is empty. */
    method ExportHistory(fixed2: real -> string) returns (csv: Option<string>)
      ensures csv.None? <==> LoadFromLocalStorage() == []
      ensures csv.Some? ==> csv.value == GenerateCSV(LoadFromLocalStorage(), fixed2)
    {
      var history := LoadFromLocalStorage();
      if |history| == 0 {
        return None;
      }
      csv := Some(GenerateCSV(history, fixed2));
    }
  }
}
