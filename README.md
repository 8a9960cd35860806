# CGPA calculator — aggregation and history model

A Dafny model of the calculation and history logic of the `CGPACalculator` class in
`script.js`, a browser CGPA calculator. The page and its DOM are left out.

- **Grading scale** (`grades.dfy`, module `Grades`) holds the fixed letter-to-points table (O 10, A+ 9, A 8,
  B+ 7, B 6, C 5, F 0). It also holds the threshold ladder that gives a letter to a GPA or CGPA: 9.5 → O,
  8.5 → A+, 7.5 → A, 6.5 → B+, 5.5 → B, 4.0 → C, otherwise F, with each lower bound inclusive.
- **Aggregation** (`aggregate.dfy`, module `Aggregate`) covers:
  - the per-semester totals over the subject rows. Only rows with a grade selected and credits above zero
    count. Their credits are summed, their points times credits are summed, and the GPA is the zero-guarded
    ratio of the two;
  - the semester records, and the cumulative sums over the semesters with positive credits;
  - the check on the number of semesters.
- **History log** (`history.dfy`, module `History`) holds saved results, most recent first and capped at
  50 entries. It covers saving, lookup by id and deletion by id.
- **CSV export** (`csv.dfy`, module `Csv`) has one header line and then one comma-separated line per
  entry. The two-decimal number formatting is a parameter, `fixed2`.
- **The calculator object** (`calculator.dfy`, class `Calculator.CgpaCalculator`) has two fields:
  - `semesters`, the records of the calculation under way;
  - `storage`, the browser key-value store under the history key. `None` stands for an absent key.

  Its methods are the source's setup, summary write-back, CGPA, reset, save, view, delete, clear and
  export operations. Each one is reduced to its effect on these two fields. One departs from the code:
  `SetupCalculation` applies the corrected semester-count check, so it rejects the NaN count that the
  code accepts (see "## Findings").

Credits and points are Dafny `real`s, so the arithmetic is exact.

Subject rows come in as a parameter, `seq<Subject>`. A `Subject` is a pair of credits and an optional grade:
- the credits are already parsed, and a field that does not parse reads as 0;
- the grade is `None` for the empty choice.

A parsed semester count is an `Option<int>`, and `None` stands for NaN.

Deleting an id that no entry has gives no not-found signal. The code rewrites the unchanged log and reports "Calculation deleted" as it does for a real delete; the model rewrites the unchanged log in the same way.

## Model

| member | source | states |
|---|---|---|
| `Grades.Points` | script.js:79-87 | every table value lies in [0, 10]; only F is worth 0 |
| `Grades.PointsFollowRank` | script.js:79-87 | a better letter is worth strictly more points; no two letters share a value |
| `Grades.LetterGrade` | script.js:364-372 | the returned letter's band, with inclusive lower bounds, contains the score |
| `Grades.LetterGradeIsBand` | script.js:364-372 | the ladder returns a letter if and only if the score lies in that letter's band |
| `Grades.LetterGradeMonotone` | script.js:364-372 | a higher score never gets a worse letter |
| `Aggregate.Contribution` | script.js:308-317 | one row counts at most once, and counts exactly when it has a grade and positive credits, adding its own credits; its credits are ≥ 0 and its weighted points lie between 0 and 10 × its credits |
| `Aggregate.TotalsAppend` | script.js:303-318 | the semester totals are additive over any split of the rows |
| `Aggregate.SubjectEffect` | script.js:303-318 | inserting a row anywhere adds its credits, weighted points and one to the count when it has a grade and credits > 0; otherwise no total changes |
| `Aggregate.TotalsBounds` | script.js:299-318 | credits ≥ 0; 0 ≤ points ≤ 10 × credits; the count is at most the number of rows; credits > 0 if and only if the count > 0 |
| `Aggregate.TotalsPositive` | script.js:303-318 | the count is positive exactly when some row has a grade and positive credits |
| `Aggregate.Gpa` | script.js:320 | with positive credits, gpa × credits = points; otherwise the gpa is 0 |
| `Aggregate.GpaInRange` | script.js:320 | when 0 ≤ points ≤ 10 × credits, the gpa lies in [0, 10] |
| `Aggregate.SummarizeSubjects` | script.js:299-320 | the loop's count, credits and points are the totals over the rows; its gpa is their zero-guarded ratio and lies in [0, 10]; its credits are positive if and only if some row contributes |
| `Aggregate.FindSemester` | script.js:328 | the index found is the first record with that id; None if and only if no record has it |
| `Aggregate.SemesterTotalsPositive` | script.js:342-355 | the sums over semesters with positive credits are positive exactly when some semester has positive credits, so the second zero guard never fires; with consistent records, points ≤ 10 × credits |
| `Aggregate.FreshSemesters` | script.js:169-180 | n records with ids 1..n and all totals zero, which add nothing to the CGPA sums |
| `Aggregate.SetupGuardAsWritten` | script.js:147-153 | a parsed count is accepted if and only if it lies in 1..12 (NaN is accepted as well; see Findings) |
| `Aggregate.NaNCountPassesGuard` | script.js:147-153 | a NaN count passes the check as written and yields zero semesters |
| `Aggregate.ValidSemesterCount` | script.js:150-153 | the corrected check accepts only a number in 1..12 and agrees with the written check on every number |
| `History.Cap` | script.js:516-519 | keeps the first min(length, 50) entries, in order |
| `History.Prepend` | script.js:513-519 | the new result is at index 0; the length is min(old + 1, 50); entries 1.. are the old log's first min(old, 49) entries, in order |
| `History.PrependKeepsCap` | script.js:513-519 | a log within the cap stays within it; below the cap, nothing is dropped |
| `History.SaveAllNewestFirst` | script.js:512-522 | after any run of saves, the log is the saved results, latest first, followed by the older log, all cut to 50 |
| `History.SaveManyKeepsLatest` | script.js:512-522 | after 50 or more saves, exactly the 50 latest results are kept, latest first |
| `History.FindById` | script.js:563-565 | not found if and only if no entry has the id; what is found is an entry of the log with that id |
| `History.FindByIdFirst` | script.js:563 | the lookup returns the first entry with the id |
| `History.FindAfterSave` | script.js:513-514 | a saved result is found under its own id straight after the save |
| `History.DeleteById` | script.js:589 | an entry is in the result if and only if it is in the log and has another id; the result is no longer than the log |
| `History.DeleteAppend` | script.js:589 | deletion distributes over concatenation, so order is kept |
| `History.DeleteOne` | script.js:589 | a single entry is dropped exactly when it has the id |
| `History.DeleteAbsent` | script.js:589 | an id that no entry has leaves the log unchanged |
| `History.DeleteIdempotent` | script.js:589 | after a delete no entry has the id, and deleting again changes nothing |
| `Csv.SplitJoin` | script.js:637 | splitting a join at the separator gives back the parts when no part holds the separator |
| `Csv.NatToString` | script.js:634-637 | a number prints as a non-empty string of decimal digits, without a leading zero, that reads back as the number |
| `Csv.IntToString` | script.js:632-637 | an integer prints as digits, with a leading minus sign exactly when negative, no leading zero after the sign, and reads back as the integer |
| `Csv.Fields` | script.js:627-635 | an entry gives exactly as many fields as the header has columns |
| `Csv.Lines` | script.js:637 | a log of n entries gives n + 1 lines (the header line, then one per entry) |
| `Csv.GenerateCSV` | script.js:625-638 | the export begins with the header line |
| `Csv.RowReadsBack` | script.js:627-637 | an entry's line holds no newline and splits at commas back into its seven fields |
| `Csv.CsvLayout` | script.js:625-638 | if no field holds a comma or newline, the export of n entries splits into n + 1 lines; the first splits into the 7-column header, and line i + 1 into entry i's fields (date, time, CGPA, letter grade, total credits, total grade points, semesters) |
| `Calculator.CgpaCalculator.constructor` | script.js:76-95 | a new calculator has no semesters and keeps what the store holds; its invariant holds |
| `Calculator.CgpaCalculator.LoadFromLocalStorage` | script.js:524-526 | an absent key reads as the empty log |
| `Calculator.CgpaCalculator.SetupCalculation` | script.js:146-156 | an accepted count replaces the records by ids 1..n with zero totals; a rejected count changes nothing; unlike the code, a NaN count is rejected (corrected check, see Findings) |
| `Calculator.CgpaCalculator.CreateSemesterInputs` | script.js:165-180 | appends as many zeroed records as the setup loop runs, with ids 1..n, to the existing ones; none when n < 1 |
| `Calculator.CgpaCalculator.UpdateSemesterSummary` | script.js:295-334 | the summary is the rows' totals and gpa; only the record with that id gets them; every other record and the stored log are unchanged; the invariant is kept |
| `Calculator.CgpaCalculator.CalculateCGPA` | script.js:336-362 | an error if and only if no semester has positive credits; otherwise the positive-credit sums, cgpa × credits = points, the ladder's letter for the cgpa, and the cgpa lies in [0, 10] for valid records |
| `Calculator.CgpaCalculator.ResetCalculation` | script.js:499-501 | the records are emptied; the stored log is untouched |
| `Calculator.CgpaCalculator.SaveToLocalStorage` | script.js:512-522 | the store holds the capped prepend of the old log: the result at index 0 and length min(old + 1, 50) |
| `Calculator.CgpaCalculator.ViewHistoryDetails` | script.js:561-565 | nothing if and only if no stored entry has the id; otherwise the first stored entry with that id, the one the lookup returns |
| `Calculator.CgpaCalculator.DeleteHistoryItem` | script.js:586-590 | the store holds the old log without the entries with that id |
| `Calculator.CgpaCalculator.ClearHistory` | script.js:596-598 | the key is removed and the log reads as empty |
| `Calculator.CgpaCalculator.ExportHistory` | script.js:604-612 | "nothing to export" if and only if the stored log is empty; otherwise that log's CSV |

## Findings

| source | as written | input that shows it | evidently intended | confidence | as-written member | corrected member |
|---|---|---|---|---|---|---|
| script.js:147-156 | the count check rejects only counts below 1 or above 12; an integer parse of an empty or non-numeric field is NaN, and every comparison with NaN is false | an empty semester-count field: the check passes, the setup loop runs zero times, and setup reports success with no semesters | reject anything that is not a number in 1..12 | medium (not executed; relies on JavaScript's NaN comparisons) | `Aggregate.SetupGuardAsWritten`, `Aggregate.NaNCountPassesGuard` | `Aggregate.ValidSemesterCount` (used by `Calculator.CgpaCalculator.SetupCalculation`) |

## Left out

- The decorative matrix-rain animation: canvas drawing, randomness and animation frames.
- All DOM wiring. This covers event listeners, navigation, the mobile menu, building semester cards and subject rows, adding and removing a subject row, the results panel, modals and toasts. The subject rows of a semester are the `subjects` parameter of `UpdateSemesterSummary`.
- Confirmation dialogs. Delete, clear and reset are modelled as if the user confirmed.
- Printing and the printable HTML report.
- The file download in the export: blob, object URL and the anchor click. Only the empty-log check and the CSV text are modelled.
- JSON encoding of the stored log. The store holds the log as a value. A corrupt stored value makes the code throw, because nothing handles it softly, so the model has no corrupt state and no fail-soft path.
- Building a saved result. The id is a timestamp, the date and time are locale strings, and the figures are re-read from the displayed, already rounded text. The model takes the `Entry` record as given.
- Csv.GenerateCSV: `toFixed(2)` is the parameter `fixed2`, so the model does not state that the CGPA and grade-point fields have exactly two decimal places.
- Floating point. Credits, points, GPA and CGPA are exact reals, so double rounding is not modelled.
- JavaScript number-to-string rules beyond integers. A non-integer or NaN total-credits value in the CSV is not modelled, because `totalCredits` is an `int`.
- The `subjects` array of each semester record. The code creates it empty and never writes it.
- Service-worker registration.
