/** The grading scale: the fixed letter-to-points table and the threshold ladder that
    turns a numeric score (a GPA or a CGPA) back into a letter. */
module Grades {

  /** The letter grades of the scale, best first. */
  datatype Grade = O | APlus | A | BPlus | B | C | F

  /** The grade-point table: O 10, A+ 9, A 8, B+ 7, B 6, C 5, F 0. */
  function Points(g: Grade): (p: real)
    ensures 0.0 <= p <= 10.0
    ensures p == 0.0 <==> g == F
  {
    match g
    case O => 10.0
    case APlus => 9.0
    case A => 8.0
    case BPlus => 7.0
    case B => 6.0
    case C => 5.0
    case F => 0.0
  }

  /** Position of a grade on the scale, F lowest (0) and O highest (6). */
  function Rank(g: Grade): (r: nat)
    ensures r <= 6
    ensures r == 0 <==> g == F
  {
    match g
    case O => 6
    case APlus => 5
    case A => 4
    case BPlus => 3
    case B => 2
    case C => 1
    case F => 0
  }

  /** A better grade is worth strictly more points, and the table has no ties. */
  lemma PointsFollowRank(g: Grade, h: Grade)
    ensures Rank(g) < Rank(h) <==> Points(g) < Points(h)
    ensures Points(g) == Points(h) <==> g == h
  {
  }

  /** The score band of each letter: inclusive lower bound, exclusive upper bound. */
  predicate InBand(score: real, g: Grade) {
    match g
    case O => 9.5 <= score
    case APlus => 8.5 <= score < 9.5
    case A => 7.5 <= score < 8.5
    case BPlus => 6.5 <= score < 7.5
    case B => 5.5 <= score < 6.5
    case C => 4.0 <= score < 5.5
    case F => score < 4.0
  }

  /** The first-match threshold ladder, evaluated from the highest tier down. */
  function LetterGrade(score: real): (g: Grade)
    ensures InBand(score, g)
  {
    if score >= 9.5 then O
    else if score >= 8.5 then APlus
    else if score >= 7.5 then A
    else if score >= 6.5 then BPlus
    else if score >= 5.5 then B
    else if score >= 4.0 then C
    else F
  }

  /** The bands partition the reals, so the ladder gives a letter exactly when the score
      lies in that letter's band. */
  lemma LetterGradeIsBand(score: real, g: Grade)
    ensures LetterGrade(score) == g <==> InBand(score, g)
  {
  }

  /** A higher score never gets a worse letter. */
  lemma LetterGradeMonotone(x: real, y: real)
    requires x <= y
    ensures Rank(LetterGrade(x)) <= Rank(LetterGrade(y))
  {
  }
}
