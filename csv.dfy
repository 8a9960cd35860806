/** The CSV export of the history log: one header line and one line per entry, lines
    joined with newlines and fields with commas. The two-decimal rendering of a number
    is a parameter, `fixed2`. */
module Csv {
  import opened History

  /** Array join with a one-character separator: the parts with `sep` between neighbours. */
  function Join(parts: seq<string>, sep: char): string
    decreases |parts|
  {
    if |parts| == 0 then ""
    else if |parts| == 1 then parts[0]
    else parts[0] + [sep] + Join(parts[1..], sep)
  }

  /** Cuts a text at every occurrence of `sep`; the reading side of `Join`. */
  function Split(s: string, sep: char): (parts: seq<string>)
    ensures |parts| >= 1
    decreases |s|
  {
    if |s| == 0 then [""]
    else
      var rest := Split(s[1..], sep);
      if s[0] == sep then [""] + rest else [[s[0]] + rest[0]] + rest[1..]
  }

  lemma {:induction false} SplitWithout(a: string, sep: char)
    requires sep !in a
    ensures Split(a, sep) == [a]
    decreases |a|
  {
    if |a| > 0 {
      SplitWithout(a[1..], sep);
      assert [a[0]] + a[1..] == a;
    }
  }

  lemma {:induction false} SplitAtFirst(a: string, b: string, sep: char)
    requires sep !in a
    ensures Split(a + [sep] + b, sep) == [a] + Split(b, sep)
    decreases |a|
  {
    var s := a + [sep] + b;
    if |a| == 0 {
      assert s[1..] == b;
    } else {
      assert s[1..] == a[1..] + [sep] + b;
      SplitAtFirst(a[1..], b, sep);
      assert [a[0]] + a[1..] == a;
    }
  }

  /** Splitting undoes joining when no part holds the separator. */
  lemma {:induction false} SplitJoin(parts: seq<string>, sep: char)
    requires |parts| >= 1
    requires forall i :: 0 <= i < |parts| ==> sep !in parts[i]
    ensures Split(Join(parts, sep), sep) == parts
    decreases |parts|
  {
    if |parts| == 1 {
      SplitWithout(parts[0], sep);
    } else {
      SplitJoin(parts[1..], sep);
      SplitAtFirst(parts[0], Join(parts[1..], sep), sep);
      assert [parts[0]] + parts[1..] == parts;
    }
  }

  /** A character that is in no part and is not the separator is not in the joined text. */
  lemma {:induction false} JoinAvoids(parts: seq<string>, sep: char, c: char)
    requires c != sep
    requires forall i :: 0 <= i < |parts| ==> c !in parts[i]
    ensures c !in Join(parts, sep)
    decreases |parts|
  {
    if |parts| > 1 {
      JoinAvoids(parts[1..], sep, c);
    }
  }

  /** The number a string of decimal digits denotes, most significant digit first. */
  function DigitsValue(s: string): nat
    requires forall i :: 0 <= i < |s| ==> '0' <= s[i] <= '9'
    decreases |s|
  {
    if |s| == 0 then 0
    else 10 * DigitsValue(s[..|s| - 1]) + (s[|s| - 1] - '0') as nat
  }

  /** The number a decimal rendering with an optional leading minus sign denotes. */
  function SignedValue(s: string): int
    requires |s| >= 1
    requires s[0] == '-' || '0' <= s[0] <= '9'
    requires forall i :: 1 <= i < |s| ==> '0' <= s[i] <= '9'
  {
    if s[0] == '-' then -(DigitsValue(s[1..]) as int) else DigitsValue(s)
  }

  /** Decimal digits of a natural number, most significant first, as a number prints:
      they read back as the number, with no leading zero. */
  function NatToString(n: nat): (s: string)
    ensures |s| >= 1
    ensures forall i :: 0 <= i < |s| ==> '0' <= s[i] <= '9'
    ensures DigitsValue(s) == n
    ensures |s| == 1 || s[0] != '0'
    decreases n
  {
    var digit := ['0' + ((n % 10) as char)];
    if n < 10 then digit
    else
      var prefix := NatToString(n / 10);
      assert (prefix + digit)[..|prefix|] == prefix;
      prefix + digit
  }

  /** Decimal rendering of an integer, with a leading minus sign exactly when negative:
      it reads back as the integer. */
  function IntToString(n: int): (s: string)
    ensures |s| >= 1 && (n >= 0 <==> s[0] != '-')
    ensures s[0] == '-' || '0' <= s[0] <= '9'
    ensures forall i :: 1 <= i < |s| ==> '0' <= s[i] <= '9'
    ensures SignedValue(s) == n
    ensures n >= 0 ==> |s| == 1 || s[0] != '0'
    ensures n < 0 ==> |s| >= 2 && s[1] != '0'
  {
    if n < 0 then
      var digits := NatToString(-n);
      assert ("-" + digits)[1..] == digits;
      "-" + digits
    else NatToString(n)
  }

  /** The header row. */
  const Header: seq<string> :=
    ["Date", "Time", "CGPA", "Letter Grade", "Total Credits", "Total Grade Points", "Semesters"]

  /** The seven fields of an entry's row, in column order. */
  function Fields(e: Entry, fixed2: real -> string): (row: seq<string>)
    ensures |row| == |Header|
  {
    [e.date, e.time, fixed2(e.cgpa), e.letterGrade, IntToString(e.totalCredits),
     fixed2(e.totalGradePoints), NatToString(e.semesters)]
  }

  /** An entry's line: its fields joined with commas. */
  function Row(e: Entry, fixed2: real -> string): string {
    Join(Fields(e, fixed2), ',')
  }

  /** One line per entry, in log order. */
  function Rows(history: seq<Entry>, fixed2: real -> string): (rows: seq<string>)
    ensures |rows| == |history|
    ensures forall i :: 0 <= i < |history| ==> rows[i] == Row(history[i], fixed2)
    decreases |history|
  {
    if |history| == 0 then [] else [Row(history[0], fixed2)] + Rows(history[1..], fixed2)
  }

  /** The lines of the export: the header line, then the entries' lines. */
  function Lines(history: seq<Entry>, fixed2: real -> string): (lines: seq<string>)
    ensures |lines| == |history| + 1
  {
    [Join(Header, ',')] + Rows(history, fixed2)
  }

  /** The export text: each line's fields joined with commas, the lines joined with newlines. */
  function GenerateCSV(history: seq<Entry>, fixed2: real -> string): (csv: string)
    ensures Join(Header, ',') <= csv
  {
    Join(Lines(history, fixed2), '\n')
  }

  /** A field that holds neither separator. */
  predicate Plain(field: string) {
    ',' !in field && '\n' !in field
  }

  /** The free-text and formatted fields of an entry hold neither separator. */
  predicate PlainEntry(e: Entry, fixed2: real -> string) {
    Plain(e.date) && Plain(e.time) && Plain(e.letterGrade)
    && Plain(fixed2(e.cgpa)) && Plain(fixed2(e.totalGradePoints))
  }

  lemma FieldsPlain(e: Entry, fixed2: real -> string)
    requires PlainEntry(e, fixed2)
    ensures forall i :: 0 <= i < |Header| ==> Plain(Fields(e, fixed2)[i])
  {
    var credits, semesters := IntToString(e.totalCredits), NatToString(e.semesters);
    assert Plain(credits) by {
      assert forall i :: 0 <= i < |credits| ==> credits[i] != ',' && credits[i] != '\n';
    }
    assert Plain(semesters) by {
      assert forall i :: 0 <= i < |semesters| ==> semesters[i] != ',' && semesters[i] != '\n';
    }
  }

  /** An entry's line holds no newline and splits at its commas back into its fields. */
  lemma RowReadsBack(e: Entry, fixed2: real -> string)
    requires PlainEntry(e, fixed2)
    ensures '\n' !in Row(e, fixed2)
    ensures Split(Row(e, fixed2), ',') == Fields(e, fixed2)
  {
    FieldsPlain(e, fixed2);
    SplitJoin(Fields(e, fixed2), ',');
    JoinAvoids(Fields(e, fixed2), ',', '\n');
  }

  /** The header line splits back into the seven column names and holds no newline. */
  lemma HeaderSplits()
    ensures Split(Join(Header, ','), ',') == Header
  {
    SplitJoin(Header, ',');
  }

  lemma HeaderHasNoNewline()
    ensures '\n' !in Join(Header, ',')
  {
    JoinAvoids(Header, ',', '\n');
  }

  /** No entry's line holds a newline, and each splits back into that entry's fields. */
  lemma RowsReadBack(history: seq<Entry>, fixed2: real -> string)
    requires forall i :: 0 <= i < |history| ==> PlainEntry(history[i], fixed2)
    ensures var rows := Rows(history, fixed2);
      forall i :: 0 <= i < |history| ==>
        '\n' !in rows[i] && Split(rows[i], ',') == Fields(history[i], fixed2)
  {
    forall i | 0 <= i < |history|
      ensures '\n' !in Row(history[i], fixed2)
      ensures Split(Row(history[i], fixed2), ',') == Fields(history[i], fixed2)
    {
      RowReadsBack(history[i], fixed2);
    }
  }

  /** No line of the export holds a newline; the header line splits into the header and
      each entry's line into that entry's fields. */
  lemma LinesReadBack(history: seq<Entry>, fixed2: real -> string)
    requires forall i :: 0 <= i < |history| ==> PlainEntry(history[i], fixed2)
    ensures var lines := Lines(history, fixed2);
      && (forall i :: 0 <= i < |lines| ==> '\n' !in lines[i])
      && Split(lines[0], ',') == Header
      && forall i :: 0 <= i < |history| ==> Split(lines[i + 1], ',') == Fields(history[i], fixed2)
  {
    var header, rows := Join(Header, ','), Rows(history, fixed2);
    HeaderSplits();
    HeaderHasNoNewline();
    RowsReadBack(history, fixed2);
    assert ([header] + rows)[0] == header;
    assert forall i :: 0 <= i < |rows| ==> ([header] + rows)[i + 1] == rows[i];
  }

  /** Read back with the same separators, the export of n entries has n + 1 lines: the
      header first, then for each entry, in log order, its seven fields in column order
      (date, time, CGPA, letter grade, total credits, total grade points, semesters). */
  lemma CsvLayout(history: seq<Entry>, fixed2: real -> string)
    requires forall i :: 0 <= i < |history| ==> PlainEntry(history[i], fixed2)
    ensures var lines := Split(GenerateCSV(history, fixed2), '\n');
      && |lines| == |history| + 1
      && Split(lines[0], ',') == Header
      && forall i :: 0 <= i < |history| ==> Split(lines[i + 1], ',') == Fields(history[i], fixed2)
  {
    LinesReadBack(history, fixed2);
    SplitJoin(Lines(history, fixed2), '\n');
  }
}
