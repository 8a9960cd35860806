/** The history log: saved calculation results, most recent first, capped at 50 entries,
    with lookup and deletion by id. */
module History {
  import opened Wrappers

  /** One semester's line of a saved result: its id, GPA and credits. */
  datatype SemesterRecord = SemesterRecord(semester: int, gpa: real, credits: real)

  /** A saved calculation. The id (a creation timestamp), the locale date and time strings
      and the figures read back from the results panel are taken as given. */
  datatype Entry = Entry(
    id: int,
    date: string,
    time: string,
    cgpa: real,
    totalCredits: int,
    totalGradePoints: real,
    letterGrade: string,
    semesters: nat,
    semesterData: seq<SemesterRecord>)

  /** The most entries the log keeps. */
  const Capacity := 50

  function Min(x: int, y: int): int {
    if x <= y then x else y
  }

  /** Keeps the first `Capacity` entries of a log that grew past the cap. */
  function Cap(h: seq<Entry>): (c: seq<Entry>)
    ensures |c| == Min(|h|, Capacity)
    ensures c == h[..|c|]
  {
    if |h| > Capacity then h[..Capacity] else h
  }

  /** Saving a result: it goes in front and the log is cut back to the cap. */
  function Prepend(h: seq<Entry>, r: Entry): (h': seq<Entry>)
    ensures |h'| == Min(|h| + 1, Capacity)
    ensures h'[0] == r
    ensures h'[1..] == h[..Min(|h|, Capacity - 1)]
  {
    Cap([r] + h)
  }

  /** A log within the cap stays within it after a save. */
  lemma PrependKeepsCap(h: seq<Entry>, r: Entry)
    requires |h| <= Capacity
    ensures |Prepend(h, r)| <= Capacity
    ensures |h| < Capacity ==> Prepend(h, r) == [r] + h
  {
  }

  function Reversed(s: seq<Entry>): (r: seq<Entry>)
    ensures |r| == |s|
    ensures forall i :: 0 <= i < |s| ==> r[i] == s[|s| - 1 - i]
  {
    if |s| == 0 then [] else Reversed(s[1..]) + [s[0]]
  }

  /** Saving the results `rs` one after the other, in that order. */
  function SaveAll(h: seq<Entry>, rs: seq<Entry>): seq<Entry>
    decreases |rs|
  {
    if |rs| == 0 then h else SaveAll(Prepend(h, rs[0]), rs[1..])
  }

  /** Cutting twice is cutting once, even when more entries go in front in between. */
  lemma CapAfterCap(a: seq<Entry>, b: seq<Entry>)
    ensures Cap(a + Cap(b)) == Cap(a + b)
  {
    if |b| > Capacity {
      assert (a + b[..Capacity])[..Capacity] == (a + b)[..Capacity];
    }
  }

  /** After any run of saves the log holds the newest results first, latest save in
      front, followed by the older log, all cut to the cap. */
  lemma {:induction false} SaveAllNewestFirst(h: seq<Entry>, rs: seq<Entry>)
    requires |h| <= Capacity || |rs| > 0
    ensures SaveAll(h, rs) == Cap(Reversed(rs) + h)
    decreases |rs|
  {
    if |rs| == 0 {
      assert Reversed(rs) + h == h;
    } else {
      SaveAllNewestFirst(Prepend(h, rs[0]), rs[1..]);
      CapAfterCap(Reversed(rs[1..]), [rs[0]] + h);
      assert Reversed(rs) == Reversed(rs[1..]) + [rs[0]];
      assert Reversed(rs[1..]) + ([rs[0]] + h) == Reversed(rs) + h;
    }
  }

  /** Saving 50 or more results keeps exactly the 50 latest, the latest first. */
  lemma SaveManyKeepsLatest(h: seq<Entry>, rs: seq<Entry>)
    requires |rs| >= Capacity
    ensures |SaveAll(h, rs)| == Capacity
    ensures forall i :: 0 <= i < Capacity ==> SaveAll(h, rs)[i] == rs[|rs| - 1 - i]
  {
    SaveAllNewestFirst(h, rs);
    assert forall i :: 0 <= i < Capacity ==> (Reversed(rs) + h)[i] == Reversed(rs)[i];
  }

  /** The first entry carrying the given id, or None. */
  function FindById(h: seq<Entry>, id: int): (r: Option<Entry>)
    ensures r.None? <==> forall i :: 0 <= i < |h| ==> h[i].id != id
    ensures r.Some? ==> r.value in h && r.value.id == id
    decreases |h|
  {
    if |h| == 0 then None
    else if h[0].id == id then Some(h[0])
    else FindById(h[1..], id)
  }

  /** The lookup returns the FIRST entry carrying the id. */
  lemma {:induction false} FindByIdFirst(h: seq<Entry>, id: int, k: nat)
    requires k < |h| && h[k].id == id
    requires forall i :: 0 <= i < k ==> h[i].id != id
    ensures FindById(h, id) == Some(h[k])
    decreases k
  {
    if k > 0 {
      FindByIdFirst(h[1..], id, k - 1);
    }
  }

  /** The entry a save puts in front is the one found under its id. */
  lemma FindAfterSave(h: seq<Entry>, r: Entry)
    ensures FindById(Prepend(h, r), r.id) == Some(r)
  {
  }

  /** The log filtered down to the entries whose id differs from the given one. */
  function DeleteById(h: seq<Entry>, id: int): (r: seq<Entry>)
    ensures |r| <= |h|
    ensures forall e :: e in r <==> e in h && e.id != id
    decreases |h|
  {
    if |h| == 0 then []
    else (if h[0].id == id then [] else [h[0]]) + DeleteById(h[1..], id)
  }

  /** Deleting works entry by entry: the result of a split log is the results of its parts,
      in order. With the one-entry case below, this pins the result down exactly: every
      entry with that id is dropped, every other entry is kept, and their order is kept. */
  lemma {:induction false} DeleteAppend(a: seq<Entry>, b: seq<Entry>, id: int)
    ensures DeleteById(a + b, id) == DeleteById(a, id) + DeleteById(b, id)
    decreases |a|
  {
    if |a| == 0 {
      assert a + b == b;
    } else {
      assert (a + b)[1..] == a[1..] + b;
      DeleteAppend(a[1..], b, id);
    }
  }

  lemma DeleteOne(e: Entry, id: int)
    ensures DeleteById([e], id) == if e.id == id then [] else [e]
  {
    assert [e][1..] == [];
  }

  /** An id that no entry carries leaves the log as it was. */
  lemma {:induction false} DeleteAbsent(h: seq<Entry>, id: int)
    requires FindById(h, id).None?
    ensures DeleteById(h, id) == h
    decreases |h|
  {
    if |h| > 0 {
      assert FindById(h[1..], id).None?;
      DeleteAbsent(h[1..], id);
      assert [h[0]] + h[1..] == h;
    }
  }

  /** After a delete nothing carries the id any more, so deleting it again changes nothing. */
  lemma DeleteIdempotent(h: seq<Entry>, id: int)
    ensures FindById(DeleteById(h, id), id).None?
    ensures DeleteById(DeleteById(h, id), id) == DeleteById(h, id)
  {
    var r := DeleteById(h, id);
    forall i | 0 <= i < |r|
      ensures r[i].id != id
    {
      assert r[i] in r;
    }
    DeleteAbsent(r, id);
  }
}
