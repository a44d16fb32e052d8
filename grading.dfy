/** The passed-tasks ledger and the proposed grade derived from it: the pure
    steps of markTaskAsPassed and markTaskAsNotPassed. */
module Grading {
  import opened Entities
  import opened Roster

  function Max(a: Grade, b: Grade): Grade
  {
    if a < b then b else a
  }

  /** The ledger step of markTaskAsPassed: `getOrPut(album) { mutableSetOf() }`
      then `add(description)`. */
  function LedgerWith(passed: Ledger, album: string, description: string): Ledger
  {
    passed[album := PassedOf(passed, album) + {description}]
  }

  /** The ledger step of markTaskAsNotPassed: `passed[album]?.remove(description)`;
      no entry is created for an album the ledger does not know. */
  function LedgerWithout(passed: Ledger, album: string, description: string): Ledger
  {
    if album in passed then passed[album := passed[album] - {description}] else passed
  }

  /** Marking a task passed records it for that album only, and doing it twice
      leaves the same ledger as doing it once. */
  lemma LedgerWithRecords(passed: Ledger, album: string, description: string)
    ensures LedgerWith(passed, album, description).Keys == passed.Keys + {album}
    ensures PassedOf(LedgerWith(passed, album, description), album) == PassedOf(passed, album) + {description}
    ensures forall a :: a != album ==> PassedOf(LedgerWith(passed, album, description), a) == PassedOf(passed, a)
    ensures LedgerWith(LedgerWith(passed, album, description), album, description) == LedgerWith(passed, album, description)
  {
    var once := LedgerWith(passed, album, description);
    assert PassedOf(once, album) + {description} == PassedOf(once, album);
  }

  /** Unmarking removes the description for that album only and never adds a
      ledger entry; unmarking what was just marked leaves the album's set as
      it was without that description. */
  lemma LedgerWithoutRemoves(passed: Ledger, album: string, description: string)
    ensures LedgerWithout(passed, album, description).Keys == passed.Keys
    ensures PassedOf(LedgerWithout(passed, album, description), album) == PassedOf(passed, album) - {description}
    ensures forall a :: a != album ==> PassedOf(LedgerWithout(passed, album, description), a) == PassedOf(passed, a)
    ensures PassedOf(LedgerWithout(LedgerWith(passed, album, description), album, description), album)
      == PassedOf(passed, album) - {description}
  {
  }

  /** `maxOf { it.grade }` over a list that is not empty. */
  function MaxGrade(tasks: seq<Task>): (g: Grade)
    requires tasks != []
    ensures forall t :: t in tasks ==> t.grade <= g
    ensures exists i :: 0 <= i < |tasks| && tasks[i].grade == g
  {
    if |tasks| == 1 then tasks[0].grade
    else
      var rest := MaxGrade(tasks[1..]);
      assert forall t :: t in tasks ==> t == tasks[0] || t in tasks[1..];
      Max(tasks[0].grade, rest)
  }

  /** The full recompute of markTaskAsNotPassed: the best grade among the
      catalogue tasks whose description is still passed, 2.0 when there are
      none. */
  function RecomputedGrade(tasks: seq<Task>, passed: set<string>): (g: Grade)
    ensures forall t :: t in tasks && t.description in passed ==> t.grade <= g
    ensures (exists t :: t in tasks && t.description in passed) ==>
      exists t :: t in tasks && t.description in passed && t.grade == g
    ensures (forall t :: t in tasks ==> t.description !in passed) ==> g == DefaultGrade
  {
    var earned := TasksIn(tasks, passed);
    TasksInMembers(tasks, passed);
    if earned != [] then
      var g := MaxGrade(earned);
      assert exists i :: 0 <= i < |earned| && earned[i].grade == g && earned[i] in earned;
      g
    else DefaultGrade
  }

  /** The student step of markTaskAsPassed: when the album's first student and
      the named task both exist and the task's grade is higher, that student's
      proposed grade is raised to it; nothing else changes. */
  function GradeRaised(students: seq<Student>, album: string, task: Option<Task>): (r: seq<Student>)
    ensures |r| == |students|
    ensures forall j :: 0 <= j < |r| ==>
      r[j] == students[j].(proposedGrade := r[j].proposedGrade) && r[j].proposedGrade >= students[j].proposedGrade
    ensures task.None? || FirstWithAlbum(students, album).None? ==> r == students
    ensures forall j :: 0 <= j < |r| && Some(j) != FirstWithAlbum(students, album) ==> r[j] == students[j]
    ensures task.Some? && FirstWithAlbum(students, album).Some? ==>
      var i := FirstWithAlbum(students, album).value;
      r[i].proposedGrade == Max(students[i].proposedGrade, task.value.grade)
  {
    match (FirstWithAlbum(students, album), task)
    case (Some(i), Some(t)) =>
      if t.grade > students[i].proposedGrade then students[i := students[i].(proposedGrade := t.grade)] else students
    case _ => students
  }

  /** Only album numbers decide which student is found first. */
  lemma {:induction false} FirstWithAlbumSameAlbums(a: seq<Student>, b: seq<Student>, album: string)
    requires |a| == |b|
    requires forall j :: 0 <= j < |a| ==> a[j].albumNumber == b[j].albumNumber
    ensures FirstWithAlbum(a, album) == FirstWithAlbum(b, album)
  {
    if a != [] {
      FirstWithAlbumSameAlbums(a[1..], b[1..], album);
    }
  }

  /** Raising twice with the same task is raising once. */
  lemma GradeRaisedIdempotent(students: seq<Student>, album: string, task: Option<Task>)
    ensures GradeRaised(GradeRaised(students, album, task), album, task) == GradeRaised(students, album, task)
  {
    var once := GradeRaised(students, album, task);
    FirstWithAlbumSameAlbums(students, once, album);
  }

  /** The student step of markTaskAsNotPassed: the album's first student, if
      any, gets the recomputed grade; every other student is left alone. */
  function GradeRecomputed(students: seq<Student>, album: string, grade: Grade): (r: seq<Student>)
    ensures |r| == |students|
    ensures FirstWithAlbum(students, album).None? ==> r == students
    ensures FirstWithAlbum(students, album).Some? ==>
      var i := FirstWithAlbum(students, album).value;
      r[i] == students[i].(proposedGrade := grade)
    ensures forall j :: 0 <= j < |r| && Some(j) != FirstWithAlbum(students, album) ==> r[j] == students[j]
  {
    match FirstWithAlbum(students, album)
    case None => students
    case Some(i) =>
      if grade != students[i].proposedGrade then students[i := students[i].(proposedGrade := grade)] else students
  }

  /** The raise of markTaskAsPassed and the recompute of markTaskAsNotPassed
      agree: when every catalogue task with the description has the same grade
      g and no task grade is below 2.0 (the task screen offers 3.0 to 5.0),
      recomputing after passing the description gives the old recomputed
      grade raised to g. */
  lemma PassingAgreesWithRecompute(tasks: seq<Task>, passed: set<string>, description: string, g: Grade)
    requires exists t :: t in tasks && t.description == description
    requires forall t :: t in tasks && t.description == description ==> t.grade == g
    requires forall t :: t in tasks ==> DefaultGrade <= t.grade
    ensures RecomputedGrade(tasks, passed + {description}) == Max(RecomputedGrade(tasks, passed), g)
  {
    var before := RecomputedGrade(tasks, passed);
    var after := RecomputedGrade(tasks, passed + {description});
    var named :| named in tasks && named.description == description;
    assert g <= after;
    var top :| top in tasks && top.description in passed + {description} && top.grade == after;
    if exists t :: t in tasks && t.description in passed {
      var best :| best in tasks && best.description in passed && best.grade == before;
      assert before <= after;
    } else {
      assert before == DefaultGrade;
    }
    assert after <= Max(before, g);
  }
}
