/** The records of a lab session: the two data classes of the store and the
    snapshot of its four collections that the report is built from. */
module Entities {

  /** A grade. The source stores grades as doubles but only compares them,
      takes maxima and falls back to 2.0, so exact reals model them. */
  type Grade = real

  /** The proposed grade of a student nobody has graded yet, and the grade a
      recompute falls back to when no passed task is left. */
  const DefaultGrade: Grade := 2.0

  /** The grades a manual override may set (checked by the grading screen). */
  const LowestGrade: Grade := 2.0
  const HighestGrade: Grade := 5.0

  datatype Student = Student(albumNumber: string, name: string, surname: string, proposedGrade: Grade)

  datatype Task = Task(description: string, grade: Grade)

  datatype Option<+T> = None | Some(value: T)

  /** Station number to the album numbers seated there, in seating order. */
  type Assignments = map<int, seq<string>>

  /** Album number to the descriptions of the tasks that student passed. */
  type Ledger = map<string, set<string>>

  /** One consistent read of the four persisted collections. */
  datatype Snapshot = Snapshot(students: seq<Student>, tasks: seq<Task>, assignments: Assignments, passed: Ledger)

  /** The passed-task descriptions recorded for an album, empty when the ledger
      has no entry for it. */
  function PassedOf(passed: Ledger, album: string): set<string>
  {
    if album in passed then passed[album] else {}
  }
}
