/** Two checks the screens make before they call the store. They belong to the
    callers, not to the store: the store itself accepts any student and any
    grade. */
module Screens {
  import opened Entities
  import opened Roster
  import opened Stations
  import opened Store

  /** The add-student screen: only an album number nobody has yet is added,
      and the new student is then seated at the chosen station. */
  method AddStudentIfAbsent(store: SessionStore, student: Student, station: int) returns (added: bool)
    modifies store
    ensures added <==> forall s :: s in old(store.students) ==> s.albumNumber != student.albumNumber
    ensures added ==> (store.students == old(store.students) + [student]
      && store.assignments == Reassigned(old(store.assignments), student.albumNumber, station))
    ensures !added ==> store.students == old(store.students) && store.assignments == old(store.assignments)
    ensures store.tasks == old(store.tasks) && store.passed == old(store.passed)
    ensures old(UniqueAlbums(store.students)) ==> UniqueAlbums(store.students)
  {
    added := FirstWithAlbum(store.students, student.albumNumber).None?;
    if added {
      assert forall s :: s in store.students ==> s.albumNumber != student.albumNumber by {
        forall s | s in store.students ensures s.albumNumber != student.albumNumber {
          var i :| 0 <= i < |store.students| && store.students[i] == s;
        }
      }
      if UniqueAlbums(store.students) {
        AppendNewAlbum(store.students, student);
      }
      store.AddStudent(student);
      store.AssignStudentToStation(student.albumNumber, station);
    }
  }

  /** The grading screen's manual grade. Typing sets the error flag unless
      the text parses to a number from 2.0 to 5.0; the save button is enabled
      only without the error and when the parsed number differs from the
      student's current grade. A press then replaces the proposed grade
      through updateStudent; otherwise nothing is saved. */
  method OverrideProposedGrade(store: SessionStore, student: Student, parsed: Option<Grade>) returns (saved: bool)
    modifies store
    ensures saved <==> (parsed.Some? && LowestGrade <= parsed.value <= HighestGrade
      && parsed.value != student.proposedGrade)
    ensures saved ==> store.students == StudentsUpdated(old(store.students), student, student.(proposedGrade := parsed.value))
    ensures !saved ==> store.students == old(store.students)
    ensures store.tasks == old(store.tasks) && store.assignments == old(store.assignments) && store.passed == old(store.passed)
  {
    var inError := !(parsed.Some? && LowestGrade <= parsed.value <= HighestGrade);
    var enabled := !inError && parsed != Some(student.proposedGrade);
    saved := enabled;
    if saved {
      store.UpdateStudent(student, student.(proposedGrade := parsed.value));
    }
  }
}
