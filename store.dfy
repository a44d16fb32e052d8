/** The lab-session store: the student list, the task catalogue, the
    station-assignment map and the passed-tasks ledger that StorageManager
    keeps in one preference file. Each operation is one atomic
    read-modify-write of these four collections, as one `dataStore.edit`
    block is. */
module Store {
  import opened Entities
  import opened Sequences
  import opened Roster
  import opened Stations
  import opened Grading
  import opened Report
  import opened Export

  class SessionStore {
    var students: seq<Student>
    var tasks: seq<Task>
    var assignments: Assignments
    var passed: Ledger

    /** No album sits twice in a list or in two lists. A new store has it,
        and assignStudentToStation keeps it. */
    ghost predicate Valid()
      reads this
    {
      SingleSeat(assignments)
    }

    /** The four collections as one value, as exportToExcel reads them. */
    function Contents(): Snapshot
      reads this
    {
      Snapshot(students, tasks, assignments, passed)
    }

    /** A store with nothing saved: every key missing reads as empty. */
    constructor ()
      ensures students == [] && tasks == [] && assignments == map[] && passed == map[]
      ensures Valid()
    {
      students := [];
      tasks := [];
      assignments := map[];
      passed := map[];
    }

    /** addStudent: append, with no check for an album number already
        present. */
    method AddStudent(student: Student)
      modifies this
      ensures students == old(students) + [student]
      ensures tasks == old(tasks) && assignments == old(assignments) && passed == old(passed)
    {
      students := students + [student];
    }

    /** deleteStudent: keep the students with another album number. Station
        lists and the ledger keep the album. */
    method DeleteStudent(album: string)
      modifies this
      ensures students == StudentsWithout(old(students), album)
      ensures tasks == old(tasks) && assignments == old(assignments) && passed == old(passed)
    {
      students := StudentsWithout(students, album);
    }

    /** updateStudent: drop every student with the original's album number,
        append the updated one. */
    method UpdateStudent(original: Student, updated: Student)
      modifies this
      ensures students == StudentsUpdated(old(students), original, updated)
      ensures tasks == old(tasks) && assignments == old(assignments) && passed == old(passed)
    {
      students := StudentsUpdated(students, original, updated);
    }

    /** addTask: append, duplicates allowed. */
    method AddTask(task: Task)
      modifies this
      ensures tasks == old(tasks) + [task]
      ensures students == old(students) && assignments == old(assignments) && passed == old(passed)
    {
      tasks := tasks + [task];
    }

    /** deleteTask: keep the tasks that differ in description or grade. */
    method DeleteTask(task: Task)
      modifies this
      ensures tasks == TasksWithout(old(tasks), task)
      ensures students == old(students) && assignments == old(assignments) && passed == old(passed)
    {
      tasks := TasksWithout(tasks, task);
    }

    /** updateTask: drop every copy of the original, append the updated task. */
    method UpdateTask(original: Task, updated: Task)
      modifies this
      ensures tasks == TasksUpdated(old(tasks), original, updated)
      ensures students == old(students) && assignments == old(assignments) && passed == old(passed)
    {
      tasks := TasksUpdated(tasks, original, updated);
    }

    /** assignStudentToStation: drop the album's first copy from every list,
        then append it to the station's list, created empty when missing,
        unless that list still holds it. On a valid store the album ends up
        at that station only. */
    method AssignStudentToStation(album: string, station: int)
      modifies this
      ensures assignments == Reassigned(old(assignments), album, station)
      ensures students == old(students) && tasks == old(tasks) && passed == old(passed)
      ensures old(Valid()) ==> Valid() && StationsOf(assignments, album) == {station}
    {
      ghost var wasValid := Valid();
      var cleared := assignments;
      var pending := assignments.Keys;
      while pending != {}
        invariant pending <= assignments.Keys
        invariant cleared.Keys == assignments.Keys
        invariant forall k :: k in cleared ==>
          cleared[k] == (if k in pending then assignments[k] else RemoveFirst(assignments[k], album))
        decreases pending
      {
        // As in Report.HasLeast: the loop guard is a set equality, which
        // has to be unfolded before a key can be picked.
        assert exists z :: z in pending by {
          if forall z :: z !in pending {
            assert false;
          }
        }
        var k :| k in pending;
        cleared := cleared[k := RemoveFirst(cleared[k], album)];
        pending := pending - {k};
      }
      assert cleared.Keys == Detached(assignments, album).Keys;
      assert forall k :: k in cleared ==> cleared[k] == Detached(assignments, album)[k];
      assert cleared == Detached(assignments, album);
      var list := if station in cleared then cleared[station] else [];
      if album !in list {
        list := list + [album];
      }
      if wasValid {
        ReassignedSeatsOnce(assignments, album, station);
      }
      assignments := cleared[station := list];
    }

    /** getStudentsForStation: the stored students whose album the station's
        list holds, in storage order; nobody for a station with no list. The
        order is that of Stations.StudentsForStation, which keeps storage
        order by Roster.StudentsAtAppend. */
    function StudentsOfStation(station: int): (r: seq<Student>)
      reads this
      ensures r == Stations.StudentsForStation(students, assignments, station)
      ensures forall s :: s in r <==> s in students && station in assignments && s.albumNumber in assignments[station]
      ensures forall s :: (multiset(r)[s]
        == if station in assignments && s.albumNumber in assignments[station] then multiset(students)[s] else 0)
      ensures station !in assignments ==> r == []
      ensures |r| <= |students|
    {
      StudentsForStationMembers(students, assignments, station);
      StudentsAtMembers(students, if station in assignments then assignments[station] else []);
      Stations.StudentsForStation(students, assignments, station)
    }

    /** markTaskAsPassed: record the description for the album, then raise
        the album's first student to the grade of the first task so
        described, when that grade is higher. */
    method MarkTaskAsPassed(album: string, description: string)
      modifies this
      ensures passed == LedgerWith(old(passed), album, description)
      ensures students == GradeRaised(old(students), album, FirstTaskNamed(old(tasks), description))
      ensures tasks == old(tasks) && assignments == old(assignments)
    {
      passed := passed[album := PassedOf(passed, album) + {description}];
      var studentAt := FirstWithAlbum(students, album);
      var task := FirstTaskNamed(tasks, description);
      if studentAt.Some? && task.Some? {
        var index := studentAt.value;
        if task.value.grade > students[index].proposedGrade {
          students := students[index := students[index].(proposedGrade := task.value.grade)];
        }
      }
    }

    /** markTaskAsNotPassed: remove the description from the album's entry,
        if it has one, then give the album's first student the best grade
        among the catalogue tasks still passed, or 2.0 when none is. */
    method MarkTaskAsNotPassed(album: string, description: string)
      modifies this
      ensures passed == LedgerWithout(old(passed), album, description)
      ensures students == GradeRecomputed(old(students), album, RecomputedGrade(old(tasks), PassedOf(passed, album)))
      ensures tasks == old(tasks) && assignments == old(assignments)
    {
      if album in passed {
        passed := passed[album := passed[album] - {description}];
      }
      var studentAt := FirstWithAlbum(students, album);
      if studentAt.Some? {
        var index := studentAt.value;
        var grade := RecomputedGrade(tasks, PassedOf(passed, album));
        if grade != students[index].proposedGrade {
          students := students[index := students[index].(proposedGrade := grade)];
        }
      }
    }

    /** clearAllData: every key removed, so every collection reads empty. */
    method ClearAllData()
      modifies this
      ensures students == [] && tasks == [] && assignments == map[] && passed == map[]
      ensures Valid()
    {
      students := [];
      tasks := [];
      assignments := map[];
      passed := map[];
    }

    /** The layout of exportToExcel over the current contents. */
    method ExportLayout() returns (blocks: seq<StationBlock>)
      ensures IsReport(Contents(), blocks)
    {
      blocks := Layout(Contents());
    }
  }
}
