/** The list operations of the store on students and tasks: append, filter
    delete, update as delete-then-append, first-match lookups and the
    filters that join students to a station and tasks to a ledger entry.
    Each is what one `filter`, `+`, `find` or `indexOfFirst` computes in
    StorageManager.kt. */
module Roster {
  import opened Entities
  import opened Sequences

  /** How many students carry this album number (the store itself does not
      keep album numbers unique). */
  function AlbumCount(students: seq<Student>, album: string): (n: nat)
    ensures n <= |students|
  {
    if students == [] then 0
    else (if students[0].albumNumber == album then 1 else 0) + AlbumCount(students[1..], album)
  }

  /** The test of deleteStudent's filter. */
  function AlbumIsNot(album: string): Student -> bool
  {
    (s: Student) => s.albumNumber != album
  }

  /** deleteStudent: the students whose album number differs, in order. */
  function StudentsWithout(students: seq<Student>, album: string): seq<Student>
  {
    Filter(students, AlbumIsNot(album))
  }

  /** Deleting keeps exactly the students with another album number and
      drops one entry per student that has it. */
  lemma {:induction false} StudentsWithoutMembers(students: seq<Student>, album: string)
    ensures forall s :: s in StudentsWithout(students, album) <==> s in students && s.albumNumber != album
    ensures |StudentsWithout(students, album)| == |students| - AlbumCount(students, album)
  {
    if students != [] {
      StudentsWithoutMembers(students[1..], album);
      assert students == [students[0]] + students[1..];
      assert StudentsWithout(students, album)
        == (if students[0].albumNumber != album then [students[0]] else []) + StudentsWithout(students[1..], album);
    }
  }

  /** The kept students keep their relative order. */
  lemma StudentsWithoutAppend(a: seq<Student>, b: seq<Student>, album: string)
    ensures StudentsWithout(a + b, album) == StudentsWithout(a, album) + StudentsWithout(b, album)
  {
    FilterAppend(a, b, AlbumIsNot(album));
  }

  /** Deleting an album nobody has leaves the list as it was. */
  lemma StudentsWithoutAbsent(students: seq<Student>, album: string)
    requires forall s :: s in students ==> s.albumNumber != album
    ensures StudentsWithout(students, album) == students
  {
    FilterAll(students, AlbumIsNot(album));
  }

  /** Deleting a student twice is deleting it once. */
  lemma StudentsWithoutIdempotent(students: seq<Student>, album: string)
    ensures StudentsWithout(StudentsWithout(students, album), album) == StudentsWithout(students, album)
  {
    FilterIdempotent(students, AlbumIsNot(album));
  }

  /** No two students share an album number. The store does not keep this;
      the add-student screen does. */
  ghost predicate UniqueAlbums(students: seq<Student>)
  {
    forall i, j :: 0 <= i < j < |students| ==> students[i].albumNumber != students[j].albumNumber
  }

  /** Appending a student whose album number nobody has keeps the numbers
      unique, and exactly one student then has it. */
  lemma AppendNewAlbum(students: seq<Student>, student: Student)
    requires UniqueAlbums(students)
    requires forall s :: s in students ==> s.albumNumber != student.albumNumber
    ensures UniqueAlbums(students + [student])
    ensures AlbumCount(students + [student], student.albumNumber) == 1
  {
    var r := students + [student];
    forall i, j | 0 <= i < j < |r| ensures r[i].albumNumber != r[j].albumNumber {
      assert r[i] == students[i];
      if j < |students| {
        assert r[j] == students[j];
      } else {
        assert students[i] in students;
      }
    }
    AlbumCountAbsent(students, student.albumNumber);
    AlbumCountAppend(students, [student], student.albumNumber);
  }

  lemma {:induction false} AlbumCountAbsent(students: seq<Student>, album: string)
    requires forall s :: s in students ==> s.albumNumber != album
    ensures AlbumCount(students, album) == 0
  {
    if students != [] {
      assert students[0] in students;
      AlbumCountAbsent(students[1..], album);
    }
  }

  lemma {:induction false} AlbumCountAppend(a: seq<Student>, b: seq<Student>, album: string)
    ensures AlbumCount(a + b, album) == AlbumCount(a, album) + AlbumCount(b, album)
  {
    if a == [] {
      assert a + b == b;
    } else {
      assert (a + b)[0] == a[0];
      assert (a + b)[1..] == a[1..] + b;
      AlbumCountAppend(a[1..], b, album);
    }
  }

  /** updateStudent: every student with the original's album number dropped,
      the updated student appended last. */
  function StudentsUpdated(students: seq<Student>, original: Student, updated: Student): seq<Student>
  {
    StudentsWithout(students, original.albumNumber) + [updated]
  }

  /** After an update the updated student is last; before it stand exactly
      the stored students with another album number, one entry dropped per
      student that had the original's. */
  lemma StudentsUpdatedShape(students: seq<Student>, original: Student, updated: Student)
    ensures |StudentsUpdated(students, original, updated)| == |students| - AlbumCount(students, original.albumNumber) + 1
    ensures StudentsUpdated(students, original, updated)[|StudentsUpdated(students, original, updated)| - 1] == updated
    ensures forall i :: 0 <= i < |StudentsUpdated(students, original, updated)| - 1 ==>
      StudentsUpdated(students, original, updated)[i] in students
      && StudentsUpdated(students, original, updated)[i].albumNumber != original.albumNumber
    ensures forall s :: s in students && s.albumNumber != original.albumNumber ==> s in StudentsUpdated(students, original, updated)
  {
    var kept := StudentsWithout(students, original.albumNumber);
    StudentsWithoutMembers(students, original.albumNumber);
    assert forall i :: 0 <= i < |kept| ==> StudentsUpdated(students, original, updated)[i] == kept[i];
  }

  /** The round trip of an edit: when exactly one student had the original
      album number the list keeps its length, the updated student is in it,
      and after a change of album number nobody has the old one. */
  lemma StudentsUpdatedReplacesOne(students: seq<Student>, original: Student, updated: Student)
    requires AlbumCount(students, original.albumNumber) == 1
    ensures |StudentsUpdated(students, original, updated)| == |students|
    ensures updated in StudentsUpdated(students, original, updated)
    ensures updated.albumNumber != original.albumNumber ==>
      forall s :: s in StudentsUpdated(students, original, updated) ==> s.albumNumber != original.albumNumber
  {
    StudentsUpdatedShape(students, original, updated);
    StudentsWithoutMembers(students, original.albumNumber);
    var r := StudentsUpdated(students, original, updated);
    assert r[|r| - 1] == updated;
  }

  /** deleteTask: the tasks that differ from the given one in description or
      in grade, in order. */
  function TasksWithout(tasks: seq<Task>, task: Task): (r: seq<Task>)
    ensures forall t :: t in r <==> t in tasks && (t.description != task.description || t.grade != task.grade)
    ensures |r| == |tasks| - multiset(tasks)[task]
    ensures multiset(r) == multiset(tasks)[task := 0]
  {
    RemoveAllCounts(tasks, task);
    assert forall t :: t in RemoveAll(tasks, task) <==> t in multiset(RemoveAll(tasks, task));
    RemoveAll(tasks, task)
  }

  /** Deleting a task twice is deleting it once. */
  lemma TasksWithoutIdempotent(tasks: seq<Task>, task: Task)
    ensures TasksWithout(TasksWithout(tasks, task), task) == TasksWithout(tasks, task)
  {
    FilterIdempotent(tasks, Differs(task));
  }

  /** Deleting a task from a catalogue split in two deletes it from each
      part, so the remaining tasks keep their catalogue order. */
  lemma TasksWithoutAppend(a: seq<Task>, b: seq<Task>, task: Task)
    ensures TasksWithout(a + b, task) == TasksWithout(a, task) + TasksWithout(b, task)
  {
    FilterAppend(a, b, Differs(task));
  }

  /** updateTask: every copy of the original task dropped, the updated task
      appended last. Before it stand exactly the catalogue's other tasks,
      each as often as the catalogue lists it. */
  function TasksUpdated(tasks: seq<Task>, original: Task, updated: Task): (r: seq<Task>)
    ensures |r| == |tasks| - multiset(tasks)[original] + 1
    ensures r[|r| - 1] == updated
    ensures original !in r[..|r| - 1]
    ensures forall t :: t in tasks && t != original ==> t in r
    ensures forall i :: 0 <= i < |r| - 1 ==> r[i] in tasks
    ensures multiset(r[..|r| - 1]) == multiset(tasks)[original := 0]
  {
    var kept := TasksWithout(tasks, original);
    assert (kept + [updated])[..|kept|] == kept;
    kept + [updated]
  }

  /** The test of the station join's filter. */
  function AlbumIn(albums: seq<string>): Student -> bool
  {
    (s: Student) => s.albumNumber in albums
  }

  /** The join behind the station views: the students whose album number is
      in the list, in storage order. */
  function StudentsAt(students: seq<Student>, albums: seq<string>): seq<Student>
  {
    Filter(students, AlbumIn(albums))
  }

  /** The join keeps exactly the students whose album is listed, each as
      often as it is stored; an empty list keeps nobody. */
  lemma StudentsAtMembers(students: seq<Student>, albums: seq<string>)
    ensures forall s :: s in StudentsAt(students, albums) <==> s in students && s.albumNumber in albums
    ensures forall s :: multiset(StudentsAt(students, albums))[s] == if s.albumNumber in albums then multiset(students)[s] else 0
    ensures |StudentsAt(students, albums)| <= |students|
    ensures albums == [] ==> StudentsAt(students, albums) == []
  {
    forall s ensures (s in StudentsAt(students, albums) <==> s in students && s.albumNumber in albums)
      && multiset(StudentsAt(students, albums))[s] == if s.albumNumber in albums then multiset(students)[s] else 0
    {
      FilterCount(students, AlbumIn(albums), s);
    }
    FilterLength(students, AlbumIn(albums));
  }

  /** The join keeps storage order. */
  lemma StudentsAtAppend(a: seq<Student>, b: seq<Student>, albums: seq<string>)
    ensures StudentsAt(a + b, albums) == StudentsAt(a, albums) + StudentsAt(b, albums)
  {
    FilterAppend(a, b, AlbumIn(albums));
  }

  /** The test of the passed-tasks filter. */
  function DescribedIn(descriptions: set<string>): Task -> bool
  {
    (t: Task) => t.description in descriptions
  }

  /** The tasks whose description is in the set, in catalogue order. */
  function TasksIn(tasks: seq<Task>, descriptions: set<string>): seq<Task>
  {
    Filter(tasks, DescribedIn(descriptions))
  }

  /** The filter keeps exactly the tasks whose description is in the set,
      each as often as the catalogue lists it. */
  lemma TasksInMembers(tasks: seq<Task>, descriptions: set<string>)
    ensures forall t :: t in TasksIn(tasks, descriptions) <==> t in tasks && t.description in descriptions
    ensures forall t :: multiset(TasksIn(tasks, descriptions))[t] == if t.description in descriptions then multiset(tasks)[t] else 0
    ensures |TasksIn(tasks, descriptions)| <= |tasks|
  {
    forall t ensures (t in TasksIn(tasks, descriptions) <==> t in tasks && t.description in descriptions)
      && multiset(TasksIn(tasks, descriptions))[t] == if t.description in descriptions then multiset(tasks)[t] else 0
    {
      FilterCount(tasks, DescribedIn(descriptions), t);
    }
    FilterLength(tasks, DescribedIn(descriptions));
  }

  /** The filter keeps catalogue order. */
  lemma TasksInAppend(a: seq<Task>, b: seq<Task>, descriptions: set<string>)
    ensures TasksIn(a + b, descriptions) == TasksIn(a, descriptions) + TasksIn(b, descriptions)
  {
    FilterAppend(a, b, DescribedIn(descriptions));
  }

  /** `indexOfFirst { it.albumNumber == album }`, None standing for -1. */
  function FirstWithAlbum(students: seq<Student>, album: string): (r: Option<nat>)
    ensures r.Some? ==> r.value < |students| && students[r.value].albumNumber == album
    ensures r.Some? ==> forall j :: 0 <= j < r.value ==> students[j].albumNumber != album
    ensures r.None? ==> forall j :: 0 <= j < |students| ==> students[j].albumNumber != album
  {
    if students == [] then None
    else if students[0].albumNumber == album then Some(0)
    else match FirstWithAlbum(students[1..], album)
      case None => None
      case Some(i) => Some(i + 1)
  }

  /** The index of the first task with this description. */
  function FirstTaskIndex(tasks: seq<Task>, description: string): (r: Option<nat>)
    ensures r.Some? ==> r.value < |tasks| && tasks[r.value].description == description
    ensures r.Some? ==> forall j :: 0 <= j < r.value ==> tasks[j].description != description
    ensures r.None? ==> forall j :: 0 <= j < |tasks| ==> tasks[j].description != description
  {
    if tasks == [] then None
    else if tasks[0].description == description then Some(0)
    else match FirstTaskIndex(tasks[1..], description)
      case None => None
      case Some(i) => Some(i + 1)
  }

  /** `find { it.description == description }`: the first task so named. */
  function FirstTaskNamed(tasks: seq<Task>, description: string): (r: Option<Task>)
    ensures r.Some? ==> r.value in tasks && r.value.description == description
    ensures r.Some? ==> exists i :: (0 <= i < |tasks| && tasks[i] == r.value
      && forall j :: 0 <= j < i ==> tasks[j].description != description)
    ensures r.None? ==> forall t :: t in tasks ==> t.description != description
  {
    match FirstTaskIndex(tasks, description)
    case None => None
    case Some(i) => Some(tasks[i])
  }
}
