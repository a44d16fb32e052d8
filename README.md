# Laboratorium: the lab-session store

Laboratorium is an Android app a teacher uses during a lab session. It keeps
a list of students (album number, name, surname, proposed grade), a
catalogue of tasks (description, grade), an assignment of students to
numbered lab stations, and a ledger of the task descriptions each student
has passed. It also exports a grade report as a spreadsheet. All of this
lives in `StorageManager`. Every mutating operation reads the four
collections, changes them and writes them back in one `dataStore.edit`
block.

This project models that store in Dafny.

- `entities.dfy`: the `Student` and `Task` records, grades as `real`, the
  assignment map (`map<int, seq<string>>`) and the ledger
  (`map<string, set<string>>`).
- `sequences.dfy`: Kotlin's `filter`, once for every list the store
  filters, with removing every copy of a value (`filter { it != x }`) and
  removing only the first copy (`MutableList.remove`).
- `roster.dfy`: the list operations behind add, delete and update, the
  first-match lookups (`find`, `indexOfFirst`) and the joins.
- `stations.dfy`: `assignStudentToStation` on the decoded map, the
  at-most-one-station invariant, and `getStudentsForStation`.
- `grading.dfy`: the ledger steps and the grade raise and recompute of
  `markTaskAsPassed` and `markTaskAsNotPassed`.
- `ordering.dfy`: Kotlin's stable `sortedBy` as an insertion sort, and
  string order for surnames.
- `report.dfy`: what the export lists, in what order, and at which rows and
  columns.
- `export.dfy`: the loops of `exportToExcel` that compute that layout.
- `store.dfy`: class `SessionStore`, whose four fields are the four
  collections. It has one method per store operation, and each method is
  one atomic step.
- `screens.dfy`: two checks that the screens make before calling the store.
  The store itself does not make them.

Behaviour of the code worth knowing. The model follows the code in each
case.

- `markTaskAsNotPassed` uses 2.0 only when no passed task remains. It is not
  a lower bound: if the only remaining passed task has a grade below 2.0,
  the result is below 2.0.
- `assignStudentToStation` removes only the first copy of the album number
  from each list. Copies spread over different lists all go, but a second
  copy inside one list other than the target survives, and the album then
  sits at two stations. `SessionStore.Valid` (no album twice in a list or in
  two lists) rules that out: on a valid map the album ends up exactly once,
  and every method keeps `Valid`.
- `addStudent` does not check for duplicates. Only the add-student screen
  checks that an album number is new.

## Model

| member | source | states |
|---|---|---|
| Store.SessionStore.constructor | app/src/main/java/com/example/laboratorium/StorageManager.kt:86-92 | A store with nothing saved reads as four empty collections, and it satisfies the one-station invariant |
| Store.SessionStore.AddStudent | app/src/main/java/com/example/laboratorium/StorageManager.kt:44-51 | The student is appended at the end with no duplicate check; the other collections are unchanged |
| Store.SessionStore.DeleteStudent | app/src/main/java/com/example/laboratorium/StorageManager.kt:57-64 | The student list becomes the filter on album number; the assignments and the ledger keep the album number |
| Store.SessionStore.UpdateStudent | app/src/main/java/com/example/laboratorium/StorageManager.kt:70-80 | The student list becomes the delete-then-append of the updated student; the other collections are unchanged |
| Store.SessionStore.AddTask | app/src/main/java/com/example/laboratorium/StorageManager.kt:232-239 | The task is appended at the end, duplicates allowed |
| Store.SessionStore.DeleteTask | app/src/main/java/com/example/laboratorium/StorageManager.kt:245-252 | The catalogue becomes the filter on description and grade together |
| Store.SessionStore.UpdateTask | app/src/main/java/com/example/laboratorium/StorageManager.kt:270-280 | The catalogue becomes the delete-then-append of the updated task |
| Store.SessionStore.AssignStudentToStation | app/src/main/java/com/example/laboratorium/StorageManager.kt:97-121 | The loop over every list computes the reassigned map; on a valid store the album then sits at the chosen station only, and the store stays valid |
| Store.SessionStore.StudentsOfStation | app/src/main/java/com/example/laboratorium/StorageManager.kt:138-146 | The result is Stations.StudentsForStation of the fields, so storage order is kept; a student is in it exactly when stored and listed at the station, as often as stored; no list gives nobody; never longer than the student list |
| Store.SessionStore.MarkTaskAsPassed | app/src/main/java/com/example/laboratorium/StorageManager.kt:151-176 | The ledger gains the description for the album, and the students become the grade-raised list for the first task with that description |
| Store.SessionStore.MarkTaskAsNotPassed | app/src/main/java/com/example/laboratorium/StorageManager.kt:182-216 | The ledger loses the description (no entry is created), and the album's first student gets the grade recomputed from the remaining passed tasks |
| Store.SessionStore.ClearAllData | app/src/main/java/com/example/laboratorium/StorageManager.kt:286-290 | All four collections are empty again and the invariant holds |
| Store.SessionStore.Contents | app/src/main/java/com/example/laboratorium/StorageManager.kt:296-299 | The four reads at the start of exportToExcel taken as one snapshot of the fields; ExportLayout states the export of it |
| Store.SessionStore.ExportLayout | app/src/main/java/com/example/laboratorium/StorageManager.kt:295-397 | The export of the current contents follows the report layout rules |
| Sequences.Filter | app/src/main/java/com/example/laboratorium/StorageManager.kt:62 | Kotlin's `filter`: the accepted elements in their order; FilterCount, FilterLength and FilterAppend state what it keeps |
| Sequences.FilterCount | app/src/main/java/com/example/laboratorium/StorageManager.kt:62 | A filter keeps every accepted element exactly as often as it occurred and drops every rejected one |
| Sequences.FilterLength | app/src/main/java/com/example/laboratorium/StorageManager.kt:62 | A filter never makes a list longer |
| Sequences.FilterAppend | app/src/main/java/com/example/laboratorium/StorageManager.kt:62 | A filter distributes over concatenation, so the kept elements keep their relative order |
| Sequences.FilterAll | app/src/main/java/com/example/laboratorium/StorageManager.kt:62 | A filter that accepts every element leaves the list unchanged |
| Sequences.FilterIdempotent | app/src/main/java/com/example/laboratorium/StorageManager.kt:62 | Filtering twice with the same test is the same as filtering once |
| Sequences.RemoveAll | app/src/main/java/com/example/laboratorium/StorageManager.kt:250 | `filter { it != x }`; RemoveAllCounts states that every copy of x goes and everything else stays |
| Sequences.RemoveFirst | app/src/main/java/com/example/laboratorium/StorageManager.kt:112 | `MutableList.remove(x)`; RemoveFirstCounts states that exactly one copy goes when there is one |
| Sequences.RemoveAllCounts | app/src/main/java/com/example/laboratorium/StorageManager.kt:250 | Filtering a value out removes every copy of it and keeps every other element as often as it occurred |
| Sequences.RemoveFirstCounts | app/src/main/java/com/example/laboratorium/StorageManager.kt:112 | `remove` takes out exactly one copy when the value occurs, and changes nothing otherwise |
| Sequences.RemoveAllAfterRemoveFirst | app/src/main/java/com/example/laboratorium/StorageManager.kt:112 | Removing the first copy and then every copy is the same as removing every copy |
| Sequences.RemoveFirstOfSingle | app/src/main/java/com/example/laboratorium/StorageManager.kt:112 | When the value occurs at most once, removing the first copy removes all copies |
| Roster.AlbumCount | app/src/main/java/com/example/laboratorium/StorageManager.kt:62 | The number of students with an album number is at most the length of the list |
| Roster.StudentsWithout | app/src/main/java/com/example/laboratorium/StorageManager.kt:62 | deleteStudent's filter; StudentsWithoutMembers, StudentsWithoutAppend and StudentsWithoutIdempotent state what it keeps |
| Roster.StudentsWithoutMembers | app/src/main/java/com/example/laboratorium/StorageManager.kt:62 | deleteStudent keeps exactly the students with another album number, and removes one entry per student that has it |
| Roster.StudentsWithoutAppend | app/src/main/java/com/example/laboratorium/StorageManager.kt:62 | deleteStudent distributes over concatenation, so the kept students keep their order |
| Roster.StudentsWithoutAbsent | app/src/main/java/com/example/laboratorium/StorageManager.kt:62 | Deleting an album number nobody has changes nothing |
| Roster.StudentsWithoutIdempotent | app/src/main/java/com/example/laboratorium/StorageManager.kt:57-64 | Deleting a student twice is the same as deleting once |
| Roster.AppendNewAlbum | app/src/main/java/com/example/laboratorium/AddStudentActivity.kt:265-267 | Appending a student whose album number is new keeps album numbers unique, and exactly one student has the new number |
| Roster.AlbumCountAppend | app/src/main/java/com/example/laboratorium/StorageManager.kt:49 | Counting an album number over a concatenation adds the counts of the two parts |
| Roster.StudentsUpdated | app/src/main/java/com/example/laboratorium/StorageManager.kt:76-77 | updateStudent's delete-then-append; StudentsUpdatedShape and StudentsUpdatedReplacesOne state its result |
| Roster.StudentsUpdatedShape | app/src/main/java/com/example/laboratorium/StorageManager.kt:76-77 | After updateStudent the updated student is last; before it stand exactly the students with another album number; the length drops by the number of matches and grows by one |
| Roster.StudentsUpdatedReplacesOne | app/src/main/java/com/example/laboratorium/StorageManager.kt:70-80 | With exactly one match the length is unchanged, the updated student is present, and after an album change nobody has the old number |
| Roster.TasksWithout | app/src/main/java/com/example/laboratorium/StorageManager.kt:250 | deleteTask keeps exactly the tasks that differ in description or grade, each as often as the catalogue lists it, and removes every copy of the task |
| Roster.TasksWithoutIdempotent | app/src/main/java/com/example/laboratorium/StorageManager.kt:245-252 | Deleting a task twice is the same as deleting once |
| Roster.TasksWithoutAppend | app/src/main/java/com/example/laboratorium/StorageManager.kt:250 | Deleting a task from a split catalogue deletes it from each part, so the remaining tasks keep catalogue order |
| Roster.TasksUpdated | app/src/main/java/com/example/laboratorium/StorageManager.kt:276-277 | updateTask puts the updated task last; before it stand exactly the catalogue's other tasks, each as often as listed, and no copy of the original; the length is the old length minus the copies, plus one |
| Roster.StudentsAt | app/src/main/java/com/example/laboratorium/StorageManager.kt:144 | getStudentsForStation's join; StudentsAtMembers and StudentsAtAppend state what it keeps |
| Roster.StudentsAtMembers | app/src/main/java/com/example/laboratorium/StorageManager.kt:144 | The join keeps exactly the students whose album number is listed, each as often as stored; an empty list keeps nobody |
| Roster.StudentsAtAppend | app/src/main/java/com/example/laboratorium/StorageManager.kt:144 | The join distributes over concatenation, so it keeps storage order |
| Roster.TasksIn | app/src/main/java/com/example/laboratorium/StorageManager.kt:199-201 | The passed-tasks filter used by markTaskAsNotPassed and the export; TasksInMembers and TasksInAppend state what it keeps |
| Roster.TasksInMembers | app/src/main/java/com/example/laboratorium/StorageManager.kt:199-201 | The task filter keeps exactly the catalogue tasks whose description is in the set, each as often as the catalogue lists it |
| Roster.TasksInAppend | app/src/main/java/com/example/laboratorium/StorageManager.kt:199-201 | The passed-tasks filter distributes over concatenation, so it keeps catalogue order |
| Roster.FirstWithAlbum | app/src/main/java/com/example/laboratorium/StorageManager.kt:162-169 | `find` and `indexOfFirst` give the first index with the album number, or none when no student has it |
| Roster.FirstTaskIndex | app/src/main/java/com/example/laboratorium/StorageManager.kt:163 | The first index of a task with the description, or none |
| Roster.FirstTaskNamed | app/src/main/java/com/example/laboratorium/StorageManager.kt:163 | `find` returns the first catalogue task with the description; none means no task has it |
| Stations.Detached | app/src/main/java/com/example/laboratorium/StorageManager.kt:112 | The remove step over every station list; DetachedClears states its effect on a valid map |
| Stations.Reassigned | app/src/main/java/com/example/laboratorium/StorageManager.kt:107-117 | assignStudentToStation on the decoded map; ReassignedKeepsOthers, ReassignedSeatsOnce and ReassignedOtherAlbum state its result |
| Stations.ReassignedKeepsOthers | app/src/main/java/com/example/laboratorium/StorageManager.kt:112-117 | Reassigning never removes a station; every list, read without the reassigned album, is unchanged; a new station's list is exactly the album |
| Stations.DetachedClears | app/src/main/java/com/example/laboratorium/StorageManager.kt:112 | On a valid map, the remove step takes the album out of every list and keeps the invariant |
| Stations.SeatFreeAlbum | app/src/main/java/com/example/laboratorium/StorageManager.kt:114-117 | Appending an album that is in no list keeps the invariant |
| Stations.ReassignedSeatsOnce | app/src/main/java/com/example/laboratorium/StorageManager.kt:97-121 | On a valid map the album ends up exactly once, as the last entry of the chosen station, and the map stays valid |
| Stations.ReassignedOtherAlbum | app/src/main/java/com/example/laboratorium/StorageManager.kt:112-117 | Every other album stays at the stations it was at |
| Stations.ReplayLast | app/src/main/java/com/example/laboratorium/StorageManager.kt:97-121 | Replaying a series of calls and then one more call is the same as replaying the longer series |
| Stations.ReplayLastWriterWins | app/src/main/java/com/example/laboratorium/StorageManager.kt:97-121 | After any series of calls on a valid map the map stays valid; an album sits only at the station of its last call, or where it was if no call named it |
| Stations.StudentsForStation | app/src/main/java/com/example/laboratorium/StorageManager.kt:138-146 | getStudentsForStation on the decoded map; StudentsForStationMembers states its result |
| Stations.StudentsForStationMembers | app/src/main/java/com/example/laboratorium/StorageManager.kt:138-146 | The station view holds exactly the stored students listed at the station, each as often as stored, and nobody when the station has no list |
| Grading.LedgerWith | app/src/main/java/com/example/laboratorium/StorageManager.kt:157-158 | The ledger step of markTaskAsPassed; LedgerWithRecords states its result |
| Grading.LedgerWithout | app/src/main/java/com/example/laboratorium/StorageManager.kt:188-189 | The ledger step of markTaskAsNotPassed; LedgerWithoutRemoves states its result |
| Entities.PassedOf | app/src/main/java/com/example/laboratorium/StorageManager.kt:198 | The descriptions the ledger records for an album, empty when it has no entry (also at lines 327 and 364); Grading.LedgerWithRecords, Grading.LedgerWithoutRemoves and Grading.RecomputedGrade state what it reads |
| Grading.LedgerWithRecords | app/src/main/java/com/example/laboratorium/StorageManager.kt:157-158 | Marking a task passed adds the description to that album's set only, and doing it twice gives the same ledger as once |
| Grading.LedgerWithoutRemoves | app/src/main/java/com/example/laboratorium/StorageManager.kt:188-189 | Unmarking removes the description from that album's set only, creates no entry; unmarking right after a mark leaves the album's set without the description |
| Grading.MaxGrade | app/src/main/java/com/example/laboratorium/StorageManager.kt:204 | `maxOf` is an upper bound of the grades and one of them |
| Grading.RecomputedGrade | app/src/main/java/com/example/laboratorium/StorageManager.kt:196-207 | The recomputed grade bounds every passed task's grade, equals one of them if there is any, and is 2.0 if there is none |
| Grading.GradeRaised | app/src/main/java/com/example/laboratorium/StorageManager.kt:161-175 | Only the album's first student can change, and only in proposed grade. That grade becomes the maximum of the old grade and the task's grade, so it never goes down. Without the student or the task nothing changes |
| Grading.FirstWithAlbumSameAlbums | app/src/main/java/com/example/laboratorium/StorageManager.kt:162 | Which student is found first depends only on the album numbers |
| Grading.GradeRaisedIdempotent | app/src/main/java/com/example/laboratorium/StorageManager.kt:151-176 | Marking the same task passed twice raises grades the same as once |
| Grading.GradeRecomputed | app/src/main/java/com/example/laboratorium/StorageManager.kt:193-215 | The album's first student gets the recomputed grade; every other student is unchanged; without the student nothing changes |
| Grading.PassingAgreesWithRecompute | app/src/main/java/com/example/laboratorium/StorageManager.kt:163-167 | When the tasks with the description share one grade and no task grade is below 2.0, recomputing after a pass equals the old recomputed grade raised to that grade |
| Ordering.InsertBy | app/src/main/java/com/example/laboratorium/StorageManager.kt:321 | One insertion step of the stable sort; InsertByPermutes, InsertBySorted and InsertByKeyFilter state its result |
| Ordering.SortBy | app/src/main/java/com/example/laboratorium/StorageManager.kt:321 | `sortedBy` as insertion sort; SortByPermutes, SortBySorted and SortByStable state that it is a stable sort |
| Ordering.InsertByPermutes | app/src/main/java/com/example/laboratorium/StorageManager.kt:321 | Inserting adds exactly the one element |
| Ordering.SortByPermutes | app/src/main/java/com/example/laboratorium/StorageManager.kt:321 | `sortedBy` is a permutation of its input |
| Ordering.InsertBySorted | app/src/main/java/com/example/laboratorium/StorageManager.kt:321 | Inserting into a list sorted by key keeps it sorted |
| Ordering.SortBySorted | app/src/main/java/com/example/laboratorium/StorageManager.kt:321 | `sortedBy` orders its result by key |
| Ordering.InsertByKeyFilter | app/src/main/java/com/example/laboratorium/StorageManager.kt:321 | Inserting adds the element to its own key's run only, in front of that run |
| Ordering.SortByStable | app/src/main/java/com/example/laboratorium/StorageManager.kt:321 | `sortedBy` is stable: for every key, the elements with that key keep their input order |
| Ordering.LexLe | app/src/main/java/com/example/laboratorium/StorageManager.kt:321 | The surname order of `sortedBy { it.surname }`, a proper prefix first; the LexLe lemmas state that it is a total order |
| Ordering.LexLeReflexive | app/src/main/java/com/example/laboratorium/StorageManager.kt:321 | Every surname is ordered before or equal to itself |
| Ordering.LexLeTotal | app/src/main/java/com/example/laboratorium/StorageManager.kt:321 | Any two surnames are ordered one way or the other |
| Ordering.LexLeTransitive | app/src/main/java/com/example/laboratorium/StorageManager.kt:321 | Surname order is transitive |
| Ordering.LexLeAntisymmetric | app/src/main/java/com/example/laboratorium/StorageManager.kt:321 | Two surnames ordered both ways are equal |
| Ordering.LexLeTotalPreorder | app/src/main/java/com/example/laboratorium/StorageManager.kt:321 | Surname order is a total preorder, which `sortedBy` needs |
| Report.StationRoster | app/src/main/java/com/example/laboratorium/StorageManager.kt:318-321 | The station's students as the report lists them; StationRosterIsSortedJoin states what they are |
| Report.ReportedTasks | app/src/main/java/com/example/laboratorium/StorageManager.kt:364-367 | A student's tasks as the report lists them; ReportedTasksAreSortedPassed states what they are |
| Report.BlockRows | app/src/main/java/com/example/laboratorium/StorageManager.kt:332 | The rows one student block takes: five fixed rows plus one per passed task, and at least one task row; IsStationHeight, Export.TallestBlock and Report.StationHeightUnique state how it sets the station height |
| Report.IsReport | app/src/main/java/com/example/laboratorium/StorageManager.kt:304-397 | The layout rules of the whole report; ReportIsUnique states that they fix one layout per snapshot, and Export.Layout meets them |
| Report.StationRosterIsSortedJoin | app/src/main/java/com/example/laboratorium/StorageManager.kt:318-321 | A station's students in the report are exactly those listed at it, each as often as stored, sorted by surname, with equal surnames in storage order |
| Report.ReportedTasksAreSortedPassed | app/src/main/java/com/example/laboratorium/StorageManager.kt:364-367 | A student's reported tasks are exactly the catalogue tasks whose description they passed, each as often as the catalogue lists it, sorted by grade, with equal grades in catalogue order |
| Report.SortedStations | app/src/main/java/com/example/laboratorium/StorageManager.kt:306 | Every station key, including one with an empty list, appears in strictly ascending order |
| Report.StationsDoNotOverlap | app/src/main/java/com/example/laboratorium/StorageManager.kt:310-395 | Each station's rows end before the next station's header, so no two stations share a row |
| Report.StationHeightUnique | app/src/main/java/com/example/laboratorium/StorageManager.kt:325-333 | A station's height is determined by its student blocks |
| Report.AscendingUnique | app/src/main/java/com/example/laboratorium/StorageManager.kt:306 | Two strictly ascending station lists with the same elements are equal |
| Report.SameStations | app/src/main/java/com/example/laboratorium/StorageManager.kt:306-308 | Two layouts that cover the same keys in ascending order list the same stations |
| Report.StationLaidOutUnique | app/src/main/java/com/example/laboratorium/StorageManager.kt:318-383 | A station's students, columns, tasks and height are determined |
| Report.ReportIsUnique | app/src/main/java/com/example/laboratorium/StorageManager.kt:304-395 | The layout rules determine the whole report: a snapshot has exactly one layout |
| Export.TallestBlock | app/src/main/java/com/example/laboratorium/StorageManager.kt:325-333 | The loop's maximum is the height of some student's block and at least the height of every block (5 rows plus the task lines, at least one) |
| Export.StudentBlocks | app/src/main/java/com/example/laboratorium/StorageManager.kt:335-383 | The k-th student of the roster is placed at column 3k with their sorted passed tasks |
| Export.LayOutStation | app/src/main/java/com/example/laboratorium/StorageManager.kt:308-395 | One station is laid out by the rules, and the next header goes 3 + H rows below this one (H = tallest block, or 1 for the no-students line) |
| Export.LayOutStations | app/src/main/java/com/example/laboratorium/StorageManager.kt:308-397 | The loop over stations lays out one block per station, in the given order, stacked from row 0 |
| Export.Layout | app/src/main/java/com/example/laboratorium/StorageManager.kt:304-397 | The computed layout is the report of the snapshot |
| Export.OneBlockPerStation | app/src/main/java/com/example/laboratorium/StorageManager.kt:306-308 | Blocks that follow the sorted keys one for one cover every key once, in ascending order |
| Screens.AddStudentIfAbsent | app/src/main/java/com/example/laboratorium/AddStudentActivity.kt:265-272 | The add-student screen adds and seats the student exactly when the album number is new, and so keeps album numbers unique |
| Screens.OverrideProposedGrade | app/src/main/java/com/example/laboratorium/StationSelectedGradingActivity.kt:238-252 | A manual grade is saved, through updateStudent, exactly when it parses to a number from 2.0 to 5.0 that differs from the student's current grade (the save button is disabled otherwise, with the error flag set by typing at lines 201-209); otherwise nothing changes |

## Left out

- The DataStore preference file, its `edit` transaction and the reactive
  `Flow`/`combine`/`first()` reads. Each operation is modelled as one atomic
  step on the four fields, and no two operations run concurrently.
  `getAllStudents`, `getAllTasks`, `getStationAssignments` and
  `getPassedTasks` are plain reads of the fields.
- Inside their edit blocks, `markTaskAsPassed` and `markTaskAsNotPassed`
  re-read the students and tasks through `first()` (StorageManager.kt:161-163,
  193-197). Each is assumed to see the values committed before the block,
  which are also the fields' values.
- Gson encoding and decoding, and the station keys that go through JSON as
  strings and `toInt()`. The fallback of `assignStudentToStation` and
  `getPassedTasks` to an empty collection when stored JSON is missing or
  corrupt (StorageManager.kt:101-105, 225) is not modelled. Missing keys
  read as empty collections.
- Apache POI: creating cells, their text (name, surname, album, proposed
  grade, task description and grade, the "no students" and "no tasks"
  lines) and `workbook.write`. Only which rows and columns get used, and
  what is listed there, is modelled.
- Grades are `real`. `Double` rounding, NaN, -0.0 and the formatting of
  grades in cells are not modelled.
- Surnames are compared as sequences of Dafny characters, by code point.
  Kotlin compares UTF-16 code units, and the two orders differ only for
  characters outside the Basic Multilingual Plane.
- Export.TallestBlock: the source builds each student's sorted passed tasks
  twice, once in the height loop and once in the writing loop. The model
  builds them once and measures that list. The two lists are equal, so the
  layout is the same.
- The default argument `proposedGrade = 2.0` of the `Student` constructor.
  Callers in the model always pass the grade.
- The export file name and its date (GradingActivity.kt), and all other
  screen, navigation and snackbar code.

## Findings

The model found no defects in the code.
