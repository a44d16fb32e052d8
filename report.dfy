/** The layout of the exported grade report: which stations, students and
    tasks it lists, in what order, and at which rows and columns. The cells'
    text and the spreadsheet file itself are not modelled. */
module Report {
  import opened Entities
  import opened Ordering
  import opened Roster
  import opened Stations

  function SurnameOf(s: Student): string { s.surname }

  function GradeOf(t: Task): Grade { t.grade }

  function GradeLe(a: Grade, b: Grade): bool { a <= b }

  /** A station's students as the report lists them, left to right: the
      station's join, sorted by surname. */
  function StationRoster(snap: Snapshot, station: int): seq<Student>
  {
    SortBy(StudentsForStation(snap.students, snap.assignments, station), SurnameOf, LexLe)
  }

  /** A student's passed tasks as the report lists them, top to bottom: the
      catalogue tasks whose description the ledger holds for the album,
      sorted by grade. */
  function ReportedTasks(snap: Snapshot, s: Student): seq<Task>
  {
    SortBy(TasksIn(snap.tasks, PassedOf(snap.passed, s.albumNumber)), GradeOf, GradeLe)
  }

  /** The roster holds exactly the students seated at the station, ordered by
      surname; students with the same surname keep their storage order. */
  lemma StationRosterIsSortedJoin(snap: Snapshot, station: int)
    ensures forall s :: s in StationRoster(snap, station) <==>
      s in snap.students && station in snap.assignments && s.albumNumber in snap.assignments[station]
    ensures forall s :: (multiset(StationRoster(snap, station))[s]
      == if station in snap.assignments && s.albumNumber in snap.assignments[station] then multiset(snap.students)[s] else 0)
    ensures SortedBy(StationRoster(snap, station), SurnameOf, LexLe)
    ensures forall k :: (KeyFilter(StationRoster(snap, station), SurnameOf, k)
      == KeyFilter(StudentsForStation(snap.students, snap.assignments, station), SurnameOf, k))
  {
    var joined := StudentsForStation(snap.students, snap.assignments, station);
    LexLeTotalPreorder();
    StudentsForStationMembers(snap.students, snap.assignments, station);
    SortBySorted(joined, SurnameOf, LexLe);
    SortByPermutes(joined, SurnameOf, LexLe);
    forall k ensures KeyFilter(StationRoster(snap, station), SurnameOf, k) == KeyFilter(joined, SurnameOf, k) {
      SortByStable(joined, SurnameOf, LexLe, k);
    }
    forall s ensures s in StationRoster(snap, station) <==> s in joined {
      assert s in StationRoster(snap, station) <==> s in multiset(StationRoster(snap, station));
      assert s in joined <==> s in multiset(joined);
    }
  }

  /** The reported tasks are exactly the catalogue tasks the student passed,
      each as often as the catalogue lists it, in ascending grade order;
      tasks with the same grade keep their catalogue order. */
  lemma ReportedTasksAreSortedPassed(snap: Snapshot, s: Student)
    ensures forall t :: t in ReportedTasks(snap, s) <==> t in snap.tasks && t.description in PassedOf(snap.passed, s.albumNumber)
    ensures forall t :: (multiset(ReportedTasks(snap, s))[t]
      == if t.description in PassedOf(snap.passed, s.albumNumber) then multiset(snap.tasks)[t] else 0)
    ensures SortedBy(ReportedTasks(snap, s), GradeOf, GradeLe)
    ensures forall g :: (KeyFilter(ReportedTasks(snap, s), GradeOf, g)
      == KeyFilter(TasksIn(snap.tasks, PassedOf(snap.passed, s.albumNumber)), GradeOf, g))
  {
    var earned := TasksIn(snap.tasks, PassedOf(snap.passed, s.albumNumber));
    assert TotalPreorder(GradeLe);
    TasksInMembers(snap.tasks, PassedOf(snap.passed, s.albumNumber));
    SortBySorted(earned, GradeOf, GradeLe);
    SortByPermutes(earned, GradeOf, GradeLe);
    forall g ensures KeyFilter(ReportedTasks(snap, s), GradeOf, g) == KeyFilter(earned, GradeOf, g) {
      SortByStable(earned, GradeOf, GradeLe, g);
    }
    forall t ensures t in ReportedTasks(snap, s) <==> t in earned {
      assert t in ReportedTasks(snap, s) <==> t in multiset(ReportedTasks(snap, s));
      assert t in earned <==> t in multiset(earned);
    }
  }

  /** `stationAssignments.keys.sorted()`: every station with an entry, even an
      empty one, in ascending order. */
  function SortedStations(keys: set<int>): (ks: seq<int>)
    ensures forall k :: k in keys <==> k in ks
    ensures forall i, j :: 0 <= i < j < |ks| ==> ks[i] < ks[j]
    decreases keys
  {
    if keys == {} then []
    else
      var m := Least(keys);
      var rest := SortedStations(keys - {m});
      assert forall i :: 0 <= i < |rest| ==> rest[i] in keys - {m};
      [m] + rest
  }

  /** The smallest station number of a non-empty set. */
  function Least(s: set<int>): (m: int)
    requires s != {}
    ensures m in s && forall x :: x in s ==> m <= x
  {
    HasLeast(s);
    var m :| m in s && forall x :: x in s ==> m <= x;
    m
  }

  lemma {:induction false} HasLeast(s: set<int>)
    requires s != {}
    ensures exists m :: m in s && forall x :: x in s ==> m <= x
  {
    // `s != {}` alone does not give the solver an element to pick: the
    // emptiness test is set equality, which it unfolds only on request.
    assert exists z :: z in s by {
      if forall z :: z !in s {
        assert false;
      }
    }
    var y :| y in s;
    if s != {y} {
      HasLeast(s - {y});
      var m :| m in s - {y} && forall x :: x in s - {y} ==> m <= x;
      var least := if y < m then y else m;
      forall x | x in s ensures least <= x {
        if x != y {
          assert x in s - {y};
        }
      }
      assert least in s;
    } else {
      assert forall x :: x in s ==> y <= x;
    }
  }

  /** One student's column block: name, surname, album and proposed grade in
      its first column, a task header, then one line per passed task (or one
      "no tasks" line); the task grades sit one column to the right. */
  datatype StudentBlock = StudentBlock(student: Student, column: nat, tasks: seq<Task>)

  /** One station's part of the sheet: a header row, a blank row, `height`
      rows of student blocks side by side, and a blank row after. */
  datatype StationBlock = StationBlock(station: int, headerRow: nat, students: seq<StudentBlock>, height: nat)

  /** The rows one student block takes: five fixed rows, then the task lines,
      at least one. */
  function BlockRows(tasks: seq<Task>): nat
  {
    5 + (if |tasks| < 1 then 1 else |tasks|)
  }

  /** The height of a station's content: its tallest student block, or the
      single "no students" line. */
  ghost predicate IsStationHeight(students: seq<StudentBlock>, h: nat)
  {
    if students == [] then h == 1
    else
      && (forall k :: 0 <= k < |students| ==> BlockRows(students[k].tasks) <= h)
      && (exists k :: 0 <= k < |students| && BlockRows(students[k].tasks) == h)
  }

  /** The station's students in roster order, the k-th at column 3k with its
      reported tasks, and the station's height. */
  ghost predicate StationLaidOut(snap: Snapshot, b: StationBlock)
  {
    var roster := StationRoster(snap, b.station);
    && |b.students| == |roster|
    && (forall k :: 0 <= k < |roster| ==> b.students[k] == StudentBlock(roster[k], 3 * k, ReportedTasks(snap, roster[k])))
    && IsStationHeight(b.students, b.height)
  }

  /** One block per station key, in ascending station order. */
  ghost predicate CoversStations(keys: set<int>, blocks: seq<StationBlock>)
  {
    && (forall k :: k in StationsOfReport(blocks) <==> k in keys)
    && (forall i, j :: 0 <= i < j < |blocks| ==> blocks[i].station < blocks[j].station)
  }

  /** The first header on row 0, each next header 3 + height rows further
      down: header, blank row, content, blank row. */
  ghost predicate Stacked(blocks: seq<StationBlock>)
  {
    && (|blocks| > 0 ==> blocks[0].headerRow == 0)
    && (forall i :: 0 <= i < |blocks| - 1 ==> blocks[i + 1].headerRow == blocks[i].headerRow + 3 + blocks[i].height)
  }

  ghost predicate AllLaidOut(snap: Snapshot, blocks: seq<StationBlock>)
  {
    forall i :: 0 <= i < |blocks| ==> StationLaidOut(snap, blocks[i])
  }

  /** The whole layout: every station key once, in ascending order, each
      laid out, stacked top to bottom. */
  ghost predicate IsReport(snap: Snapshot, blocks: seq<StationBlock>)
  {
    && CoversStations(snap.assignments.Keys, blocks)
    && AllLaidOut(snap, blocks)
    && Stacked(blocks)
  }

  /** Each station's rows, header to trailing blank row, end before the next
      station's header: no two stations share a row. */
  lemma {:induction false} StationsDoNotOverlap(blocks: seq<StationBlock>, i: int, j: int)
    requires Stacked(blocks)
    requires 0 <= i < j < |blocks|
    ensures blocks[i].headerRow + 3 + blocks[i].height <= blocks[j].headerRow
    decreases j - i
  {
    if j > i + 1 {
      StationsDoNotOverlap(blocks, i, j - 1);
    }
  }

  /** A station's height is determined by its student blocks. */
  lemma StationHeightUnique(students: seq<StudentBlock>, h1: nat, h2: nat)
    requires IsStationHeight(students, h1) && IsStationHeight(students, h2)
    ensures h1 == h2
  {
    if students != [] {
      var k1 :| 0 <= k1 < |students| && BlockRows(students[k1].tasks) == h1;
      var k2 :| 0 <= k2 < |students| && BlockRows(students[k2].tasks) == h2;
    }
  }

  lemma AscendingFirstLeast(s: seq<int>, k: int)
    requires forall i, j :: 0 <= i < j < |s| ==> s[i] < s[j]
    requires 0 <= k < |s|
    ensures s[0] <= s[k]
  {
    if k > 0 {
      assert s[0] < s[k];
    }
  }

  /** Two strictly ascending lists with the same elements are equal. */
  lemma {:induction false} AscendingUnique(a: seq<int>, b: seq<int>)
    requires forall i, j :: 0 <= i < j < |a| ==> a[i] < a[j]
    requires forall i, j :: 0 <= i < j < |b| ==> b[i] < b[j]
    requires forall x :: x in a <==> x in b
    ensures a == b
  {
    assert a != [] ==> a[0] in a && a[0] in b;
    assert b != [] ==> b[0] in b && b[0] in a;
    if a != [] && b != [] {
      var ka :| 0 <= ka < |b| && b[ka] == a[0];
      var kb :| 0 <= kb < |a| && a[kb] == b[0];
      AscendingFirstLeast(b, ka);
      AscendingFirstLeast(a, kb);
      forall x ensures x in a[1..] <==> x in b[1..] {
        if x in a[1..] {
          var i :| 0 <= i < |a[1..]| && a[1..][i] == x;
          assert a[i + 1] == x && x != a[0] && x in b;
          var j :| 0 <= j < |b| && b[j] == x;
          assert j != 0;
          assert b[1..][j - 1] == x;
        }
        if x in b[1..] {
          var i :| 0 <= i < |b[1..]| && b[1..][i] == x;
          assert b[i + 1] == x && x != b[0] && x in a;
          var j :| 0 <= j < |a| && a[j] == x;
          assert j != 0;
          assert a[1..][j - 1] == x;
        }
      }
      AscendingUnique(a[1..], b[1..]);
      assert a == [a[0]] + a[1..] && b == [b[0]] + b[1..];
    }
  }

  /** The stations of a report, top to bottom. */
  function StationsOfReport(blocks: seq<StationBlock>): seq<int>
  {
    seq(|blocks|, i requires 0 <= i < |blocks| => blocks[i].station)
  }

  /** Two lists of blocks that each cover the same station keys in ascending
      order list the same stations. */
  lemma SameStations(keys: set<int>, a: seq<StationBlock>, b: seq<StationBlock>)
    requires CoversStations(keys, a) && CoversStations(keys, b)
    ensures StationsOfReport(a) == StationsOfReport(b)
  {
    var sa := StationsOfReport(a);
    var sb := StationsOfReport(b);
    AscendingUnique(sa, sb);
  }

  /** A station is laid out in one way only. */
  lemma StationLaidOutUnique(snap: Snapshot, x: StationBlock, y: StationBlock)
    requires StationLaidOut(snap, x) && StationLaidOut(snap, y)
    requires x.station == y.station
    ensures x.students == y.students && x.height == y.height
  {
    StationHeightUnique(x.students, x.height, y.height);
  }

  /** The layout rules leave no freedom: a snapshot has exactly one report. */
  lemma ReportIsUnique(snap: Snapshot, a: seq<StationBlock>, b: seq<StationBlock>)
    requires IsReport(snap, a) && IsReport(snap, b)
    ensures a == b
  {
    SameStations(snap.assignments.Keys, a, b);
    assert |a| == |b|;
    forall i | 0 <= i < |a| ensures a[i].station == b[i].station && a[i].students == b[i].students && a[i].height == b[i].height {
      assert StationsOfReport(a)[i] == StationsOfReport(b)[i];
      StationLaidOutUnique(snap, a[i], b[i]);
    }
    HeadersAgree(a, b, |a|);
  }

  lemma {:induction false} HeadersAgree(a: seq<StationBlock>, b: seq<StationBlock>, n: nat)
    requires Stacked(a) && Stacked(b) && |a| == |b|
    requires n <= |a|
    requires forall i :: 0 <= i < |a| ==> a[i].height == b[i].height
    ensures forall i :: 0 <= i < n ==> a[i].headerRow == b[i].headerRow
  {
    if n > 1 {
      HeadersAgree(a, b, n - 1);
      assert a[n - 1].headerRow == a[n - 2].headerRow + 3 + a[n - 2].height;
    }
  }
}
