/** The loops of exportToExcel that place the stations and the students on
    the sheet, proved to produce the layout Report describes. */
module Export {
  import opened Entities
  import opened Report

  /** The first loop of a station in exportToExcel: the tallest block among
      the station's students (`maxStudentBlockHeight`). The source derives
      each student's sorted passed tasks here and again in the second loop;
      the model derives them once, in StudentBlocks, and measures those. */
  method TallestBlock(students: seq<StudentBlock>) returns (maxHeight: nat)
    requires students != []
    ensures IsStationHeight(students, maxHeight)
  {
    maxHeight := 0;
    ghost var tallest := 0;
    var k := 0;
    while k < |students|
      invariant 0 <= k <= |students|
      invariant forall j :: 0 <= j < k ==> BlockRows(students[j].tasks) <= maxHeight
      invariant k == 0 ==> maxHeight == 0
      invariant k > 0 ==> tallest < k && BlockRows(students[tallest].tasks) == maxHeight
    {
      var rows := BlockRows(students[k].tasks);
      if rows > maxHeight {
        maxHeight := rows;
        tallest := k;
      }
      k := k + 1;
    }
  }

  /** The second loop of a station in exportToExcel: one block per student,
      each three columns right of the previous (`currentStudentCol += 3`). */
  method StudentBlocks(snap: Snapshot, roster: seq<Student>) returns (students: seq<StudentBlock>)
    ensures |students| == |roster|
    ensures forall k :: 0 <= k < |roster| ==> students[k] == StudentBlock(roster[k], 3 * k, ReportedTasks(snap, roster[k]))
  {
    students := [];
    var column: nat := 0;
    var k := 0;
    while k < |roster|
      invariant 0 <= k <= |roster|
      invariant column == 3 * k
      invariant |students| == k
      invariant forall j :: 0 <= j < k ==> students[j] == StudentBlock(roster[j], 3 * j, ReportedTasks(snap, roster[j]))
    {
      students := students + [StudentBlock(roster[k], column, ReportedTasks(snap, roster[k]))];
      column := column + 3;
      k := k + 1;
    }
  }

  /** One station of exportToExcel, starting at `headerRow`; `nextRow` is the
      row the next station's header goes to. */
  method LayOutStation(snap: Snapshot, station: int, headerRow: nat) returns (block: StationBlock, nextRow: nat)
    ensures block.station == station && block.headerRow == headerRow
    ensures StationLaidOut(snap, block)
    ensures nextRow == headerRow + 3 + block.height
  {
    var row := headerRow;
    row := row + 1;  // station header
    row := row + 1;  // blank separator row
    var contentStart := row;
    var roster := StationRoster(snap, station);
    var students: seq<StudentBlock> := [];
    var height: nat;
    if |roster| > 0 {
      students := StudentBlocks(snap, roster);
      var maxHeight := TallestBlock(students);
      row := contentStart + maxHeight;
      height := maxHeight;
    } else {
      row := row + 1;  // the "no students" line
      height := 1;
    }
    row := row + 1;  // blank row between stations
    block := StationBlock(station, headerRow, students, height);
    nextRow := row;
  }

  /** The layout part of exportToExcel over one snapshot: the station keys
      in ascending order, laid out one below the other. */
  method Layout(snap: Snapshot) returns (blocks: seq<StationBlock>)
    ensures IsReport(snap, blocks)
  {
    var stations := SortedStations(snap.assignments.Keys);
    blocks := LayOutStations(snap, stations);
    OneBlockPerStation(snap.assignments.Keys, stations, blocks);
  }

  /** `sortedStations.forEach`: one block per station of the list, in list
      order, each header below the previous station's trailing blank row. */
  method LayOutStations(snap: Snapshot, stations: seq<int>) returns (blocks: seq<StationBlock>)
    ensures |blocks| == |stations|
    ensures forall j :: 0 <= j < |stations| ==> blocks[j].station == stations[j]
    ensures AllLaidOut(snap, blocks)
    ensures Stacked(blocks)
  {
    var row: nat := 0;
    blocks := [];
    var i := 0;
    while i < |stations|
      invariant 0 <= i <= |stations|
      invariant |blocks| == i
      invariant forall j :: 0 <= j < i ==> blocks[j].station == stations[j]
      invariant AllLaidOut(snap, blocks)
      invariant Stacked(blocks)
      invariant i == 0 ==> row == 0
      invariant i > 0 ==> row == blocks[i - 1].headerRow + 3 + blocks[i - 1].height
    {
      var block, next := LayOutStation(snap, stations[i], row);
      LaidOutAppend(snap, blocks, block);
      StackedAppend(blocks, block);
      blocks := blocks + [block];
      row := next;
      i := i + 1;
    }
  }

  /** Blocks that follow the sorted station keys one for one cover every
      key once, in ascending order. */
  lemma OneBlockPerStation(keys: set<int>, stations: seq<int>, blocks: seq<StationBlock>)
    requires stations == SortedStations(keys)
    requires |blocks| == |stations|
    requires forall j :: 0 <= j < |blocks| ==> blocks[j].station == stations[j]
    ensures CoversStations(keys, blocks)
  {
    assert StationsOfReport(blocks) == stations;
  }

  lemma LaidOutAppend(snap: Snapshot, blocks: seq<StationBlock>, block: StationBlock)
    requires AllLaidOut(snap, blocks) && StationLaidOut(snap, block)
    ensures AllLaidOut(snap, blocks + [block])
  {
    forall i | 0 <= i < |blocks + [block]| ensures StationLaidOut(snap, (blocks + [block])[i]) {
      if i < |blocks| {
        assert (blocks + [block])[i] == blocks[i];
      }
    }
  }

  lemma StackedAppend(blocks: seq<StationBlock>, block: StationBlock)
    requires Stacked(blocks)
    requires blocks == [] ==> block.headerRow == 0
    requires blocks != [] ==> block.headerRow == blocks[|blocks| - 1].headerRow + 3 + blocks[|blocks| - 1].height
    ensures Stacked(blocks + [block])
  {
  }
}
