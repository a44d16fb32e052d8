/** The station-assignment map: seating a student at a station and the
    per-station view of the students. */
module Stations {
  import opened Entities
  import opened Sequences
  import opened Roster

  /** Every station list with the first copy of the album dropped: the
      `assignments.values.forEach { it.remove(album) }` step. */
  function Detached(m: Assignments, album: string): Assignments
  {
    map k | k in m :: RemoveFirst(m[k], album)
  }

  /** assignStudentToStation on the decoded map: detach the album everywhere,
      create the station's list if it has none, and append the album unless
      that list still holds it. */
  function Reassigned(m: Assignments, album: string, station: int): Assignments
  {
    var cleared := Detached(m, album);
    var list := if station in cleared then cleared[station] else [];
    cleared[station := if album in list then list else list + [album]]
  }

  /** The invariant the store keeps: no album appears twice in one list and
      no album appears in two lists. */
  ghost predicate SingleSeat(m: Assignments) {
    && (forall k, x :: k in m ==> multiset(m[k])[x] <= 1)
    && (forall k1, k2, x :: k1 in m && k2 in m && k1 != k2 && x in m[k1] ==> x !in m[k2])
  }

  /** The stations whose list holds the album. */
  ghost function StationsOf(m: Assignments, album: string): set<int>
  {
    set k | k in m && album in m[k]
  }

  /** Reassigning never drops a station, and every list, read without the
      reassigned album, is what it was: the other students keep their station
      and their order. A station that had no list gets exactly [album]. */
  lemma ReassignedKeepsOthers(m: Assignments, album: string, station: int)
    ensures Reassigned(m, album, station).Keys == m.Keys + {station}
    ensures forall k :: k in m ==> RemoveAll(Reassigned(m, album, station)[k], album) == RemoveAll(m[k], album)
    ensures station !in m ==> Reassigned(m, album, station)[station] == [album]
  {
    var r := Reassigned(m, album, station);
    forall k | k in m ensures RemoveAll(r[k], album) == RemoveAll(m[k], album) {
      var cut := RemoveFirst(m[k], album);
      RemoveAllAfterRemoveFirst(m[k], album);
      if k == station && album !in cut {
        FilterAppend(cut, [album], Differs(album));
        assert RemoveAll([album], album) == [];
        assert cut + [] == cut;
      }
    }
  }

  /** Under the invariant, detaching removes the album from every list and
      keeps the invariant. */
  lemma DetachedClears(m: Assignments, album: string)
    requires SingleSeat(m)
    ensures SingleSeat(Detached(m, album))
    ensures forall k :: k in Detached(m, album) ==> album !in Detached(m, album)[k]
  {
    var c := Detached(m, album);
    forall k | k in c ensures album !in c[k] && multiset(c[k]) <= multiset(m[k]) {
      RemoveFirstCounts(m[k], album);
      if album in m[k] {
        assert multiset(m[k])[album] <= 1;
      }
    }
    forall k1, k2, x | k1 in c && k2 in c && k1 != k2 && x in c[k1] ensures x !in c[k2] {
      assert x in multiset(c[k1]);
      assert x in m[k1];
      assert x !in multiset(m[k2]);
      assert x !in multiset(c[k2]);
    }
  }

  /** Appending an album that sits nowhere keeps the invariant. */
  lemma SeatFreeAlbum(c: Assignments, album: string, station: int)
    requires SingleSeat(c)
    requires forall k :: k in c ==> album !in c[k]
    ensures SingleSeat(c[station := (if station in c then c[station] else []) + [album]])
  {
    var list := if station in c then c[station] else [];
    var r := c[station := list + [album]];
    assert multiset(list + [album]) == multiset(list) + multiset{album};
    forall k1, k2, x | k1 in r && k2 in r && k1 != k2 && x in r[k1] ensures x !in r[k2] {
      assert x in multiset(r[k1]);
    }
  }

  /** Under the invariant, the album ends up exactly once in the whole map, as
      the last entry of the target station, and the invariant still holds. */
  lemma ReassignedSeatsOnce(m: Assignments, album: string, station: int)
    requires SingleSeat(m)
    ensures SingleSeat(Reassigned(m, album, station))
    ensures station in Reassigned(m, album, station)
    ensures StationsOf(Reassigned(m, album, station), album) == {station}
    ensures forall k, i :: (k in Reassigned(m, album, station) && 0 <= i < |Reassigned(m, album, station)[k]|
      && Reassigned(m, album, station)[k][i] == album) ==> k == station && i == |Reassigned(m, album, station)[k]| - 1
  {
    var c := Detached(m, album);
    DetachedClears(m, album);
    SeatFreeAlbum(c, album, station);
    var list := if station in c then c[station] else [];
    var r := Reassigned(m, album, station);
    assert r == c[station := list + [album]];
    forall k, i | k in r && 0 <= i < |r[k]| && r[k][i] == album ensures k == station && i == |r[k]| - 1 {
      assert r[k][i] in r[k];
    }
    assert album in r[station];
  }

  /** One call of assignStudentToStation. */
  datatype Seating = Seating(album: string, station: int)

  /** The map after a series of assignments, first call first. */
  function Replay(m: Assignments, calls: seq<Seating>): Assignments
    decreases |calls|
  {
    if calls == [] then m else Replay(Reassigned(m, calls[0].album, calls[0].station), calls[1..])
  }

  /** The station of the last call that seats the album, if any. */
  function LastStationOf(calls: seq<Seating>, album: string): Option<int>
    decreases |calls|
  {
    if calls == [] then None
    else if calls[|calls| - 1].album == album then Some(calls[|calls| - 1].station)
    else LastStationOf(calls[..|calls| - 1], album)
  }

  /** Seating one album leaves the station of every other album alone. */
  lemma ReassignedOtherAlbum(m: Assignments, album: string, station: int, other: string)
    requires other != album
    ensures StationsOf(Reassigned(m, album, station), other) == StationsOf(m, other)
  {
    var r := Reassigned(m, album, station);
    ReassignedKeepsOthers(m, album, station);
    forall k | k in r ensures other in r[k] <==> k in m && other in m[k] {
      FilterCount(r[k], Differs(album), other);
      if k in m {
        FilterCount(m[k], Differs(album), other);
      }
    }
  }

  lemma {:induction false} ReplayLast(m: Assignments, calls: seq<Seating>, c: Seating)
    ensures Replay(m, calls + [c]) == Reassigned(Replay(m, calls), c.album, c.station)
    decreases |calls|
  {
    if calls == [] {
      assert calls + [c] == [c];
    } else {
      assert (calls + [c])[1..] == calls[1..] + [c];
      ReplayLast(Reassigned(m, calls[0].album, calls[0].station), calls[1..], c);
    }
  }

  /** Any series of assignments keeps the invariant; afterwards an album sits
      at exactly one station, the one its last assignment named (the last
      writer wins), or where it sat before if no call named it. */
  lemma {:induction false} ReplayLastWriterWins(m: Assignments, calls: seq<Seating>, album: string)
    requires SingleSeat(m)
    ensures SingleSeat(Replay(m, calls))
    ensures LastStationOf(calls, album).Some? ==> StationsOf(Replay(m, calls), album) == {LastStationOf(calls, album).value}
    ensures LastStationOf(calls, album).None? ==> StationsOf(Replay(m, calls), album) == StationsOf(m, album)
    decreases |calls|
  {
    if calls != [] {
      var init := calls[..|calls| - 1];
      var c := calls[|calls| - 1];
      assert calls == init + [c];
      ReplayLast(m, init, c);
      ReplayLastWriterWins(m, init, album);
      ReassignedSeatsOnce(Replay(m, init), c.album, c.station);
      if c.album != album {
        ReassignedOtherAlbum(Replay(m, init), c.album, c.station, album);
      }
    }
  }

  /** getStudentsForStation: the students seated at the station, in storage
      order; nobody when the station has no list. */
  function StudentsForStation(students: seq<Student>, m: Assignments, station: int): seq<Student>
  {
    StudentsAt(students, if station in m then m[station] else [])
  }

  /** The view holds exactly the stored students whose album the station's
      list holds, each as often as it is stored. */
  lemma StudentsForStationMembers(students: seq<Student>, m: Assignments, station: int)
    ensures forall s :: s in StudentsForStation(students, m, station) <==>
      s in students && station in m && s.albumNumber in m[station]
    ensures forall s :: (multiset(StudentsForStation(students, m, station))[s]
      == if station in m && s.albumNumber in m[station] then multiset(students)[s] else 0)
    ensures station !in m ==> StudentsForStation(students, m, station) == []
  {
    StudentsAtMembers(students, if station in m then m[station] else []);
  }
}
