/** The room statistics of `GET /api/rooms/stats`: a count over the room
    collection, with no state of its own. */
module RoomStats {
  import opened Schemas

  datatype Stats = Stats(totalRooms: nat, occupiedRooms: nat, availableRooms: nat)

  /** The rooms with at least one occupant. */
  function OccupiedIds(rooms: map<Id, Room>): set<Id> {
    set r | r in rooms && |rooms[r].occupants| > 0
  }

  /** The rooms with no occupant: an independent way of counting what the
      handler reports as available. */
  function EmptyIds(rooms: map<Id, Room>): set<Id> {
    set r | r in rooms && rooms[r].occupants == []
  }

  lemma {:induction false} SubsetCard(a: set<Id>, b: set<Id>)
    requires a <= b
    ensures |a| <= |b|
    decreases |b|
  {
    if a != {} {
      var x :| x in a;
      SubsetCard(a - {x}, b - {x});
    }
  }

  /** The rooms not occupied, clamped at 0. */
  function Available(total: nat, occupied: nat): nat {
    if total - occupied > 0 then total - occupied else 0
  }

  /** The statistics of a room collection. Occupied rooms never outnumber
      the rooms, so the clamp at 0 never applies and occupied plus available
      is the total. */
  function Of(rooms: map<Id, Room>): (s: Stats)
    ensures s.totalRooms == |rooms|
    ensures s.occupiedRooms <= s.totalRooms
    ensures s.occupiedRooms + s.availableRooms == s.totalRooms
  {
    var occupied := OccupiedIds(rooms);
    SubsetCard(occupied, rooms.Keys);
    Stats(|rooms|, |occupied|, Available(|rooms|, |occupied|))
  }

  /** availableRooms is exactly the number of rooms with no occupant. */
  lemma AvailableIsEmptyRooms(rooms: map<Id, Room>)
    ensures Of(rooms).availableRooms == |EmptyIds(rooms)|
  {
    var occ, empty := OccupiedIds(rooms), EmptyIds(rooms);
    assert occ + empty == rooms.Keys;
    assert occ * empty == {};
    assert |occ + empty| == |occ| + |empty|;
  }

  /** No room is reported occupied exactly when every room is empty. */
  lemma NoneOccupiedIff(rooms: map<Id, Room>)
    ensures Of(rooms).occupiedRooms == 0 <==> forall r :: r in rooms ==> rooms[r].occupants == []
  {
    var occ := OccupiedIds(rooms);
    if |occ| == 0 {
      forall r | r in rooms ensures rooms[r].occupants == [] {
        assert r !in occ;
      }
    } else {
      var r :| r in occ;
      assert rooms[r].occupants != [];
    }
  }
}
