/** Invariants of the two collections taken together, and what each store
    write does to them.

    `Valid` holds in every state the handlers can leave behind, including
    after their early returns: every room within its capacity, every
    occupant a student whose `room` names that room, no occupant listed
    twice, every `room` reference naming an existing room, roomNumber and
    email unique, and every id below the next one to be handed out.

    `Linked` is the other direction of the student/room link: a student
    whose `room` names a room is listed among its occupants. It holds after
    every successful request; the change-room handler's early returns break
    it (see ChangeRoomFailureUnlinks). */
module Invariants {
  import opened Schemas
  import opened Updates

  /** A room holds no more occupants than its capacity. */
  predicate WithinCapacity(r: Room) {
    |r.occupants| <= r.capacity
  }

  ghost predicate RoomsOk(rooms: map<Id, Room>, nextId: nat) {
    forall r :: r in rooms ==>
      r < nextId && ValidRoom(rooms[r]) && WithinCapacity(rooms[r]) && Distinct(rooms[r].occupants)
  }

  ghost predicate StudentsOk(rooms: map<Id, Room>, students: map<Id, Student>, nextId: nat) {
    forall s :: s in students ==>
      s < nextId && ValidStudent(students[s]) && (students[s].room.Some? ==> students[s].room.value in rooms)
  }

  /** Every occupant of a room is a student whose `room` is that room. */
  ghost predicate BackLinked(rooms: map<Id, Room>, students: map<Id, Student>) {
    forall r, s :: r in rooms && s in rooms[r].occupants ==> s in students && students[s].room == Some(r)
  }

  ghost predicate UniqueRoomNumbers(rooms: map<Id, Room>) {
    forall a, b :: a in rooms && b in rooms && a != b ==> rooms[a].roomNumber != rooms[b].roomNumber
  }

  ghost predicate UniqueEmails(students: map<Id, Student>) {
    forall a, b :: a in students && b in students && a != b ==> students[a].email != students[b].email
  }

  ghost predicate Valid(rooms: map<Id, Room>, students: map<Id, Student>, nextId: nat) {
    && RoomsOk(rooms, nextId)
    && StudentsOk(rooms, students, nextId)
    && BackLinked(rooms, students)
    && UniqueRoomNumbers(rooms)
    && UniqueEmails(students)
  }

  /** A student whose `room` names a room is listed among its occupants,
      for every student other than `x`. */
  ghost predicate LinkedExcept(rooms: map<Id, Room>, students: map<Id, Student>, x: Id) {
    forall s :: s in students && s != x && students[s].room.Some? && students[s].room.value in rooms ==>
      s in rooms[students[s].room.value].occupants
  }

  ghost predicate Linked(rooms: map<Id, Room>, students: map<Id, Student>) {
    forall s :: s in students && students[s].room.Some? && students[s].room.value in rooms ==>
      s in rooms[students[s].room.value].occupants
  }

  /** Valid and Linked together: every room within its capacity, a student
      names a room exactly when it is listed there, and no student is listed
      in two rooms. */
  ghost predicate Consistent(rooms: map<Id, Room>, students: map<Id, Student>, nextId: nat) {
    Valid(rooms, students, nextId) && Linked(rooms, students)
  }

  /** `x` is an occupant of no room. */
  ghost predicate Unplaced(rooms: map<Id, Room>, x: Id) {
    forall r :: r in rooms ==> x !in rooms[r].occupants
  }

  function EmailTaken(email: string, students: map<Id, Student>): bool {
    exists s :: s in students && students[s].email == email
  }

  function NumberTaken(number: string, rooms: map<Id, Room>): bool {
    exists r :: r in rooms && rooms[r].roomNumber == number
  }

  // ---------------------------------------------------------------------
  // What the invariants say

  /** In a consistent store, a student's `room` names a room exactly when
      the student is among that room's occupants, and so no student is
      listed in two rooms. */
  lemma OccupancyIffRoom(rooms: map<Id, Room>, students: map<Id, Student>, nextId: nat, s: Id, r: Id)
    requires Consistent(rooms, students, nextId)
    requires s in students && r in rooms
    ensures students[s].room == Some(r) <==> s in rooms[r].occupants
  {
  }

  lemma NoStudentInTwoRooms(rooms: map<Id, Room>, students: map<Id, Student>, nextId: nat, s: Id, r1: Id, r2: Id)
    requires Valid(rooms, students, nextId)
    requires r1 in rooms && r2 in rooms && s in rooms[r1].occupants && s in rooms[r2].occupants
    ensures r1 == r2
  {
    assert students[s].room == Some(r1) && students[s].room == Some(r2);
  }

  /** Under Valid, populate drops no occupant, so the populated length the
      handlers compare with the capacity is the number of occupants. */
  lemma PopulatedIsOccupants(rooms: map<Id, Room>, students: map<Id, Student>, nextId: nat, r: Id)
    requires Valid(rooms, students, nextId) && r in rooms
    ensures Populated(rooms[r].occupants, students) == rooms[r].occupants
  {
    assert forall y :: y in rooms[r].occupants ==> y in students;
  }

  /** A student whose `room` is empty is an occupant of no room. */
  lemma RoomlessIsUnplaced(rooms: map<Id, Room>, students: map<Id, Student>, nextId: nat, x: Id)
    requires Valid(rooms, students, nextId)
    requires x in students ==> students[x].room.None?
    ensures Unplaced(rooms, x)
  {
  }

  // ---------------------------------------------------------------------
  // What each write does to them

  /** Room.create: a valid room with a new number and no occupants. */
  lemma InsertRoomKeepsValid(rooms: map<Id, Room>, students: map<Id, Student>, nextId: nat, room: Room)
    requires Valid(rooms, students, nextId)
    requires ValidRoom(room) && room.occupants == [] && !NumberTaken(room.roomNumber, rooms)
    ensures Valid(rooms[nextId := room], students, nextId + 1)
    ensures Linked(rooms, students) ==> Linked(rooms[nextId := room], students)
  {
    var rooms' := rooms[nextId := room];
    assert nextId !in rooms;
    assert BackLinked(rooms', students) by {
      forall r, s | r in rooms' && s in rooms'[r].occupants
        ensures s in students && students[s].room == Some(r)
      {
        assert r != nextId;
      }
    }
  }

  /** Student.create: a valid student with a new email, whose `room` is
      empty or names an existing room. The new student is no occupant yet. */
  lemma InsertStudentKeepsValid(rooms: map<Id, Room>, students: map<Id, Student>, nextId: nat, st: Student)
    requires Valid(rooms, students, nextId)
    requires ValidStudent(st) && (st.room.Some? ==> st.room.value in rooms) && !EmailTaken(st.email, students)
    ensures Valid(rooms, students[nextId := st], nextId + 1)
    ensures Unplaced(rooms, nextId)
    ensures Linked(rooms, students) ==> LinkedExcept(rooms, students[nextId := st], nextId)
    ensures Linked(rooms, students) && st.room.None? ==> Linked(rooms, students[nextId := st])
  {
    assert nextId !in students;
    var students' := students[nextId := st];
    assert UniqueEmails(students') by {
      forall a, b | a in students' && b in students' && a != b
        ensures students'[a].email != students'[b].email
      {
        if a == nextId { assert students[b].email != st.email; }
        else if b == nextId { assert students[a].email != st.email; }
      }
    }
  }

  /** Giving room `r` a new occupant list keeps the store Valid when the
      list fits the capacity, holds no id twice, and holds only students
      whose `room` is `r`. */
  lemma ReplaceOccupantsKeepsValid(rooms: map<Id, Room>, students: map<Id, Student>, nextId: nat, r: Id, occ: seq<Id>)
    requires Valid(rooms, students, nextId) && r in rooms
    requires |occ| <= rooms[r].capacity && Distinct(occ)
    requires forall s :: s in occ ==> s in students && students[s].room == Some(r)
    ensures Valid(rooms[r := rooms[r].(occupants := occ)], students, nextId)
  {
    var rooms' := rooms[r := rooms[r].(occupants := occ)];
    ReplaceKeepsRoomsOk(rooms, nextId, r, occ);
    assert StudentsOk(rooms', students, nextId) by {
      assert rooms'.Keys == rooms.Keys;
    }
    ReplaceKeepsBackLinked(rooms, students, r, occ);
    ReplaceKeepsNumbers(rooms, r, occ);
  }

  lemma ReplaceKeepsRoomsOk(rooms: map<Id, Room>, nextId: nat, r: Id, occ: seq<Id>)
    requires RoomsOk(rooms, nextId) && r in rooms
    requires |occ| <= rooms[r].capacity && Distinct(occ)
    ensures RoomsOk(rooms[r := rooms[r].(occupants := occ)], nextId)
  {
    var rooms' := rooms[r := rooms[r].(occupants := occ)];
    forall q | q in rooms'
      ensures q < nextId && ValidRoom(rooms'[q]) && WithinCapacity(rooms'[q]) && Distinct(rooms'[q].occupants)
    {
      if q != r { assert rooms'[q] == rooms[q]; }
    }
  }

  lemma ReplaceKeepsBackLinked(rooms: map<Id, Room>, students: map<Id, Student>, r: Id, occ: seq<Id>)
    requires BackLinked(rooms, students) && r in rooms
    requires forall s :: s in occ ==> s in students && students[s].room == Some(r)
    ensures BackLinked(rooms[r := rooms[r].(occupants := occ)], students)
  {
    var rooms' := rooms[r := rooms[r].(occupants := occ)];
    forall q, s | q in rooms' && s in rooms'[q].occupants
      ensures s in students && students[s].room == Some(q)
    {
      if q != r { assert rooms'[q] == rooms[q]; }
    }
  }

  lemma ReplaceKeepsNumbers(rooms: map<Id, Room>, r: Id, occ: seq<Id>)
    requires UniqueRoomNumbers(rooms) && r in rooms
    ensures UniqueRoomNumbers(rooms[r := rooms[r].(occupants := occ)])
  {
    var rooms' := rooms[r := rooms[r].(occupants := occ)];
    forall a, b | a in rooms' && b in rooms' && a != b
      ensures rooms'[a].roomNumber != rooms'[b].roomNumber
    {
      assert rooms'[a].roomNumber == rooms[a].roomNumber && rooms'[b].roomNumber == rooms[b].roomNumber;
    }
  }

  /** `$pull` of `x` from the room its `room` names: the store stays Valid,
      `x` is then an occupant of no room, and every other student keeps its
      link. */
  lemma PullKeepsValid(rooms: map<Id, Room>, students: map<Id, Student>, nextId: nat, x: Id, r: Id)
    requires Valid(rooms, students, nextId)
    requires x in students && students[x].room == Some(r)
    ensures Valid(PullFrom(rooms, r, x), students, nextId)
    ensures Unplaced(PullFrom(rooms, r, x), x)
    ensures rooms.Keys == PullFrom(rooms, r, x).Keys
    ensures LinkedExcept(rooms, students, x) ==> LinkedExcept(PullFrom(rooms, r, x), students, x)
  {
    assert r in rooms;
    var occ := Pull(rooms[r].occupants, x);
    var rooms' := rooms[r := rooms[r].(occupants := occ)];
    assert PullFrom(rooms, r, x) == rooms';
    PullDistinct(rooms[r].occupants, x);
    ReplaceOccupantsKeepsValid(rooms, students, nextId, r, occ);
    PullUnplaces(rooms, students, x, r);
    if LinkedExcept(rooms, students, x) {
      PullKeepsLinks(rooms, students, x, r);
    }
  }

  /** After the `$pull` of `x` from the room its `room` names, `x` is an
      occupant of no room: it was listed in no other room. */
  lemma PullUnplaces(rooms: map<Id, Room>, students: map<Id, Student>, x: Id, r: Id)
    requires BackLinked(rooms, students) && x in students && students[x].room == Some(r)
    ensures Unplaced(PullFrom(rooms, r, x), x)
  {
    var rooms' := PullFrom(rooms, r, x);
    forall q | q in rooms' ensures x !in rooms'[q].occupants {
      if q != r {
        assert rooms'[q] == rooms[q];
      }
    }
  }

  /** The `$pull` of `x` keeps every other student listed where it was. */
  lemma PullKeepsLinks(rooms: map<Id, Room>, students: map<Id, Student>, x: Id, r: Id)
    requires LinkedExcept(rooms, students, x)
    ensures LinkedExcept(PullFrom(rooms, r, x), students, x)
  {
    var rooms' := PullFrom(rooms, r, x);
    forall s | s in students && s != x && students[s].room.Some? && students[s].room.value in rooms'
      ensures s in rooms'[students[s].room.value].occupants
    {
      assert s in rooms[students[s].room.value].occupants;
    }
  }

  /** Assigning `room` (empty, or an existing room) to a student that is an
      occupant of no room keeps the store Valid. When the new `room` is
      empty, that student is linked too. */
  lemma SetRoomKeepsValid(rooms: map<Id, Room>, students: map<Id, Student>, nextId: nat, x: Id, room: Option<Id>)
    requires Valid(rooms, students, nextId)
    requires x in students && Unplaced(rooms, x) && (room.Some? ==> room.value in rooms)
    ensures Valid(rooms, students[x := students[x].(room := room)], nextId)
    ensures LinkedExcept(rooms, students, x) ==> LinkedExcept(rooms, students[x := students[x].(room := room)], x)
    ensures LinkedExcept(rooms, students, x) && room.None? ==> Linked(rooms, students[x := students[x].(room := room)])
  {
    var students' := students[x := students[x].(room := room)];
    assert UniqueEmails(students') by {
      forall a, b | a in students' && b in students' && a != b
        ensures students'[a].email != students'[b].email
      {
        assert students'[a].email == students[a].email && students'[b].email == students[b].email;
      }
    }
  }

  /** `$push` of `x` into the room its `room` already names, when `x` is an
      occupant of no room and that room has a free place: the store stays
      Valid, and if every other student was linked, every student is. */
  lemma PushKeepsValid(rooms: map<Id, Room>, students: map<Id, Student>, nextId: nat, x: Id, r: Id)
    requires Valid(rooms, students, nextId)
    requires x in students && students[x].room == Some(r) && r in rooms
    requires Unplaced(rooms, x) && |rooms[r].occupants| < rooms[r].capacity
    ensures Valid(PushTo(rooms, r, x), students, nextId)
    ensures LinkedExcept(rooms, students, x) ==> Linked(PushTo(rooms, r, x), students)
  {
    var occ := Push(rooms[r].occupants, x);
    var rooms' := rooms[r := rooms[r].(occupants := occ)];
    assert PushTo(rooms, r, x) == rooms';
    PushDistinct(rooms[r].occupants, x);
    ReplaceOccupantsKeepsValid(rooms, students, nextId, r, occ);
    if LinkedExcept(rooms, students, x) {
      assert Linked(rooms', students) by {
        forall s | s in students && students[s].room.Some? && students[s].room.value in rooms'
          ensures s in rooms'[students[s].room.value].occupants
        {
          var q := students[s].room.value;
          if s == x { assert rooms'[r].occupants[|rooms[r].occupants|] == x; }
          else if q == r { assert s in rooms[r].occupants; }
        }
      }
    }
  }

  /** Student.findByIdAndDelete of a student that is an occupant of no
      room keeps the store Valid, and every remaining student linked. */
  lemma RemoveStudentKeepsValid(rooms: map<Id, Room>, students: map<Id, Student>, nextId: nat, x: Id)
    requires Valid(rooms, students, nextId) && Unplaced(rooms, x)
    ensures Valid(rooms, students - {x}, nextId)
    ensures LinkedExcept(rooms, students, x) ==> Linked(rooms, students - {x})
  {
    var students' := students - {x};
    assert BackLinked(rooms, students') by {
      forall r, s | r in rooms && s in rooms[r].occupants
        ensures s in students' && students'[s].room == Some(r)
      {
        assert s != x;
      }
    }
  }

  /** Room.findByIdAndDelete followed by the `$unset` of every reference to
      it keeps the store Valid and every student linked. */
  lemma DeleteRoomKeepsValid(rooms: map<Id, Room>, students: map<Id, Student>, nextId: nat, r: Id)
    requires Valid(rooms, students, nextId) && r in rooms
    ensures Valid(rooms - {r}, UnsetRoom(students, r), nextId)
    ensures Linked(rooms, students) ==> Linked(rooms - {r}, UnsetRoom(students, r))
  {
    UnsetKeepsStudentsOk(rooms, students, nextId, r);
    UnsetKeepsBackLinked(rooms, students, r);
    UnsetKeepsEmails(students, r);
  }

  lemma UnsetKeepsStudentsOk(rooms: map<Id, Room>, students: map<Id, Student>, nextId: nat, r: Id)
    requires StudentsOk(rooms, students, nextId)
    ensures StudentsOk(rooms - {r}, UnsetRoom(students, r), nextId)
  {
    var rooms', students' := rooms - {r}, UnsetRoom(students, r);
    forall s | s in students'
      ensures s < nextId && ValidStudent(students'[s]) && (students'[s].room.Some? ==> students'[s].room.value in rooms')
    {
      assert students'[s] == students[s].(room := students'[s].room);
    }
  }

  lemma UnsetKeepsBackLinked(rooms: map<Id, Room>, students: map<Id, Student>, r: Id)
    requires BackLinked(rooms, students)
    ensures BackLinked(rooms - {r}, UnsetRoom(students, r))
  {
    var rooms', students' := rooms - {r}, UnsetRoom(students, r);
    forall q, s | q in rooms' && s in rooms'[q].occupants
      ensures s in students' && students'[s].room == Some(q)
    {
      assert students[s].room == Some(q) && q != r;
    }
  }

  lemma UnsetKeepsEmails(students: map<Id, Student>, r: Id)
    requires UniqueEmails(students)
    ensures UniqueEmails(UnsetRoom(students, r))
  {
    var students' := UnsetRoom(students, r);
    forall a, b | a in students' && b in students' && a != b
      ensures students'[a].email != students'[b].email
    {
      assert students'[a] == students[a].(room := students'[a].room);
      assert students'[b] == students[b].(room := students'[b].room);
    }
  }

  /** The change-room handler pulls the student from its room before it
      checks the new one; when the check then fails the student document is
      never saved. In that state the student still names the room but is no
      longer among its occupants: the store is no longer Linked. */
  lemma ChangeRoomFailureUnlinks(rooms: map<Id, Room>, students: map<Id, Student>, nextId: nat, x: Id)
    requires Valid(rooms, students, nextId)
    requires x in students && students[x].room.Some?
    ensures !Linked(PullFrom(rooms, students[x].room.value, x), students)
  {
    var r := students[x].room.value;
    var rooms' := PullFrom(rooms, r, x);
    assert r in rooms' && x !in rooms'[r].occupants;
  }
}
