/** The allocation handlers of the student and room routes
    (backend/routes/studentRoutes.js, backend/routes/roomRoutes.js) over an
    in-memory store of the two collections. Each handler is one method that
    performs the store writes in the order the route performs them; an early
    return leaves the writes made before it in place. */
module Hostel {
  import opened Schemas
  import opened Updates
  import opened Invariants

  // ---------------------------------------------------------------------
  // Requests and responses

  datatype Entity = StudentEntity | RoomEntity

  /** The response of a handler. */
  datatype Outcome =
    | Created(id: Id)          // 201 with the new document
    | Done                     // 200
    | NotFound(entity: Entity) // 404 "Student not found" / "Room not found"
    | RoomFull                 // 400 "Room is full"
    | MissingFields            // 400 "roomNumber and capacity are required"
    | AlreadyExists            // 400 "Room already exists"
    | ServerError              // 500: an error thrown inside the handler's try

  /** The value of JavaScript's Number(x) for a request field. */
  datatype JsNumber = NaN | Finite(v: int)

  /** JavaScript truthiness of a number: NaN and 0 are the falsy numbers. */
  predicate Truthy(n: JsNumber)
    ensures n == NaN || n == Finite(0) ==> !Truthy(n)
    ensures Truthy(n) ==> n.Finite?
  {
    n.Finite? && n.v != 0
  }

  /** The body of a student request; `room` is None when the field is
      absent or empty, and so is `year`. */
  datatype StudentBody = StudentBody(name: string, email: string, course: string, year: Option<real>, room: Option<Id>)

  /** The body of a room request, its numbers already passed through
      Number(...); an empty string stands for an absent string field. */
  datatype RoomBody = RoomBody(roomNumber: string, roomType: string, capacity: JsNumber, price: JsNumber)

  /** The document Student.create receives, as written: only name, email,
      course and room are taken from the body, so `year` is never set. */
  function StudentDocAsWritten(b: StudentBody, target: Option<Id>): (d: StudentDoc)
    ensures d.year.None?
    ensures d.name == b.name && d.email == b.email && d.course == b.course && d.room == target
  {
    StudentDoc(b.name, b.email, b.course, None, target)
  }

  /** As written, every student document is rejected by the schema, whatever
      the body holds: the required `year` is missing. */
  lemma AsWrittenStudentDocRejected(b: StudentBody, target: Option<Id>)
    ensures CastStudent(StudentDocAsWritten(b, target)) == None
  {
  }

  /** The document Student.create receives once `year` is forwarded too. */
  function StudentDocOf(b: StudentBody, target: Option<Id>): StudentDoc {
    StudentDoc(b.name, b.email, b.course, b.year, target)
  }

  /** The corrected document differs from the one the route builds in
      `year` alone, which it takes from the body. */
  lemma StudentDocOnlyAddsYear(b: StudentBody, target: Option<Id>)
    ensures StudentDocOf(b, target).year == b.year
    ensures StudentDocOf(b, target) == StudentDocAsWritten(b, target).(year := b.year)
  {
  }

  /** With `year` forwarded, a body with the required fields and a year in
      1..4 is stored, normalised, with the target room. */
  lemma StudentDocAccepted(b: StudentBody, target: Option<Id>)
    requires Trim(b.name) != [] && NormalizeEmail(b.email) != [] && Trim(b.course) != []
    requires b.year.Some? && 1.0 <= b.year.value <= 4.0
    ensures CastStudent(StudentDocOf(b, target))
         == Some(Student(Trim(b.name), NormalizeEmail(b.email), Trim(b.course), b.year.value, target))
  {
  }

  /** The room type as the route writes it: the request's type, or the
      capitalised word Single when none is given. */
  function DefaultTypeAsWritten(t: string): (r: string)
    ensures t != "" ==> r == t
    ensures t == "" ==> r == "Single"
  {
    if t == "" then "Single" else t
  }

  /** As written, the default type is not one of the enum's values, so a
      room created without a type is rejected by the schema. */
  lemma AsWrittenDefaultTypeRejected()
    ensures ParseRoomType(DefaultTypeAsWritten("")) == None
  {
  }

  /** The default type spelt as the enum spells it. */
  function DefaultType(t: string): (r: string)
    ensures t != "" ==> r == t
    ensures t == "" ==> r == TypeName(Single)
  {
    if t == "" then "single" else t
  }

  /** With the corrected default, a missing type stores a single room and a
      given type is validated as given. */
  lemma DefaultTypeAccepted(t: string)
    ensures ParseRoomType(DefaultType(t)) == if t == "" then Some(Single) else ParseRoomType(t)
  {
  }

  /** The price: the request's price as a number, or 0 when that is 0 or
      not a number. */
  function PriceOrZero(n: JsNumber): (p: int)
    ensures Truthy(n) ==> p == n.v
    ensures !Truthy(n) ==> p == 0
  {
    if n.Finite? then n.v else 0
  }

  /** The document Room.create receives. */
  function RoomDocOf(b: RoomBody): RoomDoc
    requires b.capacity.Finite?
  {
    RoomDoc(b.roomNumber, DefaultType(b.roomType), b.capacity.v, PriceOrZero(b.price), [])
  }

  /** Room.create accepts the route's document exactly when the trimmed
      number is not blank, the capacity is at least 1 and the price, if
      given, is not negative; a missing type then stores a single room, and
      the room starts with no occupants. */
  lemma RoomDocAccepted(b: RoomBody)
    requires b.capacity.Finite?
    ensures CastRoom(RoomDocOf(b)).Some? <==>
              && Trim(b.roomNumber) != [] && ParseRoomType(DefaultType(b.roomType)).Some?
              && b.capacity.v >= 1 && PriceOrZero(b.price) >= 0
    ensures CastRoom(RoomDocOf(b)).Some? ==>
              && CastRoom(RoomDocOf(b)).value.occupants == []
              && CastRoom(RoomDocOf(b)).value.price == PriceOrZero(b.price)
              && (b.roomType == "" ==> CastRoom(RoomDocOf(b)).value.roomType == Single)
  {
    DefaultTypeAccepted(b.roomType);
  }

  /** Room `r` has a free place: it has fewer populated occupants (listed
      ids that are existing students) than its capacity. The handlers report
      the room full when that populated list is at least as long as the
      capacity. */
  predicate HasPlace(rooms: map<Id, Room>, students: map<Id, Student>, r: Id)
    requires r in rooms
  {
    |Populated(rooms[r].occupants, students)| < rooms[r].capacity
  }

  /** No room was asked for, or the room exists and has a free place. */
  predicate RoomOpen(rooms: map<Id, Room>, students: map<Id, Student>, room: Option<Id>) {
    room.None? || (room.value in rooms && HasPlace(rooms, students, room.value))
  }

  /** What the room check accepts: no room at all, or an existing room. A
      room whose occupant array is shorter than its capacity is always
      accepted; when every listed occupant is an existing student, those are
      the only rooms accepted. */
  lemma RoomCheck(rooms: map<Id, Room>, students: map<Id, Student>, room: Option<Id>)
    ensures room.None? ==> RoomOpen(rooms, students, room)
    ensures RoomOpen(rooms, students, room) && room.Some? ==> room.value in rooms
    ensures room.Some? && room.value in rooms ==>
              var r := rooms[room.value];
              && (|r.occupants| < r.capacity ==> RoomOpen(rooms, students, room))
              && ((forall y :: y in r.occupants ==> y in students) ==>
                    (RoomOpen(rooms, students, room) <==> |r.occupants| < r.capacity))
  {
  }

  /** In a Valid store populate drops no occupant, so a room has a free
      place exactly when its occupants are fewer than its capacity. */
  lemma OpenIffBelowCapacity(rooms: map<Id, Room>, students: map<Id, Student>, nextId: nat, room: Option<Id>)
    requires Invariants.Valid(rooms, students, nextId)
    ensures RoomOpen(rooms, students, room) <==>
              room.None? || (room.value in rooms && |rooms[room.value].occupants| < rooms[room.value].capacity)
  {
    if room.Some? && room.value in rooms {
      PopulatedIsOccupants(rooms, students, nextId, room.value);
    }
  }

  /** Student.create succeeds: the schema accepts the document and the
      unique index on email does not reject it. */
  predicate Admissible(students: map<Id, Student>, d: StudentDoc) {
    CastStudent(d).Some? && !EmailTaken(CastStudent(d).value.email, students)
  }

  /** The rooms after the `$pull` of student `id` from the room its `room`
      names (no change when it names none). */
  function RoomsAfterPull(rooms: map<Id, Room>, s: Student, id: Id): map<Id, Room> {
    if s.room.Some? then PullFrom(rooms, s.room.value, id) else rooms
  }

  /** The rooms after the `$push` of `id` into `room` (no change when `room`
      is empty). */
  function RoomsAfterPush(rooms: map<Id, Room>, room: Option<Id>, id: Id): map<Id, Room> {
    if room.Some? then PushTo(rooms, room.value, id) else rooms
  }

  /** The writes of a successful student creation (Student.create of a
      valid student with a new email, then the `$push` into the room it
      names, which has a free place) keep the store Valid, and Consistent. */
  lemma CreateKeepsValid(rooms: map<Id, Room>, students: map<Id, Student>, nextId: nat, st: Student)
    requires ValidStudent(st) && !EmailTaken(st.email, students) && RoomOpen(rooms, students, st.room)
    ensures Invariants.Valid(rooms, students, nextId) ==>
              Invariants.Valid(RoomsAfterPush(rooms, st.room, nextId), students[nextId := st], nextId + 1)
    ensures Invariants.Consistent(rooms, students, nextId) ==>
              Invariants.Consistent(RoomsAfterPush(rooms, st.room, nextId), students[nextId := st], nextId + 1)
  {
    if Invariants.Valid(rooms, students, nextId) {
      OpenIffBelowCapacity(rooms, students, nextId, st.room);
      InsertStudentKeepsValid(rooms, students, nextId, st);
      if st.room.Some? {
        PushKeepsValid(rooms, students[nextId := st], nextId + 1, nextId, st.room.value);
      }
    }
  }

  /** The change-room handler's `$pull` keeps the store Valid and leaves
      the student an occupant of no room; every other student keeps its
      link. In a linked state the student's own room loses exactly that one
      occupant. */
  lemma PulledKeepsValid(rooms: map<Id, Room>, students: map<Id, Student>, nextId: nat, id: Id)
    requires Invariants.Valid(rooms, students, nextId) && id in students
    ensures var pulled := RoomsAfterPull(rooms, students[id], id);
            && Invariants.Valid(pulled, students, nextId)
            && Unplaced(pulled, id)
            && pulled.Keys == rooms.Keys
            && (forall r :: r in rooms ==> pulled[r].capacity == rooms[r].capacity)
            && (Linked(rooms, students) ==> LinkedExcept(pulled, students, id))
    ensures Linked(rooms, students) && students[id].room.Some? ==>
              var own := students[id].room.value;
              |RoomsAfterPull(rooms, students[id], id)[own].occupants| == |rooms[own].occupants| - 1
  {
    if students[id].room.Some? {
      var own := students[id].room.value;
      PullKeepsValid(rooms, students, nextId, id, own);
      PullDistinct(rooms[own].occupants, id);
    } else {
      RoomlessIsUnplaced(rooms, students, nextId, id);
    }
  }

  /** The state the change-room handler leaves when it returns after its
      `$pull`: Valid when the store was; but when the student had a room it
      is no longer Consistent, even if the store was. In a Consistent store
      the student's own room has a free place once the student has left
      it. */
  lemma PullThenReturn(rooms: map<Id, Room>, students: map<Id, Student>, nextId: nat, id: Id)
    requires id in students
    ensures Invariants.Valid(rooms, students, nextId) ==>
              Invariants.Valid(RoomsAfterPull(rooms, students[id], id), students, nextId)
    ensures Invariants.Consistent(rooms, students, nextId) && students[id].room.Some? ==>
              !Invariants.Consistent(RoomsAfterPull(rooms, students[id], id), students, nextId)
    ensures Invariants.Consistent(rooms, students, nextId) ==>
              RoomOpen(RoomsAfterPull(rooms, students[id], id), students, students[id].room)
  {
    if Invariants.Valid(rooms, students, nextId) {
      PulledKeepsValid(rooms, students, nextId, id);
      if students[id].room.Some? {
        ChangeRoomFailureUnlinks(rooms, students, nextId, id);
        OpenIffBelowCapacity(RoomsAfterPull(rooms, students[id], id), students, nextId, students[id].room);
      }
    }
  }

  /** The writes of a successful change of room (the pull from the old
      room, the push into a new one that has a free place, the save of
      `room`) keep the store Valid, and Consistent. */
  lemma MoveKeepsValid(rooms: map<Id, Room>, students: map<Id, Student>, nextId: nat, id: Id, room: Option<Id>)
    requires id in students
    requires RoomOpen(RoomsAfterPull(rooms, students[id], id), students, room)
    ensures var rooms' := RoomsAfterPush(RoomsAfterPull(rooms, students[id], id), room, id);
            var students' := students[id := students[id].(room := room)];
            && (Invariants.Valid(rooms, students, nextId) ==> Invariants.Valid(rooms', students', nextId))
            && (Invariants.Consistent(rooms, students, nextId) ==> Invariants.Consistent(rooms', students', nextId))
  {
    if Invariants.Valid(rooms, students, nextId) {
      var pulled := RoomsAfterPull(rooms, students[id], id);
      PulledKeepsValid(rooms, students, nextId, id);
      OpenIffBelowCapacity(pulled, students, nextId, room);
      var students' := students[id := students[id].(room := room)];
      SetRoomKeepsValid(pulled, students, nextId, id, room);
      if room.Some? {
        PushKeepsValid(pulled, students', nextId, id, room.value);
      }
    }
  }

  /** The writes of a student deletion (the `$pull` from the room its
      `room` names, then the removal) keep the store Valid, and Consistent;
      the student is then an occupant of no room. */
  lemma DeleteKeepsValid(rooms: map<Id, Room>, students: map<Id, Student>, nextId: nat, id: Id)
    requires id in students
    ensures var pulled := RoomsAfterPull(rooms, students[id], id);
            && (Invariants.Valid(rooms, students, nextId) ==>
                  Invariants.Valid(pulled, students - {id}, nextId) && Unplaced(pulled, id))
            && (Invariants.Consistent(rooms, students, nextId) ==>
                  Invariants.Consistent(pulled, students - {id}, nextId))
  {
    if Invariants.Valid(rooms, students, nextId) {
      PulledKeepsValid(rooms, students, nextId, id);
      RemoveStudentKeepsValid(RoomsAfterPull(rooms, students[id], id), students, nextId, id);
    }
  }

  // ---------------------------------------------------------------------
  // The store

  class Store {
    var rooms: map<Id, Room>
    var students: map<Id, Student>
    /** The next fresh ObjectId. */
    var nextId: nat

    ghost predicate Valid()
      reads this
    {
      Invariants.Valid(rooms, students, nextId)
    }

    ghost predicate Consistent()
      reads this
    {
      Invariants.Consistent(rooms, students, nextId)
    }

    constructor ()
      ensures Consistent()
      ensures rooms == map[] && students == map[] && nextId == 0
    {
      rooms, students, nextId := map[], map[], 0;
    }

    /** POST /api/students: create a student, optionally into a room. The
        room is checked first (exists, has a free place); then the student
        is created with `room` set; then the new id is pushed to the room. */
    method CreateStudent(body: StudentBody) returns (out: Outcome)
      modifies this
      ensures old(Valid()) ==> Valid()
      ensures old(Consistent()) ==> Consistent()
      ensures body.room.Some? && body.room.value !in old(rooms) ==>
                out == NotFound(RoomEntity) && unchanged(this)
      ensures body.room.Some? && body.room.value in old(rooms) && !HasPlace(old(rooms), old(students), body.room.value) ==>
                out == RoomFull && unchanged(this)
      ensures RoomOpen(old(rooms), old(students), body.room) && !Admissible(old(students), StudentDocOf(body, body.room)) ==>
                out == ServerError && unchanged(this)
      ensures RoomOpen(old(rooms), old(students), body.room) && Admissible(old(students), StudentDocOf(body, body.room)) ==>
                && out == Created(old(nextId)) && nextId == old(nextId) + 1
                && students == old(students)[out.id := CastStudent(StudentDocOf(body, body.room)).value]
                && rooms == RoomsAfterPush(old(rooms), body.room, out.id)
    {
      if body.room.Some? {
        var r := body.room.value;
        if r !in rooms {
          return NotFound(RoomEntity);
        }
        var roomDoc := rooms[r];
        if |Populated(roomDoc.occupants, students)| >= roomDoc.capacity {
          return RoomFull;
        }
      }
      var cast := CastStudent(StudentDocOf(body, body.room));
      if cast.None? || EmailTaken(cast.value.email, students) {
        return ServerError;
      }
      var id := Insert(cast.value);
      out := Created(id);
    }

    /** The writes of a creation that passed its checks: Student.create of
        `st` under a fresh id, then the `$push` of that id into the room
        `st` names. */
    method Insert(st: Student) returns (id: Id)
      requires ValidStudent(st) && !EmailTaken(st.email, students) && RoomOpen(rooms, students, st.room)
      modifies this
      ensures id == old(nextId) && nextId == id + 1
      ensures students == old(students)[id := st] && rooms == RoomsAfterPush(old(rooms), st.room, id)
      ensures old(Valid()) ==> Valid()
      ensures old(Consistent()) ==> Consistent()
    {
      id := nextId;
      CreateKeepsValid(rooms, students, id, st);
      rooms, students, nextId := RoomsAfterPush(rooms, st.room, id), students[id := st], id + 1;
    }

    /** PUT /api/students/:id/change-room, as the route is written: the
        student is pulled from its old room; then the new room is checked
        (exists, has a free place) and the id pushed to it; only then is the
        student's `room` saved. The checks can return after the pull, and
        the student is then left naming a room that no longer lists it. */
    method ChangeRoom(id: Id, room: Option<Id>) returns (out: Outcome)
      modifies this
      ensures nextId == old(nextId)
      ensures old(Valid()) ==> Valid()
      ensures id !in old(students) ==> out == NotFound(StudentEntity) && unchanged(this)
      ensures id in old(students) ==>
                var pulled := RoomsAfterPull(old(rooms), old(students)[id], id);
                && (room.Some? && room.value !in pulled ==>
                      out == NotFound(RoomEntity) && rooms == pulled && students == old(students))
                && (room.Some? && room.value in pulled && !HasPlace(pulled, old(students), room.value) ==>
                      out == RoomFull && rooms == pulled && students == old(students))
                && (RoomOpen(pulled, old(students), room) ==>
                      && out == Done
                      && rooms == RoomsAfterPush(pulled, room, id)
                      && students == old(students)[id := old(students)[id].(room := room)])
      ensures old(Consistent()) && out == Done ==> Consistent()
      ensures old(Consistent()) && id in old(students) && old(students)[id].room.Some? && out != Done ==>
                !Consistent()
      ensures old(Consistent()) && id in old(students) && room.Some? && old(students)[id].room == room ==>
                out == Done
    {
      if id !in students {
        return NotFound(StudentEntity);
      }
      var student := students[id];
      ghost var rooms0, students0 := rooms, students;
      PullThenReturn(rooms, students, nextId, id);
      if student.room.Some? {
        rooms := PullFrom(rooms, student.room.value, id);
      }
      if room.Some? {
        var r := room.value;
        if r !in rooms {
          return NotFound(RoomEntity);
        }
        var roomDoc := rooms[r];
        if |Populated(roomDoc.occupants, students)| >= roomDoc.capacity {
          return RoomFull;
        }
        MoveKeepsValid(rooms0, students0, nextId, id, room);
        rooms := PushTo(rooms, r, id);
        student := student.(room := room);
      } else {
        MoveKeepsValid(rooms0, students0, nextId, id, room);
        student := student.(room := None);
      }
      students := students[id := student];
      out := Done;
    }

    /** The change of room with every check made before the first write:
        the new room is checked against the occupants it would have once the
        student has left its old room, and only then are the pull, the push
        and the save made. A failed check changes nothing. */
    method ChangeRoomAtomic(id: Id, room: Option<Id>) returns (out: Outcome)
      modifies this
      ensures nextId == old(nextId)
      ensures old(Valid()) ==> Valid()
      ensures old(Consistent()) ==> Consistent()
      ensures out != Done ==> unchanged(this)
      ensures id !in old(students) ==> out == NotFound(StudentEntity)
      ensures id in old(students) ==>
                var pulled := RoomsAfterPull(old(rooms), old(students)[id], id);
                && (room.Some? && room.value !in pulled ==> out == NotFound(RoomEntity))
                && (room.Some? && room.value in pulled && !HasPlace(pulled, old(students), room.value) ==>
                      out == RoomFull)
                && (RoomOpen(pulled, old(students), room) ==>
                      && out == Done
                      && rooms == RoomsAfterPush(pulled, room, id)
                      && students == old(students)[id := old(students)[id].(room := room)])
      ensures old(Consistent()) && id in old(students) && room.Some? && old(students)[id].room == room ==>
                out == Done
    {
      if id !in students {
        return NotFound(StudentEntity);
      }
      var student := students[id];
      var pulled := RoomsAfterPull(rooms, student, id);
      PullThenReturn(rooms, students, nextId, id);
      if room.Some? {
        var r := room.value;
        if r !in pulled {
          return NotFound(RoomEntity);
        }
        if |Populated(pulled[r].occupants, students)| >= pulled[r].capacity {
          return RoomFull;
        }
      }
      MoveKeepsValid(rooms, students, nextId, id, room);
      rooms := RoomsAfterPush(pulled, room, id);
      students := students[id := student.(room := room)];
      out := Done;
    }

    /** DELETE /api/students/:id: the student is pulled from the room its
        `room` names, then removed. A missing id is reported as deleted too,
        and changes nothing. */
    method DeleteStudent(id: Id) returns (out: Outcome)
      modifies this
      ensures out == Done && nextId == old(nextId)
      ensures old(Valid()) ==> Valid() && Unplaced(rooms, id)
      ensures old(Consistent()) ==> Consistent()
      ensures id !in old(students) ==> unchanged(this)
      ensures id in old(students) ==>
                && students == old(students) - {id}
                && rooms == RoomsAfterPull(old(rooms), old(students)[id], id)
    {
      if id in students {
        var student := students[id];
        DeleteKeepsValid(rooms, students, nextId, id);
        if student.room.Some? {
          rooms := PullFrom(rooms, student.room.value, id);
        }
        students := students - {id};
      } else if Valid() {
        RoomlessIsUnplaced(rooms, students, nextId, id);
      }
      out := Done;
    }

    /** POST /api/rooms: roomNumber and a numeric, non-zero capacity are
        required; the (trimmed) roomNumber must be new; then the room is
        created with no occupants, the default type and a price of 0 when
        the price is missing or not a number. */
    method CreateRoom(body: RoomBody) returns (out: Outcome)
      modifies this
      ensures old(Valid()) ==> Valid()
      ensures old(Consistent()) ==> Consistent()
      ensures students == old(students)
      ensures body.roomNumber == [] || !Truthy(body.capacity) ==>
                out == MissingFields && unchanged(this)
      ensures body.roomNumber != [] && Truthy(body.capacity) && NumberTaken(Trim(body.roomNumber), old(rooms)) ==>
                out == AlreadyExists && unchanged(this)
      ensures body.roomNumber != [] && Truthy(body.capacity) && !NumberTaken(Trim(body.roomNumber), old(rooms)) ==>
                if CastRoom(RoomDocOf(body)).None? then
                  out == ServerError && unchanged(this)
                else
                  && out == Created(old(nextId)) && nextId == old(nextId) + 1
                  && rooms == old(rooms)[out.id := CastRoom(RoomDocOf(body)).value]
                  && rooms[out.id].occupants == []
                  && rooms[out.id].roomNumber == Trim(body.roomNumber)
                  && rooms[out.id].capacity == body.capacity.v
                  && rooms[out.id].price == PriceOrZero(body.price)
    {
      if body.roomNumber == [] || !Truthy(body.capacity) {
        return MissingFields;
      }
      if NumberTaken(Trim(body.roomNumber), rooms) {
        return AlreadyExists;
      }
      var cast := CastRoom(RoomDocOf(body));
      if cast.None? {
        return ServerError;
      }
      var id := nextId;
      if Valid() {
        InsertRoomKeepsValid(rooms, students, nextId, cast.value);
      }
      rooms := rooms[id := cast.value];
      nextId := nextId + 1;
      out := Created(id);
    }

    /** DELETE /api/rooms/:id: the room is deleted, then every student that
        references it has its `room` unset. */
    method DeleteRoom(id: Id) returns (out: Outcome)
      modifies this
      ensures nextId == old(nextId)
      ensures old(Valid()) ==> Valid()
      ensures old(Consistent()) ==> Consistent()
      ensures id !in old(rooms) ==> out == NotFound(RoomEntity) && unchanged(this)
      ensures id in old(rooms) ==>
                && out == Done
                && rooms == old(rooms) - {id}
                && students == UnsetRoom(old(students), id)
    {
      if id !in rooms {
        return NotFound(RoomEntity);
      }
      if Valid() {
        DeleteRoomKeepsValid(rooms, students, nextId, id);
      }
      rooms := rooms - {id};
      students := UnsetRoom(students, id);
      out := Done;
    }
  }
}
