# Nestify room allocation, modelled in Dafny

Nestify is a hostel management back end built on Express and MongoDB. An
administrator creates rooms, each with a room number, a type, a capacity and
a price. Students are created and may be given a room at creation time. They
can later be moved to another room or be deleted. A room keeps an ordered
array of its occupants' ids. A student keeps a single reference to its room.
The route handlers keep these two sides in step by hand, one store write at a
time.

This project models that allocation core as one imperative store,
`Hostel.Store`. It holds the `rooms` and `students` collections as maps from
ObjectId to document, plus the next fresh id. Each handler is a method that
makes the same writes in the same order as the route. An early return keeps
every write made before it. The project has five modules:

- `Schemas` (schemas.dfy) models the field constraints of the three schemas:
  - the string setters, with `trim` using JavaScript's white-space set and `lowercase` limited to ASCII;
  - required fields, their bounds, enums and defaults;
  - the cast from a document handed to `create` into the stored record, or a rejection.
- `Updates` (updates.dfy) models the store primitives the handlers issue:
  - the `$push` and `$pull` array operators;
  - the `$unset` of `updateMany`;
  - the filter that populating the occupants applies.
- `Invariants` (invariants.dfy) states two invariants over both collections and what each write does to them:
  - `Valid`: every room is within its capacity and has distinct occupants, every occupant is a student naming that room, every room reference is live, and room numbers and emails are unique;
  - `Linked`: a student that names a room is listed among its occupants.
  - `Consistent` is `Valid` plus `Linked`. It implies that a student names a room exactly when it is an occupant there, and that no student is in two rooms.
- `Hostel` (hostel.dfy) holds the request and response types, the handlers, and the lemmas composing each handler's writes.
- `RoomStats` (stats.dfy) models the dashboard statistics.

The handlers carry no precondition. Each one promises:
- `old(Valid()) ==> Valid()`;
- `old(Consistent()) ==> Consistent()`, for every handler except `ChangeRoom`, which keeps it only on success;
- its exact response and new state for every branch.

Consistency is lost on exactly one path. The change-room handler removes the
student from its old room first. When its later checks fail, it returns before
saving. The model keeps this behaviour as written and proves what it breaks.
A corrected ordering, `ChangeRoomAtomic`, is modelled beside it.

The model keeps three details of the routes as the code has them:
- The room check compares the capacity with the length of the populated occupant list (`Hostel.HasPlace`), not the raw array.
- The duplicate-number check compares the trimmed room number, because Mongoose applies the `trim` setter to query filters.
- A schema rejection at create is a 500 response (`ServerError`), because the handlers catch every error the same way.

## Model

| member | source | states |
|---|---|---|
| Hostel.Store.CreateStudent | backend/routes/studentRoutes.js:18-50 | With the year correction from Findings applied. A missing room gives 404 and a room whose populated occupants reach its capacity gives 400 "Room is full", both with no change. A document the schema or the unique email index rejects (`Hostel.Admissible` fails) gives 500 with no change. Otherwise the student is stored under a fresh id with the trimmed, lower-cased fields and the requested room, the id is pushed to that room, and the response is 201. Valid and Consistent are preserved. |
| Hostel.Store.Insert | backend/routes/studentRoutes.js:38-44 | The writes after the checks: the student is stored under the next id, that id is pushed to the room the student names, and the next id advances by one. Valid and Consistent are preserved. |
| Hostel.Store.ChangeRoom | backend/routes/studentRoutes.js:53-93 | As written. An unknown student gives 404 with no change. Otherwise the student is first pulled from its old room. A missing or full target room then gives 404 or 400, with exactly that pull applied and the student not saved. Otherwise the id is pushed to the target and the student's room is saved. Valid is always preserved. Consistent is preserved on success. Every failure after the pull of a placed student leaves the store not Consistent. Moving to the room the student already holds always succeeds in a Consistent store. |
| Hostel.Store.ChangeRoomAtomic | backend/routes/studentRoutes.js:53-93 | The same checks against the same post-pull occupancy, made before any write. Every failure leaves the store unchanged. Success gives the same state as ChangeRoom. Valid and Consistent are preserved on every path. |
| Hostel.Store.DeleteStudent | backend/routes/studentRoutes.js:96-111 | Always answers "Student deleted". An unknown id changes nothing. Otherwise the student is pulled from the room it names and removed. Valid and Consistent are preserved, and the id is then an occupant of no room. |
| Hostel.Store.CreateRoom | backend/routes/roomRoutes.js:23-55 | With the default-type correction from Findings applied. A missing roomNumber, or a capacity that is 0 or not a number, gives 400. A trimmed number already in use (`Invariants.NumberTaken`, the lookup by roomNumber) gives 400 "Room already exists". A schema rejection gives 500. Otherwise a room with no occupants, the trimmed number, the given capacity, the price or 0, and the default type is stored under a fresh id. No student changes, and Valid and Consistent are preserved. |
| Hostel.Store.DeleteRoom | backend/routes/roomRoutes.js:58-80 | An unknown room gives 404 with no change. Otherwise the room is removed and every student that named it has its room unset, with no other student changed. Valid and Consistent are preserved. |
| Hostel.RoomCheck | backend/routes/studentRoutes.js:24-33 | The room check (`Hostel.RoomOpen`, through `Hostel.HasPlace`) accepts no room at all, and otherwise only an existing room. A room whose occupant array is shorter than its capacity is always accepted. When every listed occupant is an existing student, those are the only rooms accepted. The same check is made at lines 68-77. |
| Hostel.OpenIffBelowCapacity | backend/routes/studentRoutes.js:31 | In a Valid store the populated-length check that the handlers make accepts a room exactly when its occupant array is shorter than its capacity. |
| Hostel.CreateKeepsValid | backend/routes/studentRoutes.js:38-44 | Student.create of a valid student whose email no student has (`Invariants.EmailTaken`, the unique index), then the push into a room that has a place (`Hostel.RoomsAfterPush`), preserves Valid and Consistent. |
| Hostel.PullThenReturn | backend/routes/studentRoutes.js:61-77 | The handler's early return after its pull leaves a Valid store Valid. It always leaves a Consistent store with a placed student not Consistent. In a Consistent store, the student's own room has a free place after the pull. |
| Hostel.PulledKeepsValid | backend/routes/studentRoutes.js:61-65 | In a Valid store the pull of a student from the room it names (`Hostel.RoomsAfterPull`) keeps the store Valid and leaves the student in no room. No room appears or disappears and no capacity changes. Every other student keeps its link. In a linked store the student's own room loses exactly one occupant. |
| Hostel.MoveKeepsValid | backend/routes/studentRoutes.js:61-88 | The pull, the push into a room that has a place after the pull, and the save of the new room together preserve Valid and Consistent. |
| Hostel.DeleteKeepsValid | backend/routes/studentRoutes.js:100-106 | The pull from the room the student names (`Hostel.RoomsAfterPull`), then the removal, preserves Valid and Consistent and leaves the id in no room. |
| Hostel.StudentDocAsWritten | backend/routes/studentRoutes.js:20-38 | The document the route builds copies name, email and course from the body and the checked room, and it has no year. |
| Hostel.StudentDocOnlyAddsYear | backend/routes/studentRoutes.js:20-38 | The corrected document (`Hostel.StudentDocOf`) differs from the route's document in the year alone, which it takes from the body. |
| Hostel.AsWrittenStudentDocRejected | backend/routes/studentRoutes.js:20-38 | The document the route builds never sets year, so the schema rejects it for every request body. |
| Hostel.StudentDocAccepted | backend/models/Schemas.js:27-50 | With year forwarded, a body whose name, email and course are non-blank and whose year is in 1..4 is stored with its fields normalised and the target room. |
| Hostel.Truthy | backend/routes/roomRoutes.js:30 | NaN and 0 are falsy, and a truthy number is finite. |
| Hostel.PriceOrZero | backend/routes/roomRoutes.js:43 | A truthy price is kept, and a price that is 0 or not a number becomes 0. |
| Hostel.DefaultTypeAsWritten | backend/routes/roomRoutes.js:42 | A given type is kept, and a missing type becomes the capitalised "Single". |
| Hostel.DefaultType | backend/routes/roomRoutes.js:42 | A given type is kept, and a missing type becomes the enum's name for a single room. |
| Hostel.RoomDocAccepted | backend/routes/roomRoutes.js:39-45 | Room.create accepts the document the route builds (`Hostel.RoomDocOf`) exactly when the trimmed number is not blank, the type is in the enum, the capacity is at least 1 and the price is not negative. The stored room has no occupants and the price or 0. With no type given, it is a single room. |
| Hostel.AsWrittenDefaultTypeRejected | backend/routes/roomRoutes.js:42 | The default type the route supplies is not in the schema's enum, so a room created without a type is rejected. |
| Hostel.DefaultTypeAccepted | backend/models/Schemas.js:68-72 | With the default spelt as the enum spells it, a missing type becomes a single room, and a given type is validated unchanged. |
| Invariants.OccupancyIffRoom | backend/models/Schemas.js:51-55 | In a Consistent store, a student's room reference names room r if and only if the student is among r's occupants. |
| Invariants.NoStudentInTwoRooms | backend/models/Schemas.js:78-81 | In a Valid store no id is an occupant of two different rooms. |
| Invariants.PopulatedIsOccupants | backend/routes/studentRoutes.js:25 | In a Valid store, populating a room's occupants drops none of them. |
| Invariants.RoomlessIsUnplaced | backend/routes/studentRoutes.js:100 | In a Valid store, a student with no room, or no student at all, is an occupant of no room. |
| Invariants.InsertRoomKeepsValid | backend/routes/roomRoutes.js:39-45 | Inserting a room that is valid, empty and has a new number preserves Valid and Linked. |
| Invariants.InsertStudentKeepsValid | backend/routes/studentRoutes.js:38 | Inserting a valid student with a new email and a live room reference preserves Valid. The new id is in no room, and every other link is kept. |
| Invariants.ReplaceOccupantsKeepsValid | backend/models/Schemas.js:73-81 | Replacing a room's occupant array by a distinct list within capacity, whose members all name that room, preserves Valid. |
| Invariants.PullKeepsValid | backend/routes/studentRoutes.js:61-65 | The pull of a student from the room it names preserves Valid and leaves the student in no room. No room appears or disappears, and every other student's link is kept. |
| Invariants.PullUnplaces | backend/routes/studentRoutes.js:61-65 | After that pull the student is an occupant of no room. |
| Invariants.SetRoomKeepsValid | backend/routes/studentRoutes.js:83-88 | Saving an empty or live room reference on a student that is in no room preserves Valid, and every other link is kept. |
| Invariants.PushKeepsValid | backend/routes/studentRoutes.js:79-81 | The push of a student into the room it names, when it is in no room and that room is below capacity, preserves Valid and restores Linked. |
| Invariants.RemoveStudentKeepsValid | backend/routes/studentRoutes.js:106 | Removing a student that is in no room preserves Valid and restores Linked. |
| Invariants.DeleteRoomKeepsValid | backend/routes/roomRoutes.js:60-70 | Deleting a room and unsetting every reference to it preserves Valid and Linked. |
| Invariants.ChangeRoomFailureUnlinks | backend/routes/studentRoutes.js:61-77 | After the pull of a placed student, the student still names a live room that no longer lists it, so Linked fails. |
| Updates.Pull | backend/routes/studentRoutes.js:63 | `$pull` keeps exactly the elements different from x and never lengthens the array. It is the identity when x is absent. |
| Updates.PullCounts | backend/routes/studentRoutes.js:63 | `$pull` removes every occurrence of x and keeps every other id exactly as many times as it occurred. |
| Updates.PullDistinct | backend/routes/studentRoutes.js:63 | On an array without duplicates, `$pull` keeps it without duplicates and removes exactly one element when x was present. |
| Updates.Push | backend/routes/studentRoutes.js:42 | `$push` appends x at the end and keeps the rest. |
| Updates.PushDistinct | backend/routes/studentRoutes.js:42 | Pushing an id the array does not hold keeps it without duplicates. |
| Updates.Populated | backend/routes/studentRoutes.js:25 | Populating keeps exactly the ids that are existing students, never lengthens the array, and is the identity when every id is a student. |
| Updates.PullFromTouchesOnly | backend/routes/studentRoutes.js:62-64 | The pull (`Updates.PullFrom`) on room r replaces r's occupants by their pull and changes no other room. No room appears or disappears. |
| Updates.PushToTouchesOnly | backend/routes/studentRoutes.js:41-43 | The push (`Updates.PushTo`) on room r replaces r's occupants by their push and changes no other room. No room appears or disappears. |
| Updates.UnsetRoom | backend/routes/roomRoutes.js:67-70 | Every student that named r has its room unset, so no student names r afterwards. Students that did not name r are unchanged, and the others differ only in their room. |
| RoomStats.Of | backend/routes/roomRoutes.js:84-95 | totalRooms is the number of rooms, occupiedRooms never exceeds it, and occupied plus available is the total. |
| RoomStats.AvailableIsEmptyRooms | backend/routes/roomRoutes.js:88-89 | availableRooms is exactly the number of rooms with no occupant. |
| RoomStats.NoneOccupiedIff | backend/routes/roomRoutes.js:88 | occupiedRooms is 0 if and only if every room is empty. |
| Schemas.Trim | backend/models/Schemas.js:9 | The trim setter's result starts and ends with no white space and is no longer than its input. |
| Schemas.TrimDecomposes | backend/models/Schemas.js:9 | Trim returns a contiguous part of its input with only white space before and after it. |
| Schemas.TrimSurrounded | backend/models/Schemas.js:31 | Trim of a trimmed string surrounded by any white space returns that string. |
| Schemas.TrimTrailing | backend/models/Schemas.js:31 | Trim of a trimmed string followed by any white space returns that string. |
| Schemas.TrimIdempotent | backend/models/Schemas.js:37 | Trimming twice is trimming once. |
| Schemas.Lower | backend/models/Schemas.js:10 | The lowercase setter keeps the length, leaves no upper-case letter, leaves a lower-case string alone and keeps a trimmed string trimmed. |
| Schemas.NormalizeEmail | backend/models/Schemas.js:33-39 | A stored email is trimmed and lower case. |
| Schemas.NormalizeEmailIdempotent | backend/models/Schemas.js:33-39 | Normalising a normalised email changes nothing. |
| Schemas.CastRole | backend/models/Schemas.js:17-21 | An absent role defaults to student. A present role is accepted exactly when it is admin or student, and is stored under its own name. |
| Schemas.Utf16Length | backend/models/Schemas.js:15 | A string's length in UTF-16 code units lies between its number of characters and twice that. |
| Schemas.Utf16LengthConcat | backend/models/Schemas.js:15 | The UTF-16 length of a concatenation is the sum of the lengths. |
| Schemas.CastUser | backend/models/Schemas.js:4-24 | A user is accepted exactly when its normalised email is non-empty, its password is at least 6 UTF-16 code units long and its role is accepted. The stored user is valid and holds the normalised email. |
| Schemas.CastStudent | backend/models/Schemas.js:27-55 | A student is accepted exactly when its trimmed name, normalised email and trimmed course are non-empty and its year is present and, as a number, between 1 and 4, fractions included. The stored record is valid, holds the normalised fields and keeps the room reference. |
| Schemas.StudentCastRoundTrip | backend/models/Schemas.js:27-55 | Casting the document of a stored valid student gives that student back. |
| Schemas.ParseRoomType | backend/models/Schemas.js:68-72 | A type is accepted only under its own lower-case name. |
| Schemas.ParseTypeName | backend/models/Schemas.js:68-72 | Every room type is accepted under its name. |
| Schemas.CastRoom | backend/models/Schemas.js:61-86 | A room is accepted exactly when its trimmed number is non-empty, its type is in the enum, its capacity is at least 1 and its price is at least 0. The stored room is valid, holds the trimmed number and keeps the other fields. |

## Left out

- Socket.IO: the `rooms:updated` emits after room creation and deletion are not modelled. They change no stored state.
- Concurrency: each handler runs as one uninterrupted method. Two interleaved requests, for example two creations racing for the last place in a room, are not modelled.
- Storage failures between two writes of one handler, and the 500 response they would produce, are not modelled. Each write succeeds.
- Malformed ObjectIds: a request id that cannot be cast to an ObjectId makes Mongoose throw and the handler answer 500. Ids are naturals here, so this path does not exist.
- Schemas.Lower: models only ASCII lower-casing, not JavaScript's full Unicode toLowerCase.
- Hostel.JsNumber: a request number is an integer or NaN. Fractional capacities and prices are not modelled. This hides a breach of the capacity bound in the source: a capacity such as 2.5 is truthy and passes the schema's minimum of 1, and the room check (occupants at least the capacity means full) then admits a third occupant. With a fractional capacity c the route admits the ceiling of c occupants, so `Invariants.WithinCapacity` does not hold there. A student's year is a real number, so fractional years are modelled.
- Hostel.Store.CreateStudent: applies the year correction from Findings. As written, every request that passes the room checks answers 500 and changes nothing (Hostel.AsWrittenStudentDocRejected).
- Hostel.Store.CreateRoom: applies the default-type correction from Findings. As written, every room body that passes the checks and gives no type answers 500 and changes nothing (Hostel.AsWrittenDefaultTypeRejected).
- Hostel.StudentBody: a year that Mongoose cannot cast to a number is represented as an absent year. Both answer 500 with no change, since year is required.
- Hostel.RoomBody: roomNumber is always a string. A JSON number given as roomNumber is not modelled.
- The GET list endpoints of both routes, the dashboard routes, the authentication and role middleware, server.js and the front end are not part of this model. The user schema is modelled by its validation alone (CastUser), since no core route writes users.
- Hostel.Store: the routes import backend/models/Student.js and backend/models/Room.js. Those files declare a smaller set of fields, with no validators, and do not import mongoose. The model follows the full schemas in backend/models/Schemas.js, which register the same model names.
- Timestamps added by the schemas are not modelled.

## Findings

| source | as written | input that shows it | evidently intended | confidence | as-written member | corrected member |
|---|---|---|---|---|---|---|
| backend/routes/studentRoutes.js:20-38 | Student.create receives only name, email, course and room, while year is required with min 1 and max 4 (backend/models/Schemas.js:45-50) | any body, for example one with year 2 | forward year so that a valid body creates the student | not executed | Hostel.AsWrittenStudentDocRejected | Hostel.StudentDocAccepted |
| backend/routes/roomRoutes.js:42 | the default type is the capitalised "Single", while the enum lists only lower-case names (backend/models/Schemas.js:68-72) | a room body with no type | default to "single" | not executed | Hostel.AsWrittenDefaultTypeRejected | Hostel.DefaultTypeAccepted |
| backend/routes/studentRoutes.js:61-88 | the student is pulled from its old room before the new room is checked, and a failed check returns before the save | a student in room A moved to a full room B, or to a missing room | make every check before any write | not executed | Hostel.Store.ChangeRoom | Hostel.Store.ChangeRoomAtomic |

The store's create handler, `Hostel.Store.CreateStudent`, builds its document with `Hostel.StudentDocOf`, which forwards year as intended. Room creation uses `Hostel.DefaultType`. `Invariants.ChangeRoomFailureUnlinks` and `Hostel.PullThenReturn` show what the as-written change of room breaks.
