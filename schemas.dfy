/** Field constraints of the user, student and room collections
    (backend/models/Schemas.js): the string setters (trim, lowercase),
    required fields, numeric bounds, enums and defaults, as predicates over
    the stored records and as cast functions that turn a document handed to
    `create` into the record that is stored, or reject it. */
module Schemas {

  datatype Option<T> = None | Some(value: T)

  /** A document id (a Mongo ObjectId). */
  type Id = nat

  // ---------------------------------------------------------------------
  // String setters

  /** The characters JavaScript's String.prototype.trim removes: the
      white-space characters (tab, vertical tab, form feed, space, no-break
      space, the byte order mark and the other space separators) and the
      line terminators. */
  predicate IsSpace(c: char) {
    || c == '\t' || c == '\n' || c == '\U{000B}' || c == '\U{000C}' || c == '\r'
    || c == ' ' || c == '\U{00A0}' || c == '\U{1680}' || ('\U{2000}' <= c <= '\U{200A}')
    || c == '\U{2028}' || c == '\U{2029}' || c == '\U{202F}' || c == '\U{205F}'
    || c == '\U{3000}' || c == '\U{FEFF}'
  }

  predicate AllSpaces(s: string) {
    forall i :: 0 <= i < |s| ==> IsSpace(s[i])
  }

  /** Neither starts nor ends with white space. */
  predicate IsTrimmed(s: string) {
    s == [] || (!IsSpace(s[0]) && !IsSpace(s[|s| - 1]))
  }

  /** The `trim: true` setter: white space is dropped from either end
      until neither end is white space. */
  function Trim(s: string): (r: string)
    ensures IsTrimmed(r) && |r| <= |s|
    decreases |s|
  {
    if s != [] && IsSpace(s[0]) then Trim(s[1..])
    else if s != [] && IsSpace(s[|s| - 1]) then Trim(s[..|s| - 1])
    else s
  }

  lemma AllSpacesConcat(a: string, b: string)
    requires AllSpaces(a) && AllSpaces(b)
    ensures AllSpaces(a + b)
  {
    forall k | 0 <= k < |a + b| ensures IsSpace((a + b)[k]) {
      if k < |a| { assert (a + b)[k] == a[k]; } else { assert (a + b)[k] == b[k - |a|]; }
    }
  }

  lemma AllSpacesSlice(a: string, i: int, j: int)
    requires AllSpaces(a) && 0 <= i <= j <= |a|
    ensures AllSpaces(a[i..j])
  {
    forall k | 0 <= k < j - i ensures IsSpace(a[i..j][k]) {
      assert a[i..j][k] == a[i + k];
    }
  }

  /** `r` is `s[i..j]` and only white space surrounds it in `s`. */
  predicate Splits(s: string, r: string, i: int, j: int) {
    0 <= i <= j <= |s| && r == s[i..j] && AllSpaces(s[..i]) && AllSpaces(s[j..])
  }

  lemma SplitsFront(s: string, r: string, i: int, j: int)
    requires s != [] && IsSpace(s[0]) && Splits(s[1..], r, i, j)
    ensures Splits(s, r, i + 1, j + 1)
  {
    var t := s[1..];
    assert s[..i + 1] == [s[0]] + t[..i];
    AllSpacesConcat([s[0]], t[..i]);
    assert s[i + 1..j + 1] == t[i..j] && s[j + 1..] == t[j..];
  }

  lemma SplitsBack(s: string, r: string, i: int, j: int)
    requires s != [] && IsSpace(s[|s| - 1]) && Splits(s[..|s| - 1], r, i, j)
    ensures Splits(s, r, i, j)
  {
    var t := s[..|s| - 1];
    assert s[..i] == t[..i] && s[i..j] == t[i..j];
    assert s[j..] == t[j..] + [s[|s| - 1]];
    AllSpacesConcat(t[j..], [s[|s| - 1]]);
  }

  /** What Trim drops is white space: the result is a contiguous part of
      the input with only white space before and after it. */
  lemma {:induction false} TrimDecomposes(s: string)
    ensures exists i, j :: Splits(s, Trim(s), i, j)
    decreases |s|
  {
    if s != [] && IsSpace(s[0]) {
      TrimDecomposes(s[1..]);
      var i, j :| Splits(s[1..], Trim(s[1..]), i, j);
      SplitsFront(s, Trim(s), i, j);
    } else if s != [] && IsSpace(s[|s| - 1]) {
      TrimDecomposes(s[..|s| - 1]);
      var i, j :| Splits(s[..|s| - 1], Trim(s[..|s| - 1]), i, j);
      SplitsBack(s, Trim(s), i, j);
    } else {
      assert s[0..|s|] == s && s[..0] == [] && s[|s|..] == [];
      assert Splits(s, Trim(s), 0, |s|);
    }
  }

  /** Trim takes off exactly the surrounding white space: whatever white
      space is put around a trimmed string, Trim gives that string back. */
  lemma {:induction false} TrimSurrounded(p: string, t: string, q: string)
    requires AllSpaces(p) && AllSpaces(q) && IsTrimmed(t)
    ensures Trim(p + t + q) == t
    decreases |p|
  {
    var s := p + t + q;
    if p != [] {
      assert s[0] == p[0];
      assert s[1..] == p[1..] + t + q;
      AllSpacesSlice(p, 1, |p|);
      assert p[1..|p|] == p[1..];
      TrimSurrounded(p[1..], t, q);
    } else {
      assert s == t + q;
      TrimTrailing(t, q);
    }
  }

  /** The case of TrimSurrounded with white space after the string only. */
  lemma {:induction false} TrimTrailing(t: string, q: string)
    requires AllSpaces(q) && IsTrimmed(t)
    ensures Trim(t + q) == t
    decreases |q|
  {
    var s := t + q;
    if q == [] {
      assert s == t;
    } else if t == [] {
      assert s == q && s[0] == q[0];
      AllSpacesSlice(q, 1, |q|);
      assert q[1..|q|] == q[1..] && s[1..] == [] + q[1..];
      TrimTrailing([], q[1..]);
    } else {
      assert s[0] == t[0] && s[|s| - 1] == q[|q| - 1];
      AllSpacesSlice(q, 0, |q| - 1);
      assert q[0..|q| - 1] == q[..|q| - 1] && s[..|s| - 1] == t + q[..|q| - 1];
      TrimTrailing(t, q[..|q| - 1]);
    }
  }

  /** The setter is idempotent: a stored (already trimmed) value is left as
      it is when it is written again. */
  lemma TrimIdempotent(s: string)
    ensures Trim(Trim(s)) == Trim(s)
  {
    var t := Trim(s);
    assert [] + t + [] == t;
    TrimSurrounded([], t, []);
  }

  /** The lower-case form of one character: A-Z map to a-z, every other
      character is left as it is. */
  function LowerChar(c: char): char {
    if 'A' <= c <= 'Z' then (c as int + 32) as char else c
  }

  predicate IsLower(s: string) {
    forall i :: 0 <= i < |s| ==> !('A' <= s[i] <= 'Z')
  }

  /** The `lowercase: true` setter. */
  function Lower(s: string): (r: string)
    ensures |r| == |s| && IsLower(r)
    ensures IsLower(s) ==> r == s
    ensures IsTrimmed(s) ==> IsTrimmed(r)
  {
    seq(|s|, i requires 0 <= i < |s| => LowerChar(s[i]))
  }

  /** What the `trim` and `lowercase` setters make of an email. */
  function NormalizeEmail(s: string): (r: string)
    ensures IsTrimmed(r) && IsLower(r)
  {
    Lower(Trim(s))
  }

  lemma NormalizeEmailIdempotent(s: string)
    ensures NormalizeEmail(NormalizeEmail(s)) == NormalizeEmail(s)
  {
    var e := NormalizeEmail(s);
    assert [] + e + [] == e;
    TrimSurrounded([], e, []);
  }

  // ---------------------------------------------------------------------
  // Users

  datatype Role = AdminRole | StudentRole

  function RoleName(r: Role): string {
    match r
    case AdminRole => "admin"
    case StudentRole => "student"
  }

  /** The `role` field: one of 'admin' and 'student', 'student' when the
      field is absent (None), rejected otherwise. */
  function CastRole(r: Option<string>): (res: Option<Role>)
    ensures r.None? ==> res == Some(StudentRole)
    ensures r.Some? && res.Some? ==> RoleName(res.value) == r.value
    ensures r.Some? && (r.value == "admin" || r.value == "student") ==> res.Some?
  {
    match r
    case None => Some(StudentRole)
    case Some(name) =>
      if name == "admin" then Some(AdminRole)
      else if name == "student" then Some(StudentRole)
      else None
  }

  /** The length of a string as JavaScript counts it: in UTF-16 code
      units, so a character outside the Basic Multilingual Plane counts
      twice. */
  function Utf16Length(s: string): (n: nat)
    ensures |s| <= n <= 2 * |s|
  {
    if s == [] then 0 else (if s[0] as int >= 0x1_0000 then 2 else 1) + Utf16Length(s[1..])
  }

  /** The length of a concatenation is the sum of the lengths. */
  lemma {:induction false} Utf16LengthConcat(a: string, b: string)
    ensures Utf16Length(a + b) == Utf16Length(a) + Utf16Length(b)
  {
    if a != [] {
      assert (a + b)[0] == a[0] && (a + b)[1..] == a[1..] + b;
      Utf16LengthConcat(a[1..], b);
    } else {
      assert a + b == b;
    }
  }

  datatype User = User(email: string, password: string, role: Role)

  predicate ValidUser(u: User) {
    && u.email != [] && IsTrimmed(u.email) && IsLower(u.email)
    && Utf16Length(u.password) >= 6
  }

  /** Validation of a user document: email required, trimmed and
      lower-cased; password required, at least 6 UTF-16 code units long
      (the `minlength` validator); role as CastRole. */
  function CastUser(email: string, password: string, role: Option<string>): (r: Option<User>)
    ensures r.Some? <==> NormalizeEmail(email) != [] && Utf16Length(password) >= 6 && CastRole(role).Some?
    ensures r.Some? ==> ValidUser(r.value) && r.value.email == NormalizeEmail(email)
                         && r.value.password == password && r.value.role == CastRole(role).value
  {
    var e := NormalizeEmail(email);
    if e == [] || Utf16Length(password) < 6 then None
    else match CastRole(role)
      case None => None
      case Some(role) => Some(User(e, password, role))
  }

  // ---------------------------------------------------------------------
  // Students

  /** A stored student. `year` is a JavaScript number, so any finite value,
      not only a whole one, passes the min and max validators. `room` is the
      ObjectId reference to a room, or null. */
  datatype Student = Student(name: string, email: string, course: string, year: real, room: Option<Id>)

  /** A required string field after its trim setter has run: what remains
      must not be empty. */
  predicate RequiredTrimmed(s: string) {
    s != [] && IsTrimmed(s)
  }

  /** The constraints every stored student satisfies. */
  predicate ValidStudent(s: Student) {
    && RequiredTrimmed(s.name)
    && RequiredTrimmed(s.email) && IsLower(s.email)
    && RequiredTrimmed(s.course)
    && 1.0 <= s.year <= 4.0
  }

  /** The document handed to Student.create; `year` is None when absent. */
  datatype StudentDoc = StudentDoc(name: string, email: string, course: string, year: Option<real>, room: Option<Id>)

  /** Schema validation of a new student: the setters run, then the
      required, min and max validators. */
  function CastStudent(d: StudentDoc): (r: Option<Student>)
    ensures r.Some? <==> && Trim(d.name) != [] && NormalizeEmail(d.email) != [] && Trim(d.course) != []
                         && d.year.Some? && 1.0 <= d.year.value <= 4.0
    ensures r.Some? ==> && ValidStudent(r.value) && r.value.room == d.room
                        && r.value.name == Trim(d.name) && r.value.email == NormalizeEmail(d.email)
                        && r.value.course == Trim(d.course) && r.value.year == d.year.value
  {
    var name, email, course := Trim(d.name), NormalizeEmail(d.email), Trim(d.course);
    if name == [] || email == [] || course == [] then None
    else match d.year
      case None => None
      case Some(y) => if 1.0 <= y <= 4.0 then Some(Student(name, email, course, y, d.room)) else None
  }

  /** The document that stores `s` again. */
  function StudentDocFrom(s: Student): StudentDoc {
    StudentDoc(s.name, s.email, s.course, Some(s.year), s.room)
  }

  /** Casting a stored student gives the same student back: the setters and
      validators accept every record they produced. */
  lemma StudentCastRoundTrip(s: Student)
    requires ValidStudent(s)
    ensures CastStudent(StudentDocFrom(s)) == Some(s)
  {
    assert [] + s.name + [] == s.name;
    assert [] + s.email + [] == s.email;
    assert [] + s.course + [] == s.course;
    TrimSurrounded([], s.name, []);
    TrimSurrounded([], s.email, []);
    TrimSurrounded([], s.course, []);
  }

  // ---------------------------------------------------------------------
  // Rooms

  datatype RoomType = Single | Double | Triple | Dormitory

  function TypeName(t: RoomType): string {
    match t
    case Single => "single"
    case Double => "double"
    case Triple => "triple"
    case Dormitory => "dormitory"
  }

  /** The enum validator of `type`: exactly the four lower-case names. */
  function ParseRoomType(s: string): (r: Option<RoomType>)
    ensures r.Some? ==> TypeName(r.value) == s
  {
    if s == "single" then Some(Single)
    else if s == "double" then Some(Double)
    else if s == "triple" then Some(Triple)
    else if s == "dormitory" then Some(Dormitory)
    else None
  }

  lemma ParseTypeName(t: RoomType)
    ensures ParseRoomType(TypeName(t)) == Some(t)
  {
  }

  /** A stored room. `occupants` is the ordered array of student ids. */
  datatype Room = Room(roomNumber: string, roomType: RoomType, capacity: int, price: int, occupants: seq<Id>)

  /** The constraints every stored room satisfies (uniqueness of
      roomNumber is a property of the collection, not of one room). */
  predicate ValidRoom(r: Room) {
    RequiredTrimmed(r.roomNumber) && r.capacity >= 1 && r.price >= 0
  }

  /** The document handed to Room.create. */
  datatype RoomDoc = RoomDoc(roomNumber: string, roomType: string, capacity: int, price: int, occupants: seq<Id>)

  /** Schema validation of a new room. */
  function CastRoom(d: RoomDoc): (r: Option<Room>)
    ensures r.Some? <==> Trim(d.roomNumber) != [] && ParseRoomType(d.roomType).Some? && d.capacity >= 1 && d.price >= 0
    ensures r.Some? ==> && ValidRoom(r.value) && r.value.roomNumber == Trim(d.roomNumber)
                        && TypeName(r.value.roomType) == d.roomType && r.value.capacity == d.capacity
                        && r.value.price == d.price && r.value.occupants == d.occupants
  {
    var number := Trim(d.roomNumber);
    if number == [] || d.capacity < 1 || d.price < 0 then None
    else match ParseRoomType(d.roomType)
      case None => None
      case Some(t) => Some(Room(number, t, d.capacity, d.price, d.occupants))
  }
}
