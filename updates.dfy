/** The store primitives the route handlers issue: the `$push` and `$pull`
    array operators applied through findByIdAndUpdate, the `$unset` of
    updateMany, and the filter that populating the occupants applies. */
module Updates {
  import opened Schemas

  /** No id occurs twice. */
  predicate Distinct(s: seq<Id>) {
    forall i, j :: 0 <= i < j < |s| ==> s[i] != s[j]
  }

  /** `$pull`: removes every occurrence of `x` and keeps everything else. */
  function Pull(s: seq<Id>, x: Id): (r: seq<Id>)
    ensures forall y :: y in r <==> y in s && y != x
    ensures |r| <= |s|
    ensures x !in s ==> r == s
  {
    if s == [] then []
    else (if s[0] == x then [] else [s[0]]) + Pull(s[1..], x)
  }

  lemma DistinctTail(s: seq<Id>)
    requires Distinct(s) && s != []
    ensures Distinct(s[1..]) && s[0] !in s[1..]
  {
    var rest := s[1..];
    forall i, j | 0 <= i < j < |rest| ensures rest[i] != rest[j] {
      assert rest[i] == s[i + 1] && rest[j] == s[j + 1];
    }
    forall j | 0 <= j < |rest| ensures rest[j] != s[0] {
      assert rest[j] == s[j + 1];
    }
  }

  lemma DistinctCons(x: Id, p: seq<Id>)
    requires Distinct(p) && x !in p
    ensures Distinct([x] + p)
  {
    var r := [x] + p;
    forall i, j | 0 <= i < j < |r| ensures r[i] != r[j] {
      if i == 0 { assert r[j] == p[j - 1] && r[j] in p; }
      else { assert r[i] == p[i - 1] && r[j] == p[j - 1]; }
    }
  }

  /** `$pull` removes every occurrence of `x` and keeps every other id as
      many times as it occurred. */
  lemma {:induction false} PullCounts(s: seq<Id>, x: Id)
    ensures multiset(Pull(s, x)) == multiset(s)[x := 0]
  {
    if s != [] {
      PullCounts(s[1..], x);
      assert s == [s[0]] + s[1..];
      ClearAfterAdd(s[0], multiset(s[1..]), x);
      if s[0] == x {
        assert Pull(s, x) == Pull(s[1..], x);
      } else {
        assert Pull(s, x) == [s[0]] + Pull(s[1..], x);
      }
    }
  }

  lemma ClearAfterAdd(a: Id, m: multiset<Id>, x: Id)
    ensures (multiset{a} + m)[x := 0] == if a == x then m[x := 0] else multiset{a} + m[x := 0]
  {
  }

  /** Pulling from a list without duplicates keeps it without duplicates
      and, when `x` was there, shortens it by exactly one. */
  lemma {:induction false} PullDistinct(s: seq<Id>, x: Id)
    requires Distinct(s)
    ensures Distinct(Pull(s, x))
    ensures x in s ==> |Pull(s, x)| == |s| - 1
  {
    if s != [] {
      DistinctTail(s);
      PullDistinct(s[1..], x);
      if s[0] != x {
        DistinctCons(s[0], Pull(s[1..], x));
        assert x in s ==> x in s[1..];
      } else {
        assert Pull(s, x) == Pull(s[1..], x) == s[1..];
      }
    }
  }

  /** `$push`: appends `x` at the end. */
  function Push(s: seq<Id>, x: Id): (r: seq<Id>)
    ensures |r| == |s| + 1 && r[..|s|] == s && r[|s|] == x
  {
    s + [x]
  }

  /** A list without duplicates stays without duplicates when an id it does
      not hold is pushed. */
  lemma PushDistinct(s: seq<Id>, x: Id)
    requires Distinct(s) && x !in s
    ensures Distinct(Push(s, x))
  {
    var r := Push(s, x);
    forall i, j | 0 <= i < j < |r| ensures r[i] != r[j] {
      if j == |s| { assert r[i] == s[i]; }
      else { assert r[i] == s[i] && r[j] == s[j]; }
    }
  }

  /** Populating the occupants: the ids for which a student document exists,
      in order. */
  function Populated(s: seq<Id>, students: map<Id, Student>): (r: seq<Id>)
    ensures forall y :: y in r <==> y in s && y in students
    ensures |r| <= |s|
    ensures (forall y :: y in s ==> y in students) ==> r == s
  {
    if s == [] then []
    else (if s[0] in students then [s[0]] else []) + Populated(s[1..], students)
  }

  /** The `$pull` of `x` from the occupants of room `r`: no effect when
      there is no room `r`. */
  function PullFrom(rooms: map<Id, Room>, r: Id, x: Id): map<Id, Room> {
    if r in rooms then rooms[r := rooms[r].(occupants := Pull(rooms[r].occupants, x))] else rooms
  }

  /** The `$push` of `x` onto the occupants of room `r`: no effect when
      there is no room `r`. */
  function PushTo(rooms: map<Id, Room>, r: Id, x: Id): map<Id, Room> {
    if r in rooms then rooms[r := rooms[r].(occupants := Push(rooms[r].occupants, x))] else rooms
  }

  /** The `$pull` changes the occupants of room `r` and nothing else; no
      room appears or disappears. */
  lemma PullFromTouchesOnly(rooms: map<Id, Room>, r: Id, x: Id)
    ensures PullFrom(rooms, r, x).Keys == rooms.Keys
    ensures forall q :: q in rooms && q != r ==> PullFrom(rooms, r, x)[q] == rooms[q]
    ensures r in rooms ==> PullFrom(rooms, r, x)[r] == rooms[r].(occupants := Pull(rooms[r].occupants, x))
  {
  }

  /** The `$push` changes the occupants of room `r` and nothing else; no
      room appears or disappears. */
  lemma PushToTouchesOnly(rooms: map<Id, Room>, r: Id, x: Id)
    ensures PushTo(rooms, r, x).Keys == rooms.Keys
    ensures forall q :: q in rooms && q != r ==> PushTo(rooms, r, x)[q] == rooms[q]
    ensures r in rooms ==> PushTo(rooms, r, x)[r] == rooms[r].(occupants := Push(rooms[r].occupants, x))
  {
  }

  /** The `$unset` of `room` on every student whose room is `r`: every student
      that references `r` no longer references any room; no other student
      changes. */
  function UnsetRoom(students: map<Id, Student>, r: Id): (m: map<Id, Student>)
    ensures m.Keys == students.Keys
    ensures forall s :: s in m ==> m[s].room != Some(r)
    ensures forall s :: s in m && students[s].room == Some(r) ==> m[s].room == None
    ensures forall s :: s in m && students[s].room != Some(r) ==> m[s] == students[s]
    ensures forall s :: s in m ==> m[s] == students[s].(room := m[s].room)
  {
    map s | s in students :: if students[s].room == Some(r) then students[s].(room := None) else students[s]
  }
}
