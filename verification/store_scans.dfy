/** The linear scans the services run over the catalog and the store: the
    existence tests, the search for an identifier, the filter by room and the
    removal of one entry, each specialised to the test the source applies. */
module StoreScans {
  import opened TimeUtils
  import opened InMemoryDb

  /** `xs` is `ys` with some elements dropped and the rest in their original order. */
  ghost predicate IsSubsequence<T>(xs: seq<T>, ys: seq<T>)
    decreases |ys|
  {
    if xs == [] then true
    else if ys == [] then false
    else (xs[0] == ys[0] && IsSubsequence(xs[1..], ys[1..])) || IsSubsequence(xs, ys[1..])
  }

  lemma {:induction false} SubsequenceReflexive<T>(xs: seq<T>)
    ensures IsSubsequence(xs, xs)
    decreases |xs|
  {
    if xs != [] {
      SubsequenceReflexive(xs[1..]);
    }
  }

  /** Whether some room in `rooms` carries exactly the name `name`. */
  function RoomNamed(rooms: seq<Room>, name: string): (found: bool)
    ensures found <==> exists i :: 0 <= i < |rooms| && rooms[i].name == name
    decreases |rooms|
  {
    if rooms == [] then false
    else if rooms[0].name == name then true
    else
      var rest := RoomNamed(rooms[1..], name);
      assert forall i :: 1 <= i < |rooms| ==> rooms[i] == rooms[1..][i - 1];
      rest
  }

  /** The existing reservation `r` is on `room` and the overlap test holds
      between the proposal and `r`, in either order. */
  function Conflicts(r: Reservation, room: string, start: int, end: int): (conflict: bool)
    ensures conflict <==> r.room == room && IsOverlapping(r.startTime, r.endTime, start, end)
  {
    r.room == room && IsOverlapping(start, end, r.startTime, r.endTime)
  }

  /** Whether some stored reservation conflicts with the proposal on `room`
      over [start, end). */
  function AnyConflict(rs: seq<Reservation>, room: string, start: int, end: int): (found: bool)
    ensures found <==> exists k :: 0 <= k < |rs| && Conflicts(rs[k], room, start, end)
    decreases |rs|
  {
    if rs == [] then false
    else if Conflicts(rs[0], room, start, end) then true
    else
      var rest := AnyConflict(rs[1..], room, start, end);
      assert forall k :: 1 <= k < |rs| ==> rs[k] == rs[1..][k - 1];
      rest
  }

  /** The first position holding `id`, or -1 when there is none. */
  function FindIndex(rs: seq<Reservation>, id: int): (index: int)
    ensures -1 <= index < |rs|
    ensures index == -1 <==> forall k :: 0 <= k < |rs| ==> rs[k].id != id
    ensures index != -1 ==> rs[index].id == id && forall k :: 0 <= k < index ==> rs[k].id != id
    decreases |rs|
  {
    if rs == [] then -1
    else if rs[0].id == id then 0
    else
      var rest := FindIndex(rs[1..], id);
      assert forall k :: 1 <= k < |rs| ==> rs[k] == rs[1..][k - 1];
      if rest == -1 then -1 else rest + 1
  }

  /** The reservations on `room`, each as often as it is stored. */
  function ReservationsOf(rs: seq<Reservation>, room: string): (out: seq<Reservation>)
    ensures |out| <= |rs|
    ensures forall k :: 0 <= k < |out| ==> out[k].room == room
    ensures forall r :: multiset(out)[r] == if r.room == room then multiset(rs)[r] else 0
    decreases |rs|
  {
    if rs == [] then []
    else
      var rest := ReservationsOf(rs[1..], room);
      assert rs == [rs[0]] + rs[1..];
      if rs[0].room == room then [rs[0]] + rest else rest
  }

  /** The filter keeps store order. */
  lemma {:induction false} ReservationsOfIsSubsequence(rs: seq<Reservation>, room: string)
    ensures IsSubsequence(ReservationsOf(rs, room), rs)
    decreases |rs|
  {
    if rs != [] {
      ReservationsOfIsSubsequence(rs[1..], room);
      var rest := ReservationsOf(rs[1..], room);
      if rs[0].room == room {
        assert ([rs[0]] + rest)[1..] == rest;
      }
    }
  }

  /** The filter comes back empty exactly when no stored reservation is on `room`. */
  lemma ReservationsOfEmpty(rs: seq<Reservation>, room: string)
    ensures ReservationsOf(rs, room) == [] <==> forall k :: 0 <= k < |rs| ==> rs[k].room != room
  {
    var out := ReservationsOf(rs, room);
    if out != [] {
      assert multiset(rs)[out[0]] > 0;
      assert out[0] in rs;
    }
    if k :| 0 <= k < |rs| && rs[k].room == room {
      assert multiset(out)[rs[k]] > 0;
    }
  }

  /** The filter distributes over concatenation of stores. */
  lemma {:induction false} ReservationsOfAppend(a: seq<Reservation>, b: seq<Reservation>, room: string)
    ensures ReservationsOf(a + b, room) == ReservationsOf(a, room) + ReservationsOf(b, room)
    decreases |a|
  {
    if a == [] {
      assert a + b == b;
    } else {
      assert (a + b)[1..] == a[1..] + b;
      ReservationsOfAppend(a[1..], b, room);
    }
  }

  /** The store without its `index`-th entry, as removing one element in place leaves it. */
  function Splice(rs: seq<Reservation>, index: int): (out: seq<Reservation>)
    requires 0 <= index < |rs|
    ensures |out| == |rs| - 1
    ensures forall k :: 0 <= k < index ==> out[k] == rs[k]
    ensures forall k :: index <= k < |out| ==> out[k] == rs[k + 1]
    ensures multiset(out) == multiset(rs) - multiset{rs[index]}
  {
    assert rs == rs[..index] + [rs[index]] + rs[index + 1..];
    rs[..index] + rs[index + 1..]
  }

  /** Dropping one element keeps the others in their order. */
  lemma {:induction false} DropOneIsSubsequence<T>(xs: seq<T>, i: int)
    requires 0 <= i < |xs|
    ensures IsSubsequence(xs[..i] + xs[i + 1..], xs)
    decreases i
  {
    var out := xs[..i] + xs[i + 1..];
    if i == 0 {
      assert out == xs[1..];
      SubsequenceReflexive(xs[1..]);
    } else {
      DropOneIsSubsequence(xs[1..], i - 1);
      assert out[0] == xs[0];
      assert out[1..] == xs[1..][..i - 1] + xs[1..][i..];
    }
  }

  /** Removing one entry keeps the others in their order. */
  lemma SpliceIsSubsequence(rs: seq<Reservation>, index: int)
    requires 0 <= index < |rs|
    ensures IsSubsequence(Splice(rs, index), rs)
  {
    DropOneIsSubsequence(rs, index);
  }

  /** Position `i` is the first in `rs` holding `id`. */
  predicate FirstWithId(rs: seq<Reservation>, id: int, i: int)
  {
    0 <= i < |rs| && rs[i].id == id && forall k :: 0 <= k < i ==> rs[k].id != id
  }

  /** `out` is `rs` without the first entry holding `id`. */
  ghost predicate RemovesFirst(rs: seq<Reservation>, id: int, out: seq<Reservation>)
  {
    exists i :: FirstWithId(rs, id, i) && out == Splice(rs, i)
  }

  /** Removing the entry at the position `FindIndex` reports removes the first entry
      holding `id` and keeps the rest in order. */
  lemma SpliceAtFoundIndex(rs: seq<Reservation>, id: int)
    requires FindIndex(rs, id) != -1
    ensures RemovesFirst(rs, id, Splice(rs, FindIndex(rs, id)))
    ensures IsSubsequence(Splice(rs, FindIndex(rs, id)), rs)
  {
    var index := FindIndex(rs, id);
    assert FirstWithId(rs, id, index);
    SpliceIsSubsequence(rs, index);
  }
}
