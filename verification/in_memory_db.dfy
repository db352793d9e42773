/** The seeded room catalog and the reservation store. */
module InMemoryDb {

  /** A meeting room of the static catalog. */
  datatype Room = Room(id: int, name: string)

  /** A stored booking of `room` over [startTime, endTime). */
  datatype Reservation = Reservation(id: int, room: string, startTime: int, endTime: int)

  /** The reservations in insertion order and the next identifier to hand out. */
  datatype Store = Store(reservations: seq<Reservation>, nextId: int)

  /** The three rooms seeded at start-up. */
  const Rooms: seq<Room> := [
    Room(1, "Kokoustila A"),
    Room(2, "Kokoustila B"),
    Room(3, "Kokoustila C")
  ]

  /** The store at start-up: no reservations, identifiers start at 1. */
  const InitialStore: Store := Store([], 1)

  /** The catalog holds the three named rooms with identifiers 1, 2 and 3. */
  lemma CatalogContents()
    ensures |Rooms| == 3
    ensures forall i :: 0 <= i < |Rooms| ==> Rooms[i].id == i + 1
    ensures (set i | 0 <= i < |Rooms| :: Rooms[i].name)
            == {"Kokoustila A", "Kokoustila B", "Kokoustila C"}
  {
    var names := set i | 0 <= i < |Rooms| :: Rooms[i].name;
    assert Rooms[0].name in names && Rooms[1].name in names && Rooms[2].name in names;
  }

  /** No two catalog entries share a name. */
  lemma CatalogNamesDistinct()
    ensures forall i, j :: 0 <= i < j < |Rooms| ==> Rooms[i].name != Rooms[j].name
  {
    assert Rooms[0].name != Rooms[1].name by { assert Rooms[0].name[11] != Rooms[1].name[11]; }
    assert Rooms[0].name != Rooms[2].name by { assert Rooms[0].name[11] != Rooms[2].name[11]; }
    assert Rooms[1].name != Rooms[2].name by { assert Rooms[1].name[11] != Rooms[2].name[11]; }
  }

  /** The store starts empty with the counter at 1. */
  lemma InitialStoreEmpty()
    ensures |InitialStore.reservations| == 0 && InitialStore.nextId == 1
  {
  }
}
