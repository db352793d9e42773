/** `validateRoom`: rejects a room name that is not in the catalog. */
module RoomValidation {
  import opened Wrappers
  import opened InMemoryDb
  import opened Errors
  import opened StoreScans

  /** The names of the seeded rooms. */
  const CatalogNames: set<string> := {"Kokoustila A", "Kokoustila B", "Kokoustila C"}

  /** Passes exactly for the three catalog names, compared as exact strings,
      and otherwise fails with `InvalidRoom`. It reads only the catalog, so
      neither the rooms nor the reservations can change. */
  function ValidateRoom(room: string): (o: Outcome<Error>)
    ensures o.Pass? <==> room in CatalogNames
    ensures o.Fail? ==> o.error == InvalidRoom
  {
    CatalogContents();
    assert RoomNamed(Rooms, room) <==> room in (set i | 0 <= i < |Rooms| :: Rooms[i].name);
    if !RoomNamed(Rooms, room) then Fail(InvalidRoom) else Pass
  }

  /** Matching is exact: a different letter case or surrounding blank is rejected. */
  lemma ValidateRoomIsExact()
    ensures ValidateRoom("Kokoustila A").Pass?
    ensures ValidateRoom("kokoustila a") == Fail(InvalidRoom)
    ensures ValidateRoom("Kokoustila A ") == Fail(InvalidRoom)
    ensures ValidateRoom(" Kokoustila A") == Fail(InvalidRoom)
    ensures ValidateRoom("") == Fail(InvalidRoom)
  {
    assert "kokoustila a"[0] != "Kokoustila A"[0];
    assert "kokoustila a"[0] != "Kokoustila B"[0];
    assert "kokoustila a"[0] != "Kokoustila C"[0];
  }
}
