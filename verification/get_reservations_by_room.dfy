/** `getReservationsByRoom` of backend/services/getReservationsByRoom.js. */
module GetReservationsByRoomService {
  import opened Wrappers
  import opened InMemoryDb
  import opened Errors
  import opened StoreScans
  import opened RoomValidation

  /** Rejects a room outside the catalog; otherwise returns the reservations
      on that room in store order. Only reads the store. */
  function GetReservationsByRoom(st: Store, room: string): (r: Result<seq<Reservation>, Error>)
    ensures r.Failure? <==> room !in CatalogNames
    ensures r.Failure? ==> r.error == InvalidRoom
    ensures r.Success? ==>
      && |r.value| <= |st.reservations|
      && (forall k :: 0 <= k < |r.value| ==> r.value[k].room == room)
      && (forall x: Reservation :: x.room == room ==> multiset(r.value)[x] == multiset(st.reservations)[x])
      && IsSubsequence(r.value, st.reservations)
  {
    match ValidateRoom(room)
    case Fail(e) => Failure(e)
    case Pass =>
      ReservationsOfIsSubsequence(st.reservations, room);
      Success(ReservationsOf(st.reservations, room))
  }
}
