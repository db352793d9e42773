/** The earlier service of backend/services/reservationService.js: the same
    creation pipeline without the catalog and office-hours checks, the same
    delete, and a listing that does not validate the room. */
module LegacyReservationService {
  import opened Wrappers
  import opened InMemoryDb
  import opened Errors
  import opened StoreScans
  import opened Admission
  import DeleteReservationService

  /** Four checks in a fixed order: missing field, start in the past, start
      not before end, overlap on the same room. */
  function CreateReservation(st: Store, req: Request, now: int): (r: Step<Reservation>)
    ensures r.result.Success? <==> Admissible(Legacy, st, req, now)
    ensures r.result.Failure? ==> FirstViolation(Legacy, st, req, now, r.result.error)
    ensures r.result.Failure? ==> r.store == st
    ensures r.result.Success? ==>
      && !Missing(req)
      && r.result.value == Reservation(st.nextId, req.room.value, req.startTime.value, req.endTime.value)
      && r.store.nextId == st.nextId + 1
      && r.store.reservations == st.reservations + [r.result.value]
  {
    if Missing(req) then
      assert Violates(st, req, now, MissingFields);
      Step(st, Failure(MissingFields))
    else
      var room, start, end := req.room.value, req.startTime.value, req.endTime.value;
      if start < now then
        assert Violates(st, req, now, StartInPast);
        Step(st, Failure(StartInPast))
      else if start >= end then
        assert Violates(st, req, now, StartNotBeforeEnd);
        Step(st, Failure(StartNotBeforeEnd))
      else if AnyConflict(st.reservations, room, start, end) then
        assert Violates(st, req, now, SlotTaken);
        Step(st, Failure(SlotTaken))
      else
        Admit(st, room, start, end)
  }

  /** The same find-and-splice as the stand-alone delete service. */
  function DeleteReservation(st: Store, id: int): (r: Step<()>)
    ensures r.result.Failure? <==> forall k :: 0 <= k < |st.reservations| ==> st.reservations[k].id != id
    ensures r.result.Failure? ==> r.result.error == NotFound && r.store == st
    ensures r.store.nextId == st.nextId
    ensures r.result.Success? ==>
      && |r.store.reservations| == |st.reservations| - 1
      && IsSubsequence(r.store.reservations, st.reservations)
      && RemovesFirst(st.reservations, id, r.store.reservations)
  {
    DeleteReservationService.DeleteReservation(st, id)
  }

  /** Never fails: the reservations whose room equals `room`, in store order,
      whatever `room` is. */
  function GetReservationsByRoom(st: Store, room: string): (out: seq<Reservation>)
    ensures |out| <= |st.reservations|
    ensures forall k :: 0 <= k < |out| ==> out[k].room == room
    ensures forall x: Reservation :: x.room == room ==> multiset(out)[x] == multiset(st.reservations)[x]
    ensures IsSubsequence(out, st.reservations)
    ensures (forall k :: 0 <= k < |st.reservations| ==> st.reservations[k].room != room) ==> out == []
  {
    ReservationsOfIsSubsequence(st.reservations, room);
    ReservationsOfEmpty(st.reservations, room);
    ReservationsOf(st.reservations, room)
  }
}
