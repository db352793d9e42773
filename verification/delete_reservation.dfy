/** `deleteReservation` of backend/services/deleteReservation.js. */
module DeleteReservationService {
  import opened Wrappers
  import opened InMemoryDb
  import opened Errors
  import opened StoreScans

  /** Removes the first reservation carrying `id`, or fails with `NotFound`
      when none does. The identifier counter is never touched. */
  function DeleteReservation(st: Store, id: int): (r: Step<()>)
    ensures r.result.Failure? <==> forall k :: 0 <= k < |st.reservations| ==> st.reservations[k].id != id
    ensures r.result.Failure? ==> r.result.error == NotFound && r.store == st
    ensures r.store.nextId == st.nextId
    ensures r.result.Success? ==>
      && |r.store.reservations| == |st.reservations| - 1
      && IsSubsequence(r.store.reservations, st.reservations)
      && RemovesFirst(st.reservations, id, r.store.reservations)
  {
    var index := FindIndex(st.reservations, id);
    if index == -1 then
      Step(st, Failure(NotFound))
    else
      SpliceAtFoundIndex(st.reservations, id);
      Step(Store(Splice(st.reservations, index), st.nextId), Success(()))
  }
}
