/** `createReservation` of backend/services/createReservation.js: six checks
    in a fixed order, the first failure wins, and only a request that passes
    them all is appended to the store. */
module CreateReservationService {
  import opened Wrappers
  import opened TimeUtils
  import opened InMemoryDb
  import opened Errors
  import opened StoreScans
  import opened RoomValidation
  import opened Admission

  const OfficeStart: int := 8
  const OfficeEnd: int := 18

  /** The start test as written: the hour is past 8, or it is 8 and the
      minute is at least 0. Since a minute is never negative, it passes
      exactly for an hour of 8 or later, with no upper bound. */
  function StartOk(start: int): (ok: bool)
    ensures ok <==> Hour(start) >= OfficeStart
  {
    Hour(start) > OfficeStart || (Hour(start) == OfficeStart && Minute(start) >= 0)
  }

  /** The end test as written: the hour is before 18, or it is 18 and the
      minute is 0. It passes exactly for a clock reading of 18:00 or earlier,
      to the minute, with no lower bound. */
  function EndOk(end: int): (ok: bool)
    ensures ok <==> ClockMinutes(end) <= OfficeEnd * 60
  {
    Hour(end) < OfficeEnd || (Hour(end) == OfficeEnd && Minute(end) == 0)
  }

  /** The two hour tests are the office-hours policy: the minute test on the
      start is always true, so the start needs only an hour of 8 or later, and
      the end needs a clock reading of 18:00 or earlier. */
  lemma HourChecksMeanOfficeHours(start: int, end: int)
    ensures StartOk(start) <==> Hour(start) >= 8
    ensures StartOk(start) && EndOk(end) <==> WithinOfficeHours(start, end)
  {
  }

  /** The service call, with the clock reading `now` passed in. */
  function CreateReservation(st: Store, req: Request, now: int): (r: Step<Reservation>)
    ensures r.result.Success? <==> Admissible(Full, st, req, now)
    ensures r.result.Failure? ==> FirstViolation(Full, st, req, now, r.result.error)
    ensures r.result.Failure? ==> r.store == st
    ensures r.result.Success? ==>
      && !Missing(req)
      && r.result.value == Reservation(st.nextId, req.room.value, req.startTime.value, req.endTime.value)
      && r.store.nextId == st.nextId + 1
      && r.store.reservations == st.reservations + [r.result.value]
  {
    if Missing(req) then
      assert Violates(st, req, now, MissingFields);
      Step(st, Failure(MissingFields))
    else
      var room, start, end := req.room.value, req.startTime.value, req.endTime.value;
      match ValidateRoom(room)
      case Fail(e) =>
        assert Violates(st, req, now, InvalidRoom);
        Step(st, Failure(e))
      case Pass =>
        if start < now then
          assert Violates(st, req, now, StartInPast);
          Step(st, Failure(StartInPast))
        else if start >= end then
          assert Violates(st, req, now, StartNotBeforeEnd);
          Step(st, Failure(StartNotBeforeEnd))
        else if !StartOk(start) || !EndOk(end) then
          HourChecksMeanOfficeHours(start, end);
          assert Violates(st, req, now, OutsideBusinessHours);
          Step(st, Failure(OutsideBusinessHours))
        else if AnyConflict(st.reservations, room, start, end) then
          assert Violates(st, req, now, SlotTaken);
          Step(st, Failure(SlotTaken))
        else
          HourChecksMeanOfficeHours(start, end);
          Admit(st, room, start, end)
  }
}
