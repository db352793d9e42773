/** What both service variants share: the request shape, the missing-field
    test, the append that admits a booking, and a declarative statement of
    which checks a request fails and in which order the service reports them. */
module Admission {
  import opened Wrappers
  import opened TimeUtils
  import opened InMemoryDb
  import opened Errors
  import opened RoomValidation

  /** The fields of a creation request, parsed. `None` stands for a field
      that is absent or is the empty string; a time is already a timestamp. */
  datatype Request = Request(room: Option<string>, startTime: Option<int>, endTime: Option<int>)

  /** Some field is absent, or the room is the empty name: a request is
      complete exactly when all three fields hold values and the room name
      is non-empty. */
  function Missing(req: Request): (missing: bool)
    ensures !missing <==> req.room.Some? && |req.room.value| > 0 && req.startTime.Some? && req.endTime.Some?
  {
    req.room.None? || req.room.value == "" || req.startTime.None? || req.endTime.None?
  }

  /** Builds the reservation with the next identifier, appends it and advances
      the counter. */
  function Admit(st: Store, room: string, start: int, end: int): (r: Step<Reservation>)
    ensures r.result.Success?
    ensures r.result.value.id == st.nextId
    ensures r.result.value.room == room
    ensures r.result.value.startTime == start && r.result.value.endTime == end
    ensures r.store.nextId == st.nextId + 1
    ensures |r.store.reservations| == |st.reservations| + 1
    ensures r.store.reservations[..|st.reservations|] == st.reservations
    ensures r.store.reservations[|st.reservations|] == r.result.value
  {
    var reservation := Reservation(st.nextId, room, start, end);
    Step(Store(st.reservations + [reservation], st.nextId + 1), Success(reservation))
  }

  /** The local wall-clock time of `t` in whole minutes after midnight. */
  function ClockMinutes(t: int): (m: int)
    ensures 0 <= m < 24 * 60
  {
    Hour(t) * 60 + Minute(t)
  }

  /** The policy the hour check enforces: the start reads 08:00 or later and
      the end reads 18:00 or earlier on their own local clocks; nothing ties
      the two to the same day. */
  predicate WithinOfficeHours(start: int, end: int)
  {
    ClockMinutes(start) >= 8 * 60 && ClockMinutes(end) <= 18 * 60
  }

  /** The request fails the check whose error is `e`, judged on its own. */
  ghost predicate Violates(st: Store, req: Request, now: int, e: Error)
  {
    match e
    case MissingFields => Missing(req)
    case InvalidRoom => !Missing(req) && req.room.value !in CatalogNames
    case StartInPast => !Missing(req) && req.startTime.value < now
    case StartNotBeforeEnd => !Missing(req) && req.endTime.value <= req.startTime.value
    case OutsideBusinessHours => !Missing(req) && !WithinOfficeHours(req.startTime.value, req.endTime.value)
    case SlotTaken =>
      && !Missing(req)
      && exists k :: 0 <= k < |st.reservations|
           && st.reservations[k].room == req.room.value
           && IsOverlapping(req.startTime.value, req.endTime.value,
                            st.reservations[k].startTime, st.reservations[k].endTime)
    case NotFound => false
  }

  /** The two implementations of the creation service. */
  datatype Variant =
    | Full     // backend/services/createReservation.js
    | Legacy   // backend/services/reservationService.js and services/reservationService.js

  /** The position of `e`'s check in `v`'s pipeline; `Checked(v)` for a check `v` does not run. */
  function Rank(v: Variant, e: Error): (n: nat)
    ensures n <= Checked(v)
  {
    match v
    case Full =>
      (match e
       case MissingFields => 0
       case InvalidRoom => 1
       case StartInPast => 2
       case StartNotBeforeEnd => 3
       case OutsideBusinessHours => 4
       case SlotTaken => 5
       case NotFound => 6)
    case Legacy =>
      (match e
       case MissingFields => 0
       case StartInPast => 1
       case StartNotBeforeEnd => 2
       case SlotTaken => 3
       case _ => 4)
  }

  /** The number of checks `v` runs. */
  function Checked(v: Variant): (n: nat)
  {
    match v
    case Full => 6
    case Legacy => 4
  }

  /** The request passes every check `v` runs. */
  ghost predicate Admissible(v: Variant, st: Store, req: Request, now: int)
  {
    forall e :: Rank(v, e) < Checked(v) ==> !Violates(st, req, now, e)
  }

  /** `e` is a check `v` runs, the request fails it, and it passes every check `v` runs earlier. */
  ghost predicate FirstViolation(v: Variant, st: Store, req: Request, now: int, e: Error)
  {
    && Rank(v, e) < Checked(v)
    && Violates(st, req, now, e)
    && forall e' :: Rank(v, e') < Rank(v, e) ==> !Violates(st, req, now, e')
  }

  /** At most one error can be the first violation. */
  lemma FirstViolationUnique(v: Variant, st: Store, req: Request, now: int, e1: Error, e2: Error)
    requires FirstViolation(v, st, req, now, e1) && FirstViolation(v, st, req, now, e2)
    ensures e1 == e2
  {
    assert Rank(v, e1) == Rank(v, e2);
  }
}
