/** Concrete runs of the full service, on local timestamps of 29 January 2026. */
module Scenarios {
  import opened Wrappers
  import opened TimeUtils
  import opened InMemoryDb
  import opened Errors
  import opened Admission
  import opened CreateReservationService
  import opened DeleteReservationService
  import opened GetReservationsByRoomService
  import StoreScans

  /** Local midnight starting 29 January 2026 (day 20482 after 1 January 1970). */
  const Midnight: int := 20482 * MsPerDay
  /** The clock reading of every call below: 09:00. */
  const Now: int := Midnight + 9 * MsPerHour

  /** The local timestamp of `hour:minute` counted from that midnight. */
  function At(hour: int, minute: int): (t: int)
  {
    Midnight + hour * MsPerHour + minute * MsPerMinute
  }

  /** A request with all three fields present. */
  function Book(room: string, start: int, end: int): (req: Request)
  {
    Request(Some(room), Some(start), Some(end))
  }

  /** A booking one to two hours ahead is admitted with identifier 1, and
      the room's listing then shows it. */
  lemma FirstBookingAdmitted()
    ensures var r := CreateReservation(InitialStore, Book("Kokoustila A", At(10, 0), At(11, 0)), Now);
            && r.result == Success(Reservation(1, "Kokoustila A", At(10, 0), At(11, 0)))
            && r.store == Store([r.result.value], 2)
            && GetReservationsByRoom(r.store, "Kokoustila A") == Success([r.result.value])
            && GetReservationsByRoom(r.store, "Kokoustila B") == Success([])
  {
    var x := Reservation(1, "Kokoustila A", At(10, 0), At(11, 0));
    var r := CreateReservation(InitialStore, Book("Kokoustila A", At(10, 0), At(11, 0)), Now);
    assert r.store.reservations == [x];
    assert [x][1..] == [];
    assert StoreScans.ReservationsOf([x], "Kokoustila A") == [x];
  }

  /** The store after booking room C from 10:00 to 11:00. */
  const RoomCBooked: Store := Store([Reservation(1, "Kokoustila C", At(10, 0), At(11, 0))], 2)

  /** The first booking of room C from 10:00 to 11:00 leaves that store. */
  lemma RoomCBookedReached()
    ensures CreateReservation(InitialStore, Book("Kokoustila C", At(10, 0), At(11, 0)), Now).store == RoomCBooked
  {
  }

  /** The same booking again, or one crossing it, is refused as taken. */
  lemma RepeatedBookingRefused()
    ensures CreateReservation(RoomCBooked, Book("Kokoustila C", At(10, 0), At(11, 0)), Now).result == Failure(SlotTaken)
    ensures CreateReservation(RoomCBooked, Book("Kokoustila C", At(10, 30), At(12, 0)), Now).result == Failure(SlotTaken)
  {
  }

  /** A booking that only touches the existing one, or uses another room, is admitted. */
  lemma AdjacentOrOtherRoomAdmitted()
    ensures CreateReservation(RoomCBooked, Book("Kokoustila C", At(11, 0), At(12, 0)), Now).result.Success?
    ensures CreateReservation(RoomCBooked, Book("Kokoustila B", At(10, 0), At(11, 0)), Now).result.Success?
  {
  }

  /** A start before the clock reading is refused; a start equal to it is admitted. */
  lemma PastStartRefused()
    ensures CreateReservation(InitialStore, Book("Kokoustila A", At(8, 0), At(10, 0)), Now).result == Failure(StartInPast)
    ensures CreateReservation(InitialStore, Book("Kokoustila A", Now, At(10, 0)), Now).result.Success?
  {
  }

  /** A reversed or empty interval is refused. */
  lemma ReversedIntervalRefused()
    ensures CreateReservation(InitialStore, Book("Kokoustila A", At(10, 0), At(8, 0)), Now).result == Failure(StartNotBeforeEnd)
    ensures CreateReservation(InitialStore, Book("Kokoustila A", At(11, 0), At(10, 0)), Now).result == Failure(StartNotBeforeEnd)
    ensures CreateReservation(InitialStore, Book("Kokoustila A", At(11, 0), At(11, 0)), Now).result == Failure(StartNotBeforeEnd)
  {
  }

  /** An end at 18:30 is refused; an end at 18:00 is admitted. */
  lemma LateEndRefused()
    ensures CreateReservation(InitialStore, Book("Kokoustila A", At(17, 0), At(18, 30)), Now).result == Failure(OutsideBusinessHours)
    ensures CreateReservation(InitialStore, Book("Kokoustila A", At(17, 0), At(18, 0)), Now).result.Success?
  {
    assert !EndOk(At(18, 30)) && EndOk(At(18, 0));
  }

  /** A room outside the catalog is refused. */
  lemma UnknownRoomRefused()
    ensures CreateReservation(InitialStore, Book("Unknown Room", At(10, 0), At(11, 0)), Now).result == Failure(InvalidRoom)
  {
    assert "Unknown Room" !in RoomValidation.CatalogNames by {
      assert "Unknown Room"[0] != "Kokoustila A"[0];
    }
  }

  /** An absent time or an empty room name is refused ahead of every other check. */
  lemma MissingFieldRefused()
    ensures CreateReservation(InitialStore, Request(Some("Unknown Room"), None, Some(At(8, 0))), Now).result == Failure(MissingFields)
    ensures CreateReservation(InitialStore, Book("", At(10, 0), At(11, 0)), Now).result == Failure(MissingFields)
  {
  }

  /** The hour checks read each clock on its own: a booking from 20:00 to
      07:00 the next morning is admitted, as is an end at 18:00:30 (its
      minute is 0), while a start at 07:59 or an end at 18:01 is refused. */
  lemma OfficeHoursAsWritten()
    ensures CreateReservation(InitialStore, Book("Kokoustila A", At(20, 0), At(31, 0)), Now).result.Success?
    ensures CreateReservation(InitialStore, Book("Kokoustila A", At(17, 0), At(18, 0) + 30_000), Now).result.Success?
    ensures CreateReservation(InitialStore, Book("Kokoustila A", At(31, 59), At(33, 0)), Now).result == Failure(OutsideBusinessHours)
    ensures CreateReservation(InitialStore, Book("Kokoustila A", At(17, 0), At(18, 1)), Now).result == Failure(OutsideBusinessHours)
  {
    assert StartOk(At(20, 0)) && EndOk(At(31, 0));
    assert EndOk(At(18, 0) + 30_000);
    assert !StartOk(At(31, 59));
    assert !EndOk(At(18, 1));
  }

  /** Deleting an unknown identifier fails and changes nothing; deleting the
      booking just made empties its room's listing. */
  lemma DeleteScenarios()
    ensures var st := CreateReservation(InitialStore, Book("Kokoustila A", At(10, 0), At(11, 0)), Now).store;
            && DeleteReservation(st, 9999) == Step(st, Failure(NotFound))
            && DeleteReservation(st, 1).result.Success?
            && DeleteReservation(st, 1).store == Store([], 2)
            && GetReservationsByRoom(DeleteReservation(st, 1).store, "Kokoustila A") == Success([])
  {
  }
}
