/** How the full service of backend/services/createReservation.js and
    getReservationsByRoom.js differs from the earlier variant of
    backend/services/reservationService.js. */
module VariantComparison {
  import opened Wrappers
  import opened TimeUtils
  import opened InMemoryDb
  import opened Errors
  import opened StoreScans
  import opened RoomValidation
  import opened Admission
  import Full = CreateReservationService
  import FullList = GetReservationsByRoomService
  import Legacy = LegacyReservationService
  import opened StoreInvariants

  /** The full pipeline is stricter: whatever it admits, the earlier one
      admits too, with the same identifier and the same resulting store. */
  lemma FullAdmitsOnlyWhatLegacyAdmits(st: Store, req: Request, now: int)
    requires Full.CreateReservation(st, req, now).result.Success?
    ensures Legacy.CreateReservation(st, req, now) == Full.CreateReservation(st, req, now)
  {
    assert Admissible(Full, st, req, now);
    forall e | Rank(Variant.Legacy, e) < Checked(Variant.Legacy)
      ensures !Violates(st, req, now, e)
    {
      assert Rank(Variant.Full, e) < Checked(Variant.Full);
    }
  }

  /** Whenever the earlier variant rejects a request, the full one rejects it
      too, with the same error or one its pipeline checks earlier. */
  lemma LegacyRejectionIsFullRejection(st: Store, req: Request, now: int)
    requires Legacy.CreateReservation(st, req, now).result.Failure?
    ensures var full := Full.CreateReservation(st, req, now);
            var e := Legacy.CreateReservation(st, req, now).result.error;
            full.result.Failure? && Rank(Variant.Full, full.result.error) <= Rank(Variant.Full, e)
  {
    var e := Legacy.CreateReservation(st, req, now).result.error;
    assert Violates(st, req, now, e) && Rank(Variant.Full, e) < Checked(Variant.Full);
  }

  /** For a catalog room inside office hours the two pipelines are the same function. */
  lemma VariantsAgreeOnCatalogRoomsInOfficeHours(st: Store, req: Request, now: int)
    requires !Missing(req)
    requires req.room.value in CatalogNames
    requires WithinOfficeHours(req.startTime.value, req.endTime.value)
    ensures Legacy.CreateReservation(st, req, now) == Full.CreateReservation(st, req, now)
  {
    var full := Full.CreateReservation(st, req, now);
    var legacy := Legacy.CreateReservation(st, req, now);
    assert !Violates(st, req, now, InvalidRoom) && !Violates(st, req, now, OutsideBusinessHours);
    if full.result.Success? {
      FullAdmitsOnlyWhatLegacyAdmits(st, req, now);
    } else {
      var e := full.result.error;
      assert Rank(Variant.Legacy, e) < Checked(Variant.Legacy);
      if legacy.result.Failure? {
        var e' := legacy.result.error;
        assert Rank(Variant.Full, e') < Checked(Variant.Full);
        assert e == e';
      }
    }
  }

  /** On a catalog room the two listings agree; on any other room the full
      service fails with `InvalidRoom`, while the earlier one returns the
      reservations it holds for that name, which is none when every stored
      reservation names a catalog room. */
  lemma ListingsCompared(st: Store, room: string)
    ensures room in CatalogNames ==>
      FullList.GetReservationsByRoom(st, room) == Success(Legacy.GetReservationsByRoom(st, room))
    ensures room !in CatalogNames ==>
      && FullList.GetReservationsByRoom(st, room) == Failure(InvalidRoom)
      && (Cataloged(st) ==> Legacy.GetReservationsByRoom(st, room) == [])
  {
  }

  /** The earlier variant admits a room outside the catalog, which the full
      one rejects, and its listing then shows that room's reservation. */
  lemma LegacyAdmitsUnknownRoom()
    ensures var req := Request(Some("Huone X"), Some(9 * MsPerHour), Some(10 * MsPerHour));
            var legacy := Legacy.CreateReservation(InitialStore, req, 0);
            && Full.CreateReservation(InitialStore, req, 0).result == Failure(InvalidRoom)
            && legacy.result == Success(Reservation(1, "Huone X", 9 * MsPerHour, 10 * MsPerHour))
            && Legacy.GetReservationsByRoom(legacy.store, "Huone X") == [legacy.result.value]
            && !Cataloged(legacy.store)
  {
    var req := Request(Some("Huone X"), Some(9 * MsPerHour), Some(10 * MsPerHour));
    assert "Huone X" !in CatalogNames by {
      assert |"Huone X"| == 7;
    }
    var legacy := Legacy.CreateReservation(InitialStore, req, 0);
    assert !AnyConflict([], "Huone X", 9 * MsPerHour, 10 * MsPerHour);
    assert legacy.store.reservations == [legacy.result.value];
  }
}
