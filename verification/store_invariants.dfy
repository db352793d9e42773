/** Invariants of the store that every successful or failed service call
    keeps, and what the listing shows after a create or a delete. */
module StoreInvariants {
  import opened TimeUtils
  import opened InMemoryDb
  import opened Errors
  import opened StoreScans
  import opened RoomValidation
  import opened Admission
  import CreateReservationService
  import DeleteReservationService
  import GetReservationsByRoomService
  import LegacyReservationService

  /** No two reservations on the same room overlap. */
  ghost predicate NoSameRoomOverlap(rs: seq<Reservation>)
  {
    forall i, j :: 0 <= i < j < |rs| && rs[i].room == rs[j].room ==>
      !IsOverlapping(rs[i].startTime, rs[i].endTime, rs[j].startTime, rs[j].endTime)
  }

  /** The state every sequence of service calls from the initial store keeps:
      identifiers are positive, below the counter and increasing in store
      order (hence unique); every interval is non-empty; no same-room overlap. */
  ghost predicate Valid(st: Store)
  {
    && st.nextId >= 1
    && (forall k :: 0 <= k < |st.reservations| ==>
          1 <= st.reservations[k].id < st.nextId
          && st.reservations[k].startTime < st.reservations[k].endTime)
    && (forall i, j :: 0 <= i < j < |st.reservations| ==> st.reservations[i].id < st.reservations[j].id)
    && NoSameRoomOverlap(st.reservations)
  }

  /** Every stored reservation names a catalog room and lies within office
      hours; the full create service keeps this, the earlier variant does not. */
  ghost predicate Cataloged(st: Store)
  {
    forall k :: 0 <= k < |st.reservations| ==>
      st.reservations[k].room in CatalogNames
      && WithinOfficeHours(st.reservations[k].startTime, st.reservations[k].endTime)
  }

  lemma InitialStoreValid()
    ensures Valid(InitialStore) && Cataloged(InitialStore)
  {
  }

  /** Appending a fresh, non-empty, conflict-free reservation keeps `Valid`. */
  lemma AppendKeepsValid(st: Store, res: Reservation)
    requires Valid(st)
    requires res.id == st.nextId && res.startTime < res.endTime
    requires forall k :: 0 <= k < |st.reservations| ==> !Conflicts(st.reservations[k], res.room, res.startTime, res.endTime)
    ensures Valid(Store(st.reservations + [res], st.nextId + 1))
  {
    var rs := st.reservations;
    var rs' := rs + [res];
    forall i, j | 0 <= i < j < |rs'| && rs'[i].room == rs'[j].room
      ensures !IsOverlapping(rs'[i].startTime, rs'[i].endTime, rs'[j].startTime, rs'[j].endTime)
    {
      if j == |rs| {
        assert !Conflicts(rs[i], res.room, res.startTime, res.endTime);
        OverlapSymmetric(rs[i].startTime, rs[i].endTime, res.startTime, res.endTime);
      } else {
        assert rs'[i] == rs[i] && rs'[j] == rs[j];
      }
    }
  }

  /** Every call of the full create service keeps `Valid` and `Cataloged`,
      and a new identifier differs from every stored one. */
  lemma CreateKeepsInvariants(st: Store, req: Request, now: int)
    requires Valid(st)
    ensures Valid(CreateReservationService.CreateReservation(st, req, now).store)
    ensures Cataloged(st) ==> Cataloged(CreateReservationService.CreateReservation(st, req, now).store)
    ensures var r := CreateReservationService.CreateReservation(st, req, now);
            r.result.Success? ==> forall k :: 0 <= k < |st.reservations| ==> st.reservations[k].id != r.result.value.id
  {
    var r := CreateReservationService.CreateReservation(st, req, now);
    if r.result.Success? {
      var res := r.result.value;
      assert !Violates(st, req, now, SlotTaken) && !Violates(st, req, now, StartNotBeforeEnd);
      assert !Violates(st, req, now, InvalidRoom) && !Violates(st, req, now, OutsideBusinessHours);
      AppendKeepsValid(st, res);
    }
  }

  /** Every call of the earlier create service keeps `Valid`. */
  lemma LegacyCreateKeepsValid(st: Store, req: Request, now: int)
    requires Valid(st)
    ensures Valid(LegacyReservationService.CreateReservation(st, req, now).store)
  {
    var r := LegacyReservationService.CreateReservation(st, req, now);
    if r.result.Success? {
      assert !Violates(st, req, now, SlotTaken) && !Violates(st, req, now, StartNotBeforeEnd);
      AppendKeepsValid(st, r.result.value);
    }
  }

  /** Splicing out one entry keeps `Valid` and `Cataloged`, and leaves no
      entry with the removed entry's identifier. */
  lemma SpliceKeepsInvariants(st: Store, i: int)
    requires Valid(st) && 0 <= i < |st.reservations|
    ensures Valid(Store(Splice(st.reservations, i), st.nextId))
    ensures Cataloged(st) ==> Cataloged(Store(Splice(st.reservations, i), st.nextId))
    ensures forall k :: 0 <= k < |st.reservations| - 1 ==> Splice(st.reservations, i)[k].id != st.reservations[i].id
  {
    var rs := st.reservations;
    var rs' := Splice(rs, i);
    forall a, b | 0 <= a < b < |rs'|
      ensures rs'[a].id < rs'[b].id
      ensures rs'[a].room == rs'[b].room ==>
        !IsOverlapping(rs'[a].startTime, rs'[a].endTime, rs'[b].startTime, rs'[b].endTime)
    {
      var a', b' := if a < i then a else a + 1, if b < i then b else b + 1;
      assert rs'[a] == rs[a'] && rs'[b] == rs[b'] && a' < b';
    }
    forall k | 0 <= k < |rs'|
      ensures 1 <= rs'[k].id < st.nextId && rs'[k].startTime < rs'[k].endTime
      ensures Cataloged(st) ==> rs'[k].room in CatalogNames && WithinOfficeHours(rs'[k].startTime, rs'[k].endTime)
      ensures rs'[k].id != rs[i].id
    {
      var k' := if k < i then k else k + 1;
      assert rs'[k] == rs[k'] && k' != i;
    }
  }

  /** Every call of the delete service keeps `Valid` and `Cataloged`, and
      afterwards no reservation carries the deleted identifier. */
  lemma DeleteKeepsInvariants(st: Store, id: int)
    requires Valid(st)
    ensures Valid(DeleteReservationService.DeleteReservation(st, id).store)
    ensures Cataloged(st) ==> Cataloged(DeleteReservationService.DeleteReservation(st, id).store)
    ensures var r := DeleteReservationService.DeleteReservation(st, id);
            forall k :: 0 <= k < |r.store.reservations| ==> r.store.reservations[k].id != id
  {
    var r := DeleteReservationService.DeleteReservation(st, id);
    if r.result.Success? {
      var i :| FirstWithId(st.reservations, id, i) && r.store.reservations == Splice(st.reservations, i);
      SpliceKeepsInvariants(st, i);
    }
  }

  /** The earlier delete service removes the same entry as the stand-alone one. */
  lemma LegacyDeleteKeepsValid(st: Store, id: int)
    requires Valid(st)
    ensures Valid(LegacyReservationService.DeleteReservation(st, id).store)
  {
    DeleteKeepsInvariants(st, id);
  }

  /** After a successful create, listing the new reservation's room shows the
      earlier listing followed by the new reservation, which appears exactly
      once; every other room's listing is unchanged. */
  lemma ListAfterCreate(st: Store, req: Request, now: int, room: string)
    requires Valid(st)
    requires CreateReservationService.CreateReservation(st, req, now).result.Success?
    requires room in CatalogNames
    ensures var r := CreateReservationService.CreateReservation(st, req, now);
            var before := GetReservationsByRoomService.GetReservationsByRoom(st, room);
            var after := GetReservationsByRoomService.GetReservationsByRoom(r.store, room);
            && before.Success? && after.Success?
            && (room == r.result.value.room ==> after.value == before.value + [r.result.value])
            && (room != r.result.value.room ==> after.value == before.value)
            && (room == r.result.value.room ==> multiset(after.value)[r.result.value] == 1)
  {
    var r := CreateReservationService.CreateReservation(st, req, now);
    var res := r.result.value;
    CreateKeepsInvariants(st, req, now);
    assert r.store.reservations == st.reservations + [res];
    assert res !in st.reservations;
    AppendOneListing(st.reservations, res, room);
  }

  /** The filter over a store with one more entry at the end. */
  lemma AppendOneListing(rs: seq<Reservation>, res: Reservation, room: string)
    requires res !in rs
    ensures ReservationsOf(rs + [res], room)
            == if res.room == room then ReservationsOf(rs, room) + [res] else ReservationsOf(rs, room)
    ensures res.room == room ==> multiset(ReservationsOf(rs + [res], room))[res] == 1
  {
    ReservationsOfAppend(rs, [res], room);
    assert [res][1..] == [];
    assert multiset(rs + [res])[res] == multiset(rs)[res] + 1;
  }

  /** After a successful delete, no listing shows the deleted identifier. */
  lemma ListAfterDelete(st: Store, id: int, room: string)
    requires Valid(st)
    requires room in CatalogNames
    ensures var after := GetReservationsByRoomService.GetReservationsByRoom(
              DeleteReservationService.DeleteReservation(st, id).store, room);
            after.Success? && forall k :: 0 <= k < |after.value| ==> after.value[k].id != id
  {
    DeleteKeepsInvariants(st, id);
    var st' := DeleteReservationService.DeleteReservation(st, id).store;
    var out := ReservationsOf(st'.reservations, room);
    forall k | 0 <= k < |out|
      ensures out[k].id != id
    {
      assert out[k] in multiset(out);
    }
  }

  /** An identifier removed by a delete is never handed out again by a later create. */
  lemma DeletedIdNotReissued(st: Store, id: int, req: Request, now: int)
    requires Valid(st)
    requires DeleteReservationService.DeleteReservation(st, id).result.Success?
    ensures var r := CreateReservationService.CreateReservation(
              DeleteReservationService.DeleteReservation(st, id).store, req, now);
            r.result.Success? ==> r.result.value.id > id
  {
  }
}
