# Meeting-room reservations: admission logic in Dafny

This project models the reservation core of a small meeting-room booking API.
The API has three operations:

- **create** admits a booking of a named room over a time interval;
- **delete** cancels a booking by identifier;
- **list** returns the bookings of one room.

Creation runs six checks in a fixed order, and the first failure wins:

1. a field is missing;
2. the room is not in the catalog;
3. the start is in the past;
4. the start is not before the end;
5. the booking is outside office hours;
6. the interval overlaps a booking of the same room.

Only a request that passes all six is given the next identifier and appended to the store.
An earlier version of the same service exists twice in the repository: once under
`backend/services/reservationService.js` and once at the root under `services/reservationService.js`.
It skips the catalog and office-hours checks, and its listing never rejects a room. Both
versions are modelled side by side, and lemmas state how they differ.

The model is functional:

- the store is an immutable `Store(reservations, nextId)`;
- every mutating operation returns a `Step(store, result)`, that is, the store after the call
  together with the value returned or the `Error` thrown;
- `Errors.Message` gives the exact message text of each `Error`.

A timestamp is an `int`: milliseconds on the local wall clock. `Hour` and `Minute` derive the
local hour and minute the way `getHours` and `getMinutes` do. The current time `now` is a
parameter.

Modules:

- `TimeUtils`: the overlap predicate.
- `InMemoryDb`: the catalog and the store.
- `StoreScans`: the array scans `some`, `findIndex`, `filter` and `splice`.
- `RoomValidation`: the room check.
- `Admission`: the shared request type, the append step, and a declarative statement of which
  check a request fails.
- `CreateReservationService`, `DeleteReservationService`, `GetReservationsByRoomService`: the
  full service.
- `LegacyReservationService`, `RootReservationService`: the two copies of the earlier service.
- `StoreInvariants`: the invariants every call keeps.
- `VariantComparison`: how the two services differ.
- `Scenarios`: concrete runs.

The creation contracts are stated against an independent specification:

- `Admission.Violates(st, req, now, e)` says, for each error on its own, whether the request
  fails that check;
- `Rank` orders the checks of each variant.

`CreateReservation` then promises three things:

- it succeeds exactly when no check it runs is violated;
- when it fails, it reports the earliest violated check;
- the store is unchanged on every failure.

Where the code and its own comments disagree, the model follows the code.

- **Office hours.** The comments describe an 08:00–18:00 window for both ends. In the code,
  the minute test on the start is always true, so the start needs only a local hour of 8 or
  later. The end needs only a clock reading of 18:00 or earlier, to the minute. So an 18:00:30
  end passes. A booking from 20:00 to 07:00 the next morning passes too (`Scenarios.OfficeHoursAsWritten`).
- **Overlap.** `isOverlapping` does not treat an empty or inverted interval as empty. One that
  lies inside another interval counts as overlapping it (`TimeUtils.EmptyIntervalCanOverlap`).
  The services never reach this case, because they reject `start >= end` before the overlap
  scan, and every stored interval is non-empty (`StoreInvariants.Valid`).
- **Listing an unknown room.** The full listing rejects it. The earlier listing returns that
  room's bookings, which can be non-empty, because the earlier create admits any room name
  (`VariantComparison.LegacyAdmitsUnknownRoom`).

## Model

| member | source | states |
|---|---|---|
| TimeUtils.OverlapMeansCommonInstant | backend/utils/timeUtils.js:2-4 | for two non-empty intervals, `isOverlapping` holds exactly when some instant lies in both half-open intervals |
| TimeUtils.OverlapSymmetric | backend/utils/timeUtils.js:3 | swapping the two intervals gives the same answer |
| TimeUtils.TouchingIntervalsDisjoint | backend/utils/timeUtils.js:3 | intervals that only share an endpoint do not overlap, in either order |
| TimeUtils.SeparatedIntervalsDisjoint | backend/utils/timeUtils.js:3 | if one interval ends no later than the other starts, they do not overlap |
| TimeUtils.CrossingIntervalsOverlap | backend/utils/timeUtils.js:3 | crossing intervals `sA < sB < eA < eB` overlap |
| TimeUtils.NestedIntervalsOverlap | backend/utils/timeUtils.js:3 | a non-empty interval nested in another overlaps it |
| TimeUtils.SelfOverlap | backend/utils/timeUtils.js:3 | an interval overlaps itself exactly when it is non-empty |
| TimeUtils.EmptyIntervalCanOverlap | backend/utils/timeUtils.js:3 | an empty or inverted interval strictly inside another is still reported as overlapping it |
| TimeUtils.IsOverlapping | backend/utils/timeUtils.js:2-4 | for two non-empty intervals, the test holds exactly when the later start comes before the earlier end |
| TimeUtils.Hour | backend/services/createReservation.js:40-41 | `getHours` gives an hour from 0 to 23 |
| TimeUtils.HourIsSlotOfDay | backend/services/createReservation.js:40-41 | the hour `getHours` gives is the hour-long slot of the local day that holds the timestamp |
| TimeUtils.Minute | backend/services/createReservation.js:43-44 | `getMinutes` gives a minute from 0 to 59 |
| TimeUtils.MinuteIsSlotOfHour | backend/services/createReservation.js:43-44 | the minute `getMinutes` gives is the minute-long slot of the local hour that holds the timestamp, so seconds are dropped |
| InMemoryDb.CatalogContents | backend/data/inMemoryDb.js:2-6 | the catalog has three rooms, with ids 1, 2 and 3 and the names "Kokoustila A", "Kokoustila B" and "Kokoustila C" |
| InMemoryDb.CatalogNamesDistinct | backend/data/inMemoryDb.js:2-6 | no two catalog rooms share a name |
| InMemoryDb.InitialStoreEmpty | backend/data/inMemoryDb.js:9-12 | the store starts with no reservations and the counter at 1 |
| InMemoryDb.Rooms | backend/data/inMemoryDb.js:2-6 | the fixed catalog of three rooms; its contents are stated by `InMemoryDb.CatalogContents` |
| InMemoryDb.InitialStore | backend/data/inMemoryDb.js:9-12 | the empty store with the counter at 1; stated by `InMemoryDb.InitialStoreEmpty` |
| Errors.MessagesDistinct | backend/services/createReservation.js:9-66 | different errors carry different message texts; this covers the five texts thrown here and the two thrown at backend/utils/validateRoom.js:7 and backend/services/deleteReservation.js:12 |
| Errors.Message | backend/services/createReservation.js:11-65 | every error has a non-empty text; "Virheellinen huone" (thrown at backend/utils/validateRoom.js:7) is the text of `InvalidRoom` and of no other error, and "Varausta ei löytynyt" (thrown at backend/services/deleteReservation.js:12) is the text of `NotFound` and of no other error |
| StoreScans.RoomNamed | backend/utils/validateRoom.js:5 | the `some` scan finds a match exactly when some catalog entry has that exact name |
| StoreScans.Conflicts | backend/services/createReservation.js:57-59 | a stored reservation conflicts with a proposal exactly when it is on the same room and overlaps it, with the two intervals in either order |
| StoreScans.AnyConflict | backend/services/createReservation.js:57-60 | the `some` scan finds a match exactly when some stored reservation on the same room overlaps the proposal |
| StoreScans.FindIndex | backend/services/deleteReservation.js:7 | `findIndex` returns -1 exactly when no entry has the id; otherwise it returns the first position holding the id |
| StoreScans.ReservationsOf | backend/services/getReservationsByRoom.js:11 | the filter keeps only entries of the room; each such entry appears as often as in the store; the result is no longer than the store |
| StoreScans.ReservationsOfIsSubsequence | backend/services/getReservationsByRoom.js:11 | the filter result is a subsequence of the store, so store order is kept |
| StoreScans.ReservationsOfEmpty | backend/services/reservationService.js:74 | the filter is empty exactly when no stored reservation is on the room |
| StoreScans.ReservationsOfAppend | backend/services/getReservationsByRoom.js:11 | filtering a concatenation gives the concatenation of the filtered parts |
| StoreScans.Splice | backend/services/deleteReservation.js:16 | `splice(index, 1)` drops exactly the entry at `index`: the length falls by one, the multiset loses that entry, and entries keep their positions before the index and shift down one after it |
| StoreScans.SpliceIsSubsequence | backend/services/deleteReservation.js:16 | the spliced store is a subsequence of the original |
| StoreScans.SpliceAtFoundIndex | backend/services/deleteReservation.js:7-16 | splicing at the `findIndex` position removes the first entry with the id |
| RoomValidation.ValidateRoom | backend/utils/validateRoom.js:4-9 | passes exactly for the three catalog names; otherwise fails with `InvalidRoom` ("Virheellinen huone"); it returns no store, so nothing is mutated |
| RoomValidation.ValidateRoomIsExact | backend/utils/validateRoom.js:5 | names that differ in case or in surrounding spaces are rejected, and so is the empty name |
| Admission.Admit | backend/services/createReservation.js:69-80 | the new reservation gets the old `nextId` and the input fields; it is appended at the end with earlier entries untouched; the counter rises by one |
| Admission.Missing | backend/services/createReservation.js:9 | a request counts as complete exactly when all three fields are present and the room name is non-empty; the empty room name counts as missing (the same test is at backend/services/reservationService.js:7) |
| Admission.FirstViolationUnique | backend/services/createReservation.js:9-66 | at most one error can be the first failed check |
| CreateReservationService.StartOk | backend/services/createReservation.js:47 | the start test passes exactly when the start hour is 8 or later, whatever the minute |
| CreateReservationService.EndOk | backend/services/createReservation.js:49 | the end test passes exactly when the end clock reads 18:00 or earlier, to the minute |
| CreateReservationService.HourChecksMeanOfficeHours | backend/services/createReservation.js:36-54 | `startOk` holds exactly when the start hour is at least 8; `startOk && endOk` holds exactly when the start reads 08:00 or later and the end reads 18:00 or earlier |
| CreateReservationService.CreateReservation | backend/services/createReservation.js:7-81 | succeeds exactly when none of the six checks fails; a failure reports the earliest failed check in the order missing field, room, past start, order, hours, overlap; failure leaves the store unchanged; success returns id = old `nextId` with the input fields, appends it, and increments the counter |
| DeleteReservationService.DeleteReservation | backend/services/deleteReservation.js:5-17 | fails with `NotFound` and leaves the store unchanged exactly when no entry has the id; otherwise removes the first such entry, shortens the store by one and keeps order; `nextId` never changes |
| GetReservationsByRoomService.GetReservationsByRoom | backend/services/getReservationsByRoom.js:6-15 | fails with `InvalidRoom` exactly for rooms outside the catalog; otherwise returns every stored reservation of the room, as often as stored, in store order, and no longer than the store; it returns no store, so repeated calls with no write between them agree |
| LegacyReservationService.CreateReservation | backend/services/reservationService.js:5-54 | succeeds exactly when none of its four checks fails (missing field, past start, order, overlap; no room or hours check); failures report the earliest and leave the store unchanged; success appends with id = old `nextId` |
| LegacyReservationService.DeleteReservation | backend/services/reservationService.js:57-69 | `NotFound` with the store unchanged exactly when the id is absent; otherwise removes the first entry with the id and keeps order; `nextId` never changes |
| LegacyReservationService.GetReservationsByRoom | backend/services/reservationService.js:72-78 | never fails; returns the room's reservations in store order, empty when no stored reservation is on that room |
| RootReservationService.CreateReservation | services/reservationService.js:5-44 | same four checks in the same order as the backend variant; failures leave the store unchanged; success appends with id = old `nextId` and increments the counter |
| RootReservationService.DeleteReservation | services/reservationService.js:47-55 | `NotFound` with the store unchanged for an absent id; otherwise removes the first entry with the id, keeps order, shortens by one |
| RootReservationService.GetReservationsByRoom | services/reservationService.js:58-60 | a never-failing, order-preserving filter on room equality |
| RootReservationService.SameAsBackendVariant | services/reservationService.js:5-60 | the root file's three operations equal those of the backend variant on every input |
| StoreInvariants.InitialStoreValid | backend/data/inMemoryDb.js:9-12 | the initial store satisfies the store invariant and names only catalog rooms |
| StoreInvariants.AppendKeepsValid | backend/services/createReservation.js:69-77 | appending a non-empty reservation with id `nextId` that conflicts with nothing keeps the invariant: ids unique and below the counter, and no same-room overlap |
| StoreInvariants.CreateKeepsInvariants | backend/services/createReservation.js:9-77 | every create call keeps the invariant, including no same-room overlap; it keeps "only catalog rooms within office hours"; a new id differs from every stored id |
| StoreInvariants.LegacyCreateKeepsValid | backend/services/reservationService.js:5-54 | every call of the earlier create keeps the invariant, including no same-room overlap |
| StoreInvariants.SpliceKeepsInvariants | backend/services/deleteReservation.js:16 | removing one entry keeps the invariant, and no remaining entry carries the removed id |
| StoreInvariants.DeleteKeepsInvariants | backend/services/deleteReservation.js:5-17 | every delete call keeps the invariant; afterwards no entry carries the deleted id |
| StoreInvariants.LegacyDeleteKeepsValid | backend/services/reservationService.js:57-69 | every call of the earlier delete keeps the invariant |
| StoreInvariants.ListAfterCreate | backend/services/createReservation.js:77 | after a create succeeds, the room's listing is the old listing plus the new reservation, which appears exactly once; the listings of other rooms do not change |
| StoreInvariants.AppendOneListing | backend/services/getReservationsByRoom.js:11 | filtering a store extended by one entry adds that entry at the end exactly when it is on the room |
| StoreInvariants.ListAfterDelete | backend/services/deleteReservation.js:16 | after a delete, no listing contains the deleted id |
| StoreInvariants.DeletedIdNotReissued | backend/services/createReservation.js:70 | a create after a successful delete hands out an id greater than the deleted one |
| VariantComparison.FullAdmitsOnlyWhatLegacyAdmits | backend/services/reservationService.js:5-54 | whatever the full create admits, the earlier create admits too, with the same result and the same store |
| VariantComparison.LegacyRejectionIsFullRejection | backend/services/reservationService.js:7-39 | when the earlier create rejects, the full create rejects with the same error or with one that its pipeline checks earlier |
| VariantComparison.VariantsAgreeOnCatalogRoomsInOfficeHours | backend/services/createReservation.js:15-54 | for a catalog room within office hours, the two creates give identical results |
| VariantComparison.ListingsCompared | backend/services/reservationService.js:72-78 | for a catalog room the two listings agree; for another room the full listing fails with `InvalidRoom`, and the earlier one returns empty when the store names only catalog rooms |
| VariantComparison.LegacyAdmitsUnknownRoom | backend/services/reservationService.js:5-54 | the earlier create admits "Huone X", which the full create rejects, and the earlier listing then shows it |
| Scenarios.FirstBookingAdmitted | backend/tests/reservations.test.js:13-48 | a booking one hour ahead is admitted with id 1 and room "Kokoustila A", and that room's listing shows it |
| Scenarios.RoomCBookedReached | backend/tests/reservations.test.js:75-81 | the first booking of the room C test, started from the initial store rather than from the state earlier tests leave (there the store is empty but the counter is 2, so the booking gets id 2): booking room C from 10:00 to 11:00 leaves exactly that one reservation, with id 1, and the counter at 2 |
| Scenarios.RepeatedBookingRefused | backend/tests/reservations.test.js:73-95 | repeating a booking, or crossing it, fails with `SlotTaken` |
| Scenarios.AdjacentOrOtherRoomAdmitted | backend/services/createReservation.js:57-60 | a booking that only touches an existing one, or uses another room, is admitted |
| Scenarios.PastStartRefused | backend/tests/reservations.test.js:99-113 | a start before the clock reading gives `StartInPast`, and a start equal to it is admitted |
| Scenarios.ReversedIntervalRefused | backend/tests/reservations.test.js:116-130 | a reversed interval, and an empty one, give `StartNotBeforeEnd` |
| Scenarios.LateEndRefused | backend/tests/reservations.test.js:133-147 | an 18:30 end gives `OutsideBusinessHours`, and an 18:00 end is admitted |
| Scenarios.UnknownRoomRefused | backend/services/createReservation.js:15 | a room outside the catalog gives `InvalidRoom` |
| Scenarios.MissingFieldRefused | backend/services/createReservation.js:9-11 | an absent time or an empty room name gives `MissingFields`, even when the room is unknown and the time is in the past |
| Scenarios.OfficeHoursAsWritten | backend/services/createReservation.js:47-53 | a 20:00 to 07:00 booking and an 18:00:30 end are admitted; a 07:59 start and an 18:01 end are refused |
| Scenarios.DeleteScenarios | backend/tests/reservations.test.js:51-70 | deleting id 9999 fails with `NotFound` and changes nothing; deleting the new booking empties the room's listing |

## Left out

- HTTP layer: the Express app, the router, the server start-up and the controllers are not modelled. This includes mapping errors to 400/404 and success to 201/204. They only translate results to transport responses.
- Front end: everything under `frontend/` and `public/main.js` is DOM code, `fetch`, dialogs and date formatting, outside the core.
- Date parsing: parsing date strings, `Invalid Date` and NaN comparisons are not modelled. Times arrive already parsed as integers.
- Time zones: a timestamp is milliseconds on the local clock with a fixed offset, so daylight-saving changes are not modelled.
- Stored time fields: the source stores the request's time strings in the reservation, and the model stores the parsed timestamps.
- JavaScript falsiness: a field is missing when it is absent or the empty string (`None` for a time). Other falsy values such as `0`, `false` or `null`, which a JSON body could carry, are not distinguished.
- Delete ids: `Number(req.params.id)` and strict equality against a non-number id belong to the controllers; the model's id is an integer.
- The clock: `new Date()` becomes the parameter `now`.
- Module wiring: the aggregator files `backend/services/index.js` and `backend/controllers/index.js` are not modelled, and neither is the copy semantics of exporting `nextId` from `backend/data/inMemoryDb.js`. The store is one explicit value.
- Root data module: `services/reservationService.js` requires a data module that is not part of this model, so it is given the same `Store`.
- Concurrency: the source has no locking, and the model is sequential by construction.
- Object identity: the source returns the stored object itself from a create (backend/services/createReservation.js:77-80), and a listing holds references to stored objects (backend/services/getReservationsByRoom.js:11). The model returns values. Nothing in the core mutates a returned record, so this does not change the results.
- Id width: ids are JavaScript numbers, so `db.nextId++` is exact only up to 2^53. The model's counter is an unbounded integer; the core never comes near that bound.
