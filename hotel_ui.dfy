/**
 * The forms and tables of the hotel's user interface without their widgets: each table keeps
 * the rows it shows and acts on the shared store, each form keeps the values of its fields. The
 * components call one another as the application's static accessors let them; here the
 * component called is a parameter. Selected positions, dialog answers and the current day are
 * parameters too.
 */
module HotelUi {
  import opened Wrappers
  import opened Reservations
  import opened Guests
  import opened Rooms
  import opened Store
  import Panels
  import opened ReservationRules
  import GuestRules
  import opened AllocationRules
  import opened CheckoutRules
  import opened UiRules

  /** The warnings the user interface shows instead of acting. */
  datatype Warning =
    | ReservationNotFilled(reasons: seq<Violation>)                // the disabled confirm button
    | GuestNotFilled(guestReasons: seq<GuestRules.GuestViolation>)  // the disabled confirm button
    | HotelFull                 // the reservation would put more people in the hotel than beds
    | CancelNotUpcoming
    | CheckInNotUpcoming
    | MixedReservations         // the selected guests belong to different reservations
    | NoRoomAvailable           // no room can take the selected guests
    | CheckOutNotOccupied
    | MixedReservationRooms     // the guests in the selected rooms belong to different reservations
    | BedsRefused(bed: BedWarning)

  /** The exceptions that end an action part-way. */
  datatype Fault =
    | StoreFault(error: StoreError)
    | NoSuchRow          // a row index the table does not have
    | NoSuchRoom         // `findByKey` found nothing
    | NoSuchReservation  // `findById` found nothing

  datatype Outcome =
    | Done
    | Declined                                          // the user answered no or closed the dialog
    | Warned(warning: Warning)
    | Failed(fault: Fault)
    | Billed(people: int, price: real, taxValue: real)  // a check-out's bill, before tax and the tax

  // ================================================================ the room table

  class RoomTable {
    const store: HotelStore
    var rows: seq<RoomData>

    /** The table shows the ROOM table, whose keys are distinct. */
    ghost predicate Valid()
      reads this`rows, store`rooms
    {
      rows == store.rooms && DistinctKeys(rows)
    }

    constructor (store: HotelStore)
      requires DistinctKeys(store.rooms)
      ensures this.store == store && rows == store.rooms
      ensures Valid()
    {
      this.store := store;
      rows := store.rooms;
    }

    /** `changeStatus`: the first row with the key and its stored room get the status; with no
        such row nothing changes. */
    method ChangeStatus(key: string, status: RoomStatus)
      requires Valid()
      modifies this`rows, store`rooms
      ensures Valid()
      ensures rows == WithStatus(old(rows), key, status)
    {
      var i := 0;
      while i < |rows|
        invariant 0 <= i <= |rows|
        invariant forall j :: 0 <= j < i ==> rows[j].key != key
      {
        if rows[i].key == key {
          assert HasRoom(store.rooms, key);
          var room := FindRoom(store.rooms, key).value;
          assert room == rows[i] by {
            var j :| 0 <= j < |rows| && rows[j] == room;
          }
          var updated := room.(status := status);
          ReplaceOneRoom(rows, i, updated);
          var _ := store.UpdateRoom(updated);
          rows := rows[i := updated];
          return;
        }
        i := i + 1;
      }
      assert rows == WithStatus(rows, key, status);
    }

    /** `roomEditAction`: the dialog's option adds or removes a bed; the new number must be
        between one and seven and must not leave fewer beds than both the stored number and the
        guests recorded in the room. An accepted number is stored and shown. */
    method RoomEditAction(selected: int, option: int) returns (o: Outcome)
      requires Valid()
      modifies this`rows, store`rooms
      ensures Valid()
      ensures !(0 <= selected < |old(rows)|) ==> o == Failed(NoSuchRow) && rows == old(rows)
      ensures 0 <= selected < |old(rows)| ==>
                var room := old(rows)[selected];
                var verdict := BedEdit(AdjustedBeds(room.beds, option), room.beds, Occupants(store.guests, room.key));
                (verdict.Ok? ==> o == Done && rows == old(rows)[selected := room.(beds := verdict.value)])
                && (verdict.Err? ==> o == Warned(BedsRefused(verdict.error)) && rows == old(rows))
      ensures o == Done && Occupants(store.guests, rows[selected].key) <= old(rows)[selected].beds ==>
                Occupants(store.guests, rows[selected].key) <= rows[selected].beds
    {
      if !(0 <= selected < |rows|) {
        return Failed(NoSuchRow);
      }
      var newNumberOfBeds := rows[selected].beds;
      if option == 0 {
        newNumberOfBeds := newNumberOfBeds + 1;
      } else if option == 1 {
        newNumberOfBeds := newNumberOfBeds - 1;
      }
      if newNumberOfBeds < 1 {
        return Warned(BedsRefused(NegativeBeds));
      }
      if newNumberOfBeds > 7 {
        return Warned(BedsRefused(TooManyBeds));
      }
      var key := rows[selected].key;
      assert HasRoom(store.rooms, key);
      var room := FindRoom(store.rooms, key).value;
      assert room == rows[selected] by {
        var j :| 0 <= j < |rows| && rows[j] == room;
      }
      var occupants := Occupants(store.guests, key);
      if newNumberOfBeds < room.beds && newNumberOfBeds < occupants {
        return Warned(BedsRefused(Full));
      }
      if occupants <= room.beds {
        BedEditKeepsGuestsBedded(newNumberOfBeds, room.beds, occupants);
      }
      var updated := room.(beds := newNumberOfBeds);
      ReplaceOneRoom(rows, selected, updated);
      rows := rows[selected := updated];
      var _ := store.UpdateRoom(updated);
      o := Done;
    }

    /** `checkOut` of the rooms at the selected positions: refused when nobody is in them or one
        of them is vacant, and when their guests belong to more than one reservation. Otherwise
        those guests leave the store and the guest table, every selected room becomes vacant,
        the reservation ends once none of its guests remain, and the bill is the price of each
        leaving guest's room for every night of the stay, with the tax on it. */
    method CheckOut(positions: seq<int>, guestTable: GuestTable, reservationTable: ReservationTable, today: Day)
      returns (o: Outcome)
      requires Valid() && reservationTable.Valid() && Keyed(store.guests)
      requires guestTable.store == store && reservationTable.store == store
      requires forall k :: 0 <= k < |positions| ==> 0 <= positions[k] < |rows|
      modifies this`rows, store`rooms, store`guests, store`reservations, guestTable`rows, reservationTable`rows
      ensures Valid() && reservationTable.Valid()
      ensures var v := Verdict(Pick(old(rows), positions), old(store.guests));
              (v.NotOccupiedWarning? ==> o == Warned(CheckOutNotOccupied))
              && (v.MixedReservationsWarning? ==> o == Warned(MixedReservationRooms))
              && (v.Proceed? && FindReservation(old(store.reservations), v.resId).None? ==> o == Failed(NoSuchReservation))
      ensures o.Warned? || o == Failed(NoSuchReservation) ==>
                rows == old(rows) && store.guests == old(store.guests) && guestTable.rows == old(guestTable.rows)
                && store.reservations == old(store.reservations) && reservationTable.rows == old(reservationTable.rows)
      ensures var selected := Pick(old(rows), positions);
              var v := Verdict(selected, old(store.guests));
              v.Proceed? && FindReservation(old(store.reservations), v.resId).Some? ==>
                var r := FindReservation(old(store.reservations), v.resId).value;
                var billed := Bill(v.leaving, selected, r, old(store.tax));
                var i := FirstReservationRow(old(reservationTable.rows), r.id);
                store.guests == WithoutGuests(old(store.guests), IdsOf(v.leaving))
                && guestTable.rows == RowsAfterDelete(old(guestTable.rows), v.leaving)
                && rows == StatusAt(old(rows), positions, NotOccupied)
                && (GuestsOfReservation(store.guests, v.resId) != [] ==>
                      o == billed && store.reservations == old(store.reservations)
                      && reservationTable.rows == old(reservationTable.rows))
                && (GuestsOfReservation(store.guests, v.resId) == [] ==>
                      store.reservations == ReplaceReservation(old(store.reservations), r.(state := Ended))
                      && (i >= 0 ==> o == billed
                                     && reservationTable.rows == old(reservationTable.rows)[i := ReservationRow(r.(state := Ended), IntMax)])
                      && (i < 0 ==> o == Failed(NoSuchRow) && reservationTable.rows == old(reservationTable.rows)))
    {
      var selected := Pick(rows, positions);
      var v := Verdict(selected, store.guests);
      if v.NotOccupiedWarning? {
        return Warned(CheckOutNotOccupied);
      }
      if v.MixedReservationsWarning? {
        return Warned(MixedReservationRooms);
      }
      var found := FindReservation(store.reservations, v.resId);
      if found.None? {
        return Failed(NoSuchReservation);
      }
      o := Settle(positions, guestTable, reservationTable, found.value, v.resId, v.leaving, today);
    }

    /** A check-out that passed its checks: the leaving guests go, the rooms are vacated, the
        reservation ends once none of its guests remain and the bill is shown. */
    method Settle(positions: seq<int>, guestTable: GuestTable, reservationTable: ReservationTable,
                  r: ReservationData, resId: int, leaving: seq<GuestData>, today: Day) returns (o: Outcome)
      requires Valid() && reservationTable.Valid() && Keyed(store.guests)
      requires guestTable.store == store && reservationTable.store == store
      requires forall k :: 0 <= k < |positions| ==> 0 <= positions[k] < |rows|
      requires leaving == GuestsInRooms(store.guests, KeysOf(Pick(rows, positions))) && r in store.reservations
      modifies this`rows, store`rooms, store`guests, store`reservations, guestTable`rows, reservationTable`rows
      ensures Valid() && reservationTable.Valid()
      ensures var billed := Bill(leaving, Pick(old(rows), positions), r, old(store.tax));
              var i := FirstReservationRow(old(reservationTable.rows), r.id);
              store.guests == WithoutGuests(old(store.guests), IdsOf(leaving))
              && guestTable.rows == RowsAfterDelete(old(guestTable.rows), leaving)
              && rows == StatusAt(old(rows), positions, NotOccupied)
              && (GuestsOfReservation(store.guests, resId) != [] ==>
                    o == billed && store.reservations == old(store.reservations)
                    && reservationTable.rows == old(reservationTable.rows))
              && (GuestsOfReservation(store.guests, resId) == [] ==>
                    store.reservations == ReplaceReservation(old(store.reservations), r.(state := Ended))
                    && (i >= 0 ==> o == billed
                                   && reservationTable.rows == old(reservationTable.rows)[i := ReservationRow(r.(state := Ended), IntMax)])
                    && (i < 0 ==> o == Failed(NoSuchRow) && reservationTable.rows == old(reservationTable.rows)))
    {
      var billed := Bill(leaving, Pick(rows, positions), r, store.tax);
      Release(positions, guestTable);
      o := EndStay(reservationTable, r, resId, billed, today);
    }

    /** The end of `checkOut`: the reservation ends once none of its guests remain, and the
        bill is shown unless its row could not be found. */
    method EndStay(reservationTable: ReservationTable, r: ReservationData, resId: int, billed: Outcome, today: Day)
      returns (o: Outcome)
      requires reservationTable.Valid() && reservationTable.store == store && r in store.reservations
      requires billed.Billed?
      modifies store`reservations, reservationTable`rows
      ensures reservationTable.Valid()
      ensures GuestsOfReservation(store.guests, resId) != [] ==>
                o == billed && store.reservations == old(store.reservations)
                && reservationTable.rows == old(reservationTable.rows)
      ensures var i := FirstReservationRow(old(reservationTable.rows), r.id);
              GuestsOfReservation(store.guests, resId) == [] ==>
                store.reservations == ReplaceReservation(old(store.reservations), r.(state := Ended))
                && (i >= 0 ==> o == billed
                               && reservationTable.rows == old(reservationTable.rows)[i := ReservationRow(r.(state := Ended), IntMax)])
                && (i < 0 ==> o == Failed(NoSuchRow) && reservationTable.rows == old(reservationTable.rows))
    {
      if GuestsOfReservation(store.guests, resId) == [] {
        o := reservationTable.CheckOutReservation(r, today);
        if o != Done {
          return;
        }
      }
      o := billed;
    }

    /** The part of `checkOut` that needs no decision: the guests of the selected rooms leave
        the store and the guest table, and the rooms become vacant. */
    method Release(positions: seq<int>, guestTable: GuestTable)
      requires Valid() && Keyed(store.guests) && guestTable.store == store
      requires forall k :: 0 <= k < |positions| ==> 0 <= positions[k] < |rows|
      modifies this`rows, store`rooms, store`guests, guestTable`rows
      ensures Valid()
      ensures var leaving := GuestsInRooms(old(store.guests), KeysOf(Pick(old(rows), positions)));
              store.guests == WithoutGuests(old(store.guests), IdsOf(leaving))
              && guestTable.rows == RowsAfterDelete(old(guestTable.rows), leaving)
              && rows == StatusAt(old(rows), positions, NotOccupied)
    {
      var keys := KeysOf(Pick(rows, positions));
      var leaving := GuestsInRooms(store.guests, keys);
      FilteredGuestsKeyed(store.guests, keys);
      DeleteStoredGuests(store.guests, leaving);
      var _ := guestTable.DeleteGuests(leaving);
      VacateSelected(positions);
    }

    /** The loop of `checkOut` that marks every selected room vacant, in the store and in its row. */
    method VacateSelected(positions: seq<int>)
      requires Valid()
      requires forall k :: 0 <= k < |positions| ==> 0 <= positions[k] < |rows|
      modifies this`rows, store`rooms
      ensures Valid() && rows == StatusAt(old(rows), positions, NotOccupied)
    {
      var k := 0;
      while k < |positions|
        invariant 0 <= k <= |positions|
        invariant Valid() && rows == StatusAt(old(rows), positions[..k], NotOccupied)
      {
        var i := positions[k];
        var updated := rows[i].(status := NotOccupied);
        ReplaceOneRoom(rows, i, updated);
        var _ := store.UpdateRoom(updated);
        rows := rows[i := updated];
        assert positions[..k + 1] == positions[..k] + [positions[k]];
        k := k + 1;
      }
      assert positions[..k] == positions;
    }
  }

  // ================================================================ the guest table

  /** The bill of a check-out: the people leaving, the charge for their rooms over the nights of
      the reservation, and the tax on that charge. */
  function Bill(leaving: seq<GuestData>, selected: seq<RoomData>, r: ReservationData, tax: int): (o: Outcome)
    requires forall g :: g in leaving ==> g.room in KeysOf(selected)
    ensures o.Billed? && o.people == |leaving|
    ensures o.price == (r.dateTo - r.dateFrom) as real * NightlyRate(leaving, RoomsByKey(selected))
    ensures o.taxValue == Tax(o.price, tax)
  {
    var price := Charge(leaving, RoomsByKey(selected), r.dateTo - r.dateFrom);
    ChargeIsNightsTimesRate(leaving, RoomsByKey(selected), r.dateTo - r.dateFrom);
    Billed(|leaving|, price, Tax(price, tax))
  }

  class GuestTable {
    const store: HotelStore
    var rows: seq<GuestData>

    constructor (store: HotelStore)
      ensures this.store == store && rows == store.guests
    {
      this.store := store;
      rows := store.guests;
    }

    /** `create` of one guest followed by `addGuest`: a guest without an id is inserted with
        the next generated id, one with an id is updated, and the guest as persisted is shown as
        a new row; an update of a missing guest fails before the row is added. */
    method CreateGuest(d: GuestData) returns (o: Outcome)
      modifies this`rows, store`guests, store`nextGuestId
      ensures var stored := Persisted(old(store.guests), d, old(store.nextGuestId));
              (o == Done <==> stored.Ok?)
              && (o == Done ==> store.guests == stored.value
                                && rows == old(rows) + [PersistedAs(d, old(store.nextGuestId))]
                                && store.nextGuestId == NextAfter(d, old(store.nextGuestId)))
              && (o != Done ==> o == Failed(StoreFault(NotFound)))
    {
      var guest := new Guest(d.name, d.room, d.idCard, d.generation, d.info, d.reservationId, d.id);
      var r := store.CreateGuest(guest);
      if r.Err? {
        return Failed(StoreFault(NotFound));
      }
      rows := rows + [guest.Data()];
      o := Done;
    }

    /** `createGuests`: each guest in turn is persisted and shown; a failure ends the list. */
    method CreateGuests(guests: seq<GuestData>) returns (o: Outcome)
      modifies this`rows, store`guests, store`nextGuestId
      ensures var stored := CreatedAll(old(store.guests), guests, old(store.nextGuestId));
              (o == Done <==> stored.Ok?)
              && (o == Done ==> store.guests == stored.value
                                && rows == old(rows) + PersistedAll(guests, old(store.nextGuestId))
                                && store.nextGuestId == old(store.nextGuestId) + NewCount(guests))
              && (o != Done ==> o == Failed(StoreFault(NotFound)))
    {
      ghost var s0, next0 := store.guests, store.nextGuestId;
      var i := 0;
      while i < |guests|
        invariant 0 <= i <= |guests|
        invariant CreatedAll(store.guests, guests[i..], store.nextGuestId) == CreatedAll(s0, guests, next0)
        invariant rows + PersistedAll(guests[i..], store.nextGuestId) == old(rows) + PersistedAll(guests, next0)
        invariant store.nextGuestId + NewCount(guests[i..]) == next0 + NewCount(guests)
      {
        ghost var t, next, shown := store.guests, store.nextGuestId, rows;
        assert guests[i..][0] == guests[i] && guests[i..][1..] == guests[i + 1..];
        o := CreateGuest(guests[i]);
        if o != Done {
          return;
        }
        assert rows + PersistedAll(guests[i + 1..], store.nextGuestId)
               == shown + PersistedAll(guests[i..], next);
        i := i + 1;
      }
      o := Done;
    }

    /** `deleteGuests`: each guest in turn is deleted from the store and the first row with its
        id is removed; a failed delete ends the list. */
    method DeleteGuests(guests: seq<GuestData>) returns (o: Outcome)
      modifies this`rows, store`guests
      ensures DeleteAll(old(store.guests), guests).Ok? ==>
                o == Done && store.guests == DeleteAll(old(store.guests), guests).value
                && rows == RowsAfterDelete(old(rows), guests)
      ensures DeleteAll(old(store.guests), guests).Err? ==>
                o == Failed(StoreFault(DeleteAll(old(store.guests), guests).error))
    {
      var i := 0;
      while i < |guests|
        invariant 0 <= i <= |guests|
        invariant DeleteAll(old(store.guests), guests[..i]) == Ok(store.guests)
        invariant rows == RowsAfterDelete(old(rows), guests[..i])
      {
        assert guests[..i + 1][..i] == guests[..i] && guests[..i + 1][i] == guests[i];
        var r := store.DeleteGuest(guests[i]);
        if r.Err? {
          DeleteAllErrSticks(old(store.guests), guests, i + 1);
          return Failed(StoreFault(r.error));
        }
        RemoveGuestRow(guests[i].id);
        i := i + 1;
      }
      assert guests[..i] == guests;
      o := Done;
    }

    /** The row half of `deleteGuest`: the first row showing the guest with the given id goes,
        if there is one. */
    method RemoveGuestRow(id: Option<int>)
      modifies this`rows
      ensures rows == WithoutFirstRow(old(rows), id)
    {
      var j := 0;
      while j < |rows| && rows[j].id != id
        invariant 0 <= j <= |rows|
        invariant forall k :: 0 <= k < j ==> rows[k].id != id
      {
        j := j + 1;
      }
      if j < |rows| {
        assert j == FirstGuestRow(rows, id);
        rows := rows[..j] + rows[j + 1..];
      }
    }

    /** `removeEditingRow`: the selected row goes; with no row there the removal fails. */
    method RemoveEditingRow(selected: int) returns (o: Outcome)
      modifies this`rows
      ensures 0 <= selected < |old(rows)| ==> o == Done && rows == old(rows)[..selected] + old(rows)[selected + 1..]
      ensures !(0 <= selected < |old(rows)|) ==> o == Failed(NoSuchRow) && rows == old(rows)
    {
      if !(0 <= selected < |rows|) {
        return Failed(NoSuchRow);
      }
      rows := rows[..selected] + rows[selected + 1..];
      o := Done;
    }

    /** `getAvailableRooms`: one pass over the stored guests counts each room's occupants and
        collects the rooms holding guests of the reservation; one pass over the rooms keeps the
        eligible ones. */
    method GetAvailableRooms(count: int, resId: int) returns (offered: seq<string>)
      ensures offered == AvailableRooms(store.rooms, store.guests, count, resId)
    {
      var occupied, present := Occupancy(store.guests, resId);
      offered := EligibleKeys(store.rooms, store.guests, count, resId, occupied, present);
    }

    /** `moveGuestsBetweenRooms`: the selected guests are counted per room (the empty key
        aside), and every room holding exactly that many stored guests is set to vacant, key by
        key in any order. */
    method MoveGuestsBetweenRooms(selected: seq<GuestData>, roomTable: RoomTable)
      requires roomTable.Valid() && roomTable.store == store
      modifies roomTable`rows, store`rooms
      ensures roomTable.Valid()
      ensures roomTable.rows == VacateRooms(old(roomTable.rows), store.guests, selected)
    {
      var rooms := CountLeaving(selected);
      var keys := rooms.Keys;
      ghost var done: set<string> := {};
      while keys != {}
        invariant keys + done == rooms.Keys && keys !! done
        invariant roomTable.Valid()
        invariant roomTable.rows == VacateAmong(old(roomTable.rows), store.guests, selected, done)
        decreases keys
      {
        var roomNumber :| roomNumber in keys;
        CountedRoomVacates(store.guests, selected, rooms, roomNumber);
        VacateStepByStep(old(roomTable.rows), store.guests, selected, done, roomNumber);
        if |GuestsInRoom(store.guests, roomNumber)| == Lookup(rooms, roomNumber) {
          roomTable.ChangeStatus(roomNumber, NotOccupied);
        }
        keys := keys - {roomNumber};
        done := done + {roomNumber};
      }
      VacatedAreSources(old(roomTable.rows), store.guests, selected, "");
    }

    /** `assignRoomAction`, with the statuses set in the corrected order: the selected guests
        must share a reservation and some room must be eligible for them; the room chosen in the
        dialog (by its position among the offered ones) is shown in their rows, every room the
        move empties is set vacant, the chosen room is set occupied, and each guest is stored in
        it in turn. */
    method AssignRoomAction(positions: seq<int>, choice: int, roomTable: RoomTable) returns (o: Outcome)
      requires |positions| > 0 && forall k :: 0 <= k < |positions| ==> 0 <= positions[k] < |rows|
      requires roomTable.Valid() && roomTable.store == store
      modifies this`rows, store`guests, store`rooms, roomTable`rows
      ensures roomTable.Valid()
      ensures var selected := Pick(old(rows), positions);
              var resId := selected[0].reservationId;
              var offered := AvailableRooms(old(store.rooms), old(store.guests), |positions|, resId);
              if exists k :: 0 <= k < |selected| && selected[k].reservationId != resId then
                o == Warned(MixedReservations) && Unchanged(old(rows), old(store.guests), old(roomTable.rows), this, roomTable)
              else if offered == [] then
                o == Warned(NoRoomAvailable) && Unchanged(old(rows), old(store.guests), old(roomTable.rows), this, roomTable)
              else if !(0 <= choice < |offered|) || offered[choice] == "" then
                o == Declined && Unchanged(old(rows), old(store.guests), old(roomTable.rows), this, roomTable)
              else
                var target := offered[choice];
                var updated := UpdateAll(old(store.guests), Retarget(selected, target));
                rows == Reassigned(old(rows), positions, target)
                && roomTable.rows == RoomsAfterAssignFixed(old(roomTable.rows), old(store.guests), selected, target)
                && (updated.Ok? ==> o == Done && store.guests == updated.value)
                && (updated.Err? ==> o == Failed(StoreFault(updated.error)))
                && (StoredSelection(old(store.guests), selected) ==>
                      o == Done
                      && (forall i :: 0 <= i < |roomTable.rows| && roomTable.rows[i].key == target ==>
                            Occupants(store.guests, target) <= roomTable.rows[i].beds)
                      && (StatusTruthful(old(roomTable.rows), old(store.guests))
                          && (forall i :: 0 <= i < |old(roomTable.rows)| ==> old(roomTable.rows)[i].key != "") ==>
                            StatusTruthful(roomTable.rows, store.guests)))
    {
      var selected := Pick(rows, positions);
      var resId := selected[0].reservationId;
      var shared := SharedReservation(selected);
      if !shared {
        return Warned(MixedReservations);
      }
      var allRooms := GetAvailableRooms(|selected|, resId);
      if |allRooms| == 0 {
        return Warned(NoRoomAvailable);
      }
      if !(0 <= choice < |allRooms|) || allRooms[choice] == "" {
        return Declined;
      }
      var selection := allRooms[choice];
      ghost var guests0 := store.guests;
      ghost var rooms0 := roomTable.rows;
      ShowRoom(positions, selection);
      MoveGuestsBetweenRooms(selected, roomTable);
      roomTable.ChangeStatus(selection, Occupied);
      VacatedAreSources(rooms0, guests0, selected, selection);
      o := UpdateMoved(Retarget(selected, selection));
      if StoredSelection(guests0, selected) {
        StoredAssignment(rooms0, guests0, selected, selection, resId);
      }
    }

    /** The rows at the positions show the room. */
    method ShowRoom(positions: seq<int>, room: string)
      requires forall k :: 0 <= k < |positions| ==> 0 <= positions[k] < |rows|
      modifies this`rows
      ensures rows == Reassigned(old(rows), positions, room)
    {
      var k := 0;
      while k < |positions|
        invariant 0 <= k <= |positions|
        invariant |rows| == |old(rows)|
        invariant rows == Reassigned(old(rows), positions[..k], room)
      {
        assert forall x :: x in positions[..k + 1] <==> x in positions[..k] || x == positions[k];
        rows := rows[positions[k] := rows[positions[k]].(room := room)];
        k := k + 1;
      }
      assert positions[..k] == positions;
    }

    /** `update` of each moved guest in turn; a failure ends the list. */
    method UpdateMoved(moved: seq<GuestData>) returns (o: Outcome)
      modifies store`guests
      ensures var updated := UpdateAll(old(store.guests), moved);
              (updated.Ok? ==> o == Done && store.guests == updated.value)
              && (updated.Err? ==> o == Failed(StoreFault(updated.error)))
    {
      ghost var guests0 := store.guests;
      var j := 0;
      while j < |moved|
        invariant 0 <= j <= |moved|
        invariant UpdateAll(guests0, moved[..j]) == Ok(store.guests)
      {
        assert moved[..j + 1][..j] == moved[..j];
        var r := store.UpdateGuest(moved[j]);
        if r.Err? {
          UpdateAllErrSticks(guests0, moved, j + 1);
          return Failed(StoreFault(r.error));
        }
        j := j + 1;
      }
      assert moved[..j] == moved;
      o := Done;
    }

    /** `guestEditAction`: the form is shown for the selected guest, in editing mode. */
    method GuestEditAction(selected: int, form: GuestForm, panels: Panels.ContentPanelController, confirmed: bool)
      returns (o: Outcome)
      requires panels.Valid()
      modifies form, panels
      ensures panels.Valid()
      ensures !(0 <= selected < |rows|) ==> o == Failed(NoSuchRow)
      ensures 0 <= selected < |rows| ==>
                o == Done && form.editing
                && form.fields == GuestRules.GuestFields(rows[selected].name, rows[selected].idCard,
                                                         rows[selected].generation, rows[selected].info)
                && form.room == rows[selected].room && form.id == rows[selected].id
                && form.reservationId == Some(rows[selected].reservationId)
                && form.checkInGuests == old(form.checkInGuests)
      ensures Panels.Leaves(old(panels.currentActive), confirmed) ==> panels.currentActive == Some(Panels.GuestForm)
    {
      panels.SwitchPanel(Panels.GuestForm, confirmed);
      if !(0 <= selected < |rows|) {
        return Failed(NoSuchRow);
      }
      var guest := rows[selected];
      form.FillBasedOn(guest);
      form.editing := true;
      form.reservationId := Some(guest.reservationId);
      o := Done;
    }
  }

  // ================================================================ the reservation table

  class ReservationTable {
    const store: HotelStore
    var rows: seq<ReservationRow>

    /** The rows show stored reservations, no two the same, and the stored ids are keys below
        the next generated one. */
    ghost predicate Valid()
      reads this`rows, store`reservations, store`nextReservationId
    {
      ReservationsKeyed(store.reservations, store.nextReservationId) && Shown(rows, store.reservations)
    }

    /** Every stored reservation becomes a row, its days to perform counted from `today`. */
    constructor (store: HotelStore, today: Day)
      requires ReservationsKeyed(store.reservations, store.nextReservationId)
      ensures this.store == store && Valid()
      ensures |rows| == |store.reservations|
      ensures forall i :: 0 <= i < |rows| ==> rows[i] == RowOf(store.reservations[i], today)
    {
      this.store := store;
      var s := store.reservations;
      var built := seq(|s|, i requires 0 <= i < |s| => RowOf(s[i], today));
      assert forall i :: 0 <= i < |s| ==> built[i].data == s[i];
      rows := built;
    }

    /** `cancelAction`: only an upcoming reservation is cancelled, and only when the user
        confirms; it is then cancelled in its row and in the store, and its row shows the days to
        perform every later load of the table shows for it. */
    method CancelAction(selected: int, confirmed: bool) returns (o: Outcome)
      requires Valid()
      modifies this`rows, store`reservations
      ensures Valid()
      ensures !(0 <= selected < |old(rows)|) ==> o == Failed(NoSuchRow)
      ensures o != Done ==> rows == old(rows) && store.reservations == old(store.reservations)
      ensures 0 <= selected < |old(rows)| ==>
                var r := old(rows)[selected].data;
                var canceled := r.(state := Canceled);
                (r.state != Upcoming ==> o == Warned(CancelNotUpcoming))
                && (r.state == Upcoming && !confirmed ==> o == Declined)
                && (r.state == Upcoming && confirmed ==>
                      o == Done && rows == old(rows)[selected := ReservationRow(canceled, IntMax)]
                      && store.reservations == ReplaceReservation(old(store.reservations), canceled)
                      && forall today :: rows[selected] == RowOf(canceled, today))
    {
      if !(0 <= selected < |rows|) {
        return Failed(NoSuchRow);
      }
      var r := rows[selected].data;
      if r.state != Upcoming {
        return Warned(CancelNotUpcoming);
      }
      if !confirmed {
        return Declined;
      }
      var canceled := r.(state := Canceled);
      ShownAfterUpdate(rows, store.reservations, store.nextReservationId, selected, canceled, IntMax);
      rows := rows[selected := ReservationRow(canceled, IntMax)];
      var _ := store.UpdateReservation(canceled);
      o := Done;
    }

    /** `createReservation`: the reservation is stored (inserted under the next generated id, or
        written over the record with its id) and shown as one new last row; a failed write adds
        no row. */
    method CreateReservation(res: Reservation) returns (o: Outcome)
      requires Valid()
      modifies this`rows, store`reservations, store`nextReservationId, res`id
      ensures old(res.id).None? ==>
                o == Done && res.id == Some(old(store.nextReservationId))
                && store.reservations == old(store.reservations) + [res.Data()]
                && store.nextReservationId == old(store.nextReservationId) + 1
      ensures old(res.id).Some? ==>
                res.id == old(res.id) && store.nextReservationId == old(store.nextReservationId)
                && (o == Done <==> HasReservation(old(store.reservations), res.id))
                && (o == Done ==> store.reservations == ReplaceReservation(old(store.reservations), res.Data()))
      ensures res.Data() == old(res.Data()).(id := res.id)
      ensures o == Done ==> rows == old(rows) + [ReservationRow(res.Data(), res.daysToPerform)]
      ensures o != Done ==>
                o == Failed(StoreFault(NotFound)) && rows == old(rows)
                && store.reservations == old(store.reservations)
      ensures (o != Done || old(res.id).None?
               || forall j :: 0 <= j < |old(rows)| ==> old(rows)[j].data.id != old(res.id)) ==> Valid()
    {
      ghost var s, next := store.reservations, store.nextReservationId;
      var created := store.CreateReservation(res);
      if created.Err? {
        return Failed(StoreFault(created.error));
      }
      if old(res.id).None? {
        ShownAfterInsert(rows, s, next, res.Data(), res.daysToPerform);
      } else if forall j :: 0 <= j < |rows| ==> rows[j].data.id != res.id {
        ShownAfterEdit(rows, s, next, res.Data(), res.daysToPerform);
      }
      rows := rows + [ReservationRow(res.Data(), res.daysToPerform)];
      o := Done;
    }

    /** `checkInReservation`: the selected reservation is in progress, in the store and in its
        row, which shows the days to its departure as a load of the table the same day would. */
    method CheckInReservation(selected: int, today: Day) returns (o: Outcome)
      requires Valid()
      modifies this`rows, store`reservations
      ensures Valid()
      ensures !(0 <= selected < |old(rows)|) ==>
                o == Failed(NoSuchRow) && rows == old(rows) && store.reservations == old(store.reservations)
      ensures 0 <= selected < |old(rows)| ==>
                var doing := old(rows)[selected].data.(state := Doing);
                o == Done && rows == old(rows)[selected := RowOf(doing, today)]
                && store.reservations == ReplaceReservation(old(store.reservations), doing)
    {
      if !(0 <= selected < |rows|) {
        return Failed(NoSuchRow);
      }
      var r := rows[selected].data;
      var reservation := new Reservation(r.name, r.dateFrom, r.dateTo, r.telephone, r.email, r.people,
                                         r.info, r.state, r.id, today);
      reservation.SetState(Doing, today);
      var doing := reservation.Data();
      ShownAfterUpdate(rows, store.reservations, store.nextReservationId, selected, doing, reservation.daysToPerform);
      var _ := store.UpdateReservation(doing);
      rows := rows[selected := ReservationRow(doing, reservation.daysToPerform)];
      o := Done;
    }

    /** `checkOutReservation`: a stored reservation ends, in the store and in the first row
        with its id; with no such row the row update fails after the store has changed. */
    method CheckOutReservation(r: ReservationData, today: Day) returns (o: Outcome)
      requires Valid() && r in store.reservations
      modifies this`rows, store`reservations
      ensures Valid()
      ensures var ended := r.(state := Ended);
              var i := FirstReservationRow(old(rows), r.id);
              store.reservations == ReplaceReservation(old(store.reservations), ended)
              && (i == -1 ==> o == Failed(NoSuchRow) && rows == old(rows))
              && (i >= 0 ==> o == Done && rows == old(rows)[i := ReservationRow(ended, IntMax)])
    {
      ghost var s, next := store.reservations, store.nextReservationId;
      ghost var k :| 0 <= k < |s| && s[k] == r;
      var ended, days := StoreEnded(r, today);
      KeyedAfterReplace(s, next, ended);
      var i := RowOfReservation(r.id);
      if i == -1 {
        return Failed(NoSuchRow);
      }
      SameIdSameReservation(s, next, rows[i].data, r);
      ShownAfterUpdate(rows, s, next, i, ended, IntMax);
      rows := rows[i := ReservationRow(ended, days)];
      o := Done;
    }

    /** The store half of `checkOutReservation`: the reservation, set to ENDED, is updated. */
    method StoreEnded(r: ReservationData, today: Day) returns (ended: ReservationData, days: int)
      requires r.id.Some?
      modifies store`reservations
      ensures ended == r.(state := Ended) && days == IntMax
      ensures store.reservations == (if HasReservation(old(store.reservations), r.id)
                                     then ReplaceReservation(old(store.reservations), ended)
                                     else old(store.reservations))
    {
      var reservation := new Reservation(r.name, r.dateFrom, r.dateTo, r.telephone, r.email, r.people,
                                         r.info, r.state, r.id, today);
      reservation.SetState(Ended, today);
      ended, days := reservation.Data(), reservation.daysToPerform;
      var _ := store.UpdateReservation(ended);
    }

    /** The search of `checkOutReservation` for the first row showing the reservation with the
        given id, -1 when there is none. */
    method RowOfReservation(id: Option<int>) returns (i: int)
      ensures i == FirstReservationRow(rows, id)
    {
      i := 0;
      while i < |rows| && rows[i].data.id != id
        invariant 0 <= i <= |rows|
        invariant forall j :: 0 <= j < i ==> rows[j].data.id != id
      {
        i := i + 1;
      }
      if i == |rows| {
        i := -1;
      }
    }

    /** `removeIfSelected`: the selected row goes, if a row is selected; afterwards no row shows
        its reservation. */
    method RemoveIfSelected(selected: int) returns (o: Outcome)
      requires Valid()
      modifies this`rows
      ensures Valid()
      ensures selected < 0 ==> o == Done && rows == old(rows)
      ensures selected >= |old(rows)| ==> o == Failed(NoSuchRow) && rows == old(rows)
      ensures 0 <= selected < |old(rows)| ==>
                o == Done && rows == WithoutRow(old(rows), selected)
                && forall j :: 0 <= j < |rows| ==> rows[j].data.id != old(rows)[selected].data.id
    {
      if selected < 0 {
        return Done;
      }
      if selected >= |rows| {
        return Failed(NoSuchRow);
      }
      ShownAfterRemove(rows, store.reservations, selected);
      rows := WithoutRow(rows, selected);
      o := Done;
    }

    /** The check-in action: an upcoming reservation hands its number of people and its id to
        the guest form, which is then shown; any other reservation is refused. */
    method CreateCheckInButtonAction(selected: int, form: GuestForm, panels: Panels.ContentPanelController,
                                     confirmed: bool) returns (o: Outcome)
      requires panels.Valid()
      modifies form`numberToCheckIn, form`reservationId, panels
      ensures panels.Valid()
      ensures !(0 <= selected < |rows|) || rows[selected].data.state != Upcoming ==>
                unchanged(form) && unchanged(panels)
                && o == (if !(0 <= selected < |rows|) then Failed(NoSuchRow) else Warned(CheckInNotUpcoming))
      ensures 0 <= selected < |rows| && rows[selected].data.state == Upcoming ==>
                o == Done && form.numberToCheckIn == rows[selected].data.people
                && form.reservationId == rows[selected].data.id
                && (Panels.Leaves(old(panels.currentActive), confirmed) ==> panels.currentActive == Some(Panels.GuestForm))
    {
      if !(0 <= selected < |rows|) {
        return Failed(NoSuchRow);
      }
      if rows[selected].data.state != Upcoming {
        return Warned(CheckInNotUpcoming);
      }
      form.numberToCheckIn := rows[selected].data.people;
      form.reservationId := rows[selected].data.id;
      panels.SwitchPanel(Panels.GuestForm, confirmed);
      o := Done;
    }

    /** The edit action: the reservation form is shown, filled with the selected reservation. */
    method ReservationEditAction(selected: int, form: ReservationForm, panels: Panels.ContentPanelController,
                                 confirmed: bool) returns (o: Outcome)
      requires panels.Valid()
      modifies form, panels
      ensures panels.Valid()
      ensures !(0 <= selected < |rows|) ==> o == Failed(NoSuchRow) && unchanged(form) && unchanged(panels)
      ensures 0 <= selected < |rows| ==>
                var r := rows[selected].data;
                o == Done && form.fields == FieldsOf(r) && form.id == r.id && form.editable == EditableIn(r.state)
                && (Panels.Leaves(old(panels.currentActive), confirmed) ==> panels.currentActive == Some(Panels.ReservationForm))
    {
      if !(0 <= selected < |rows|) {
        return Failed(NoSuchRow);
      }
      var r := rows[selected].data;
      panels.SwitchPanel(Panels.ReservationForm, confirmed);
      form.FillBasedOn(r);
      form.SetState(r.state);
      o := Done;
    }
  }

  // ================================================================ the reservation form

  /** Which fields of the reservation form accept input. */
  datatype Editable = Editable(name: bool, telephone: bool, email: bool, dateFrom: bool, dateTo: bool,
                               people: bool, info: bool)

  const AllEditable := Editable(true, true, true, true, true, true, true)

  /** The fields of a reservation being edited that accept input: all of them for an upcoming
      stay, only the departure date and the note for a stay in progress, none for a cancelled
      or ended one. */
  function EditableIn(state: ReservationState): (e: Editable)
    ensures e == AllEditable <==> state == Upcoming
    ensures state == Doing ==> e == Editable(false, false, false, false, true, false, true)
    ensures !IsActive(state) ==> e == Editable(false, false, false, false, false, false, false)
  {
    var upcoming := state == Upcoming;
    var open := state != Ended && state != Canceled;
    Editable(upcoming, upcoming, upcoming, upcoming, open, upcoming, open)
  }

  /** The reservation form after it is hidden: empty text fields, no dates, one person. */
  const EmptyReservationForm := ReservationFields("", "", "", None, None, 1, "", Upcoming)

  /** The fields `fillBasedOn` shows for a reservation. */
  function FieldsOf(r: ReservationData): ReservationFields {
    ReservationFields(r.name, r.telephone, r.email, Some(r.dateFrom), Some(r.dateTo), r.people, r.info, r.state)
  }

  /** The reservation the confirm action builds from the fields and the form's id; the form
      would show that reservation with exactly these fields. */
  function Candidate(f: ReservationFields, id: Option<int>): (c: ReservationData)
    requires f.dateFrom.Some? && f.dateTo.Some?
    ensures FieldsOf(c) == f && c.id == id
  {
    ReservationData(f.name, f.dateFrom.value, f.dateTo.value, f.telephone, f.email, f.people, f.info, f.state, id)
  }

  class ReservationForm {
    var fields: ReservationFields
    /** The id of the reservation being edited; none for a new one. */
    var id: Option<int>
    var editable: Editable

    constructor ()
      ensures fields == EmptyReservationForm && id == None && editable == AllEditable
    {
      fields := EmptyReservationForm;
      id := None;
      editable := AllEditable;
    }

    method SetState(state: ReservationState)
      modifies this`fields
      ensures fields == old(fields).(state := state)
    {
      fields := fields.(state := state);
    }

    /** `fillBasedOn`: the form shows the reservation, remembers its id and accepts input in
        the fields its state leaves open. */
    method FillBasedOn(r: ReservationData)
      modifies this
      ensures fields == FieldsOf(r) && id == r.id && editable == EditableIn(r.state)
    {
      fields := FieldsOf(r);
      id := r.id;
      editable := EditableIn(r.state);
    }

    /** Hiding the form empties its fields, forgets the id, makes the state upcoming and every
        field editable again. */
    method OnHidden()
      modifies this
      ensures fields == EmptyReservationForm && id == None && editable == AllEditable
    {
      fields := EmptyReservationForm;
      id := None;
      editable := AllEditable;
    }

    /** `reservationConfirmButtonAction` behind the confirm button: an incompletely filled form
        reports its problems; a reservation whose people, added to those of every other
        active reservation overlapping its stay, exceed the hotel's beds is refused; otherwise the
        selected row is removed and the reservation stored and shown as a new last row. Since
        that sum bounds the load of every night, an accepted reservation keeps every night
        within the hotel's beds. */
    method ConfirmAction(today: Day, table: ReservationTable, panels: Panels.ContentPanelController, selected: int)
      returns (o: Outcome)
      requires table.Valid() && panels.Valid()
      modifies table`rows, table.store`reservations, table.store`nextReservationId, panels
      ensures panels.Valid()
      ensures !IsAllFilled(old(fields), today) ==>
                o == Warned(ReservationNotFilled(Violations(old(fields), today)))
      ensures IsAllFilled(old(fields), today) && !Accepts(old(table.store.reservations), Candidate(fields, id), TotalBeds(table.store.rooms)) ==>
                o == Warned(HotelFull)
      ensures o.Warned? ==>
                table.rows == old(table.rows) && table.store.reservations == old(table.store.reservations)
                && unchanged(panels)
      ensures IsAllFilled(old(fields), today) && Accepts(old(table.store.reservations), Candidate(fields, id), TotalBeds(table.store.rooms)) ==>
                (o == Done <==> selected < |old(table.rows)| && (id.None? || HasReservation(old(table.store.reservations), id)))
      ensures o == Done ==> IsAllFilled(fields, today)
      ensures o == Done && IsAllFilled(fields, today) ==>
                var c := Candidate(fields, id);
                Accepts(old(table.store.reservations), c, TotalBeds(table.store.rooms))
                && panels.currentActive == Some(Panels.ReservationTable)
                && (id.None? ==> table.store.reservations == old(table.store.reservations) + [c.(id := Some(old(table.store.nextReservationId)))])
                && (id.Some? ==> table.store.reservations == ReplaceReservation(old(table.store.reservations), c))
                && table.rows == (if selected < 0 then old(table.rows) else WithoutRow(old(table.rows), selected))
                                 + [RowOf(if id.None? then c.(id := Some(old(table.store.nextReservationId))) else c, today)]
      ensures o == Done && WithinCapacity(old(table.store.reservations), TotalBeds(table.store.rooms))
              && PeopleNonNegative(old(table.store.reservations)) && fields.people >= 0 ==>
                WithinCapacity(table.store.reservations, TotalBeds(table.store.rooms))
      ensures o != Done || id.None? || (0 <= selected < |old(table.rows)| && old(table.rows)[selected].data.id == id) ==>
                table.Valid()
    {
      if !IsAllFilled(fields, today) {
        return Warned(ReservationNotFilled(Violations(fields, today)));
      }
      var c := Candidate(fields, id);
      var beds := TotalBeds(table.store.rooms);
      if !Accepts(table.store.reservations, c, beds) {
        return Warned(HotelFull);
      }
      ghost var s, next := table.store.reservations, table.store.nextReservationId;
      o := table.RemoveIfSelected(selected);
      if o != Done {
        return;
      }
      o := Save(table, c, today);
      if o != Done {
        return;
      }
      panels.SwitchPanelNow(Panels.ReservationTable);
      if WithinCapacity(s, beds) && PeopleNonNegative(s) && c.people >= 0 {
        if id.None? {
          AcceptedNewReservationKeepsCapacity(s, c, next, beds);
        } else {
          KeyedCountsOne(s, next, id);
          AcceptedEditKeepsCapacity(s, c, beds);
        }
      }
    }

    /** The saving step of the confirm button: the reservation built from the form gets the id
        of the edited reservation, if any, and is created through the table. */
    method Save(table: ReservationTable, c: ReservationData, today: Day) returns (o: Outcome)
      requires table.Valid()
      modifies table`rows, table.store`reservations, table.store`nextReservationId
      ensures c.id.None? ==>
                o == Done && table.store.reservations == old(table.store.reservations) + [c.(id := Some(old(table.store.nextReservationId)))]
      ensures c.id.Some? ==>
                (o == Done <==> HasReservation(old(table.store.reservations), c.id))
                && (o == Done ==> table.store.reservations == ReplaceReservation(old(table.store.reservations), c))
      ensures o == Done ==>
                table.rows == old(table.rows) + [RowOf(if c.id.None? then c.(id := Some(old(table.store.nextReservationId))) else c, today)]
      ensures o != Done ==>
                o == Failed(StoreFault(NotFound))
                && table.store.reservations == old(table.store.reservations) && table.rows == old(table.rows)
      ensures (o != Done || c.id.None? || forall j :: 0 <= j < |old(table.rows)| ==> old(table.rows)[j].data.id != c.id) ==>
                table.Valid()
    {
      var reservation := new Reservation(c.name, c.dateFrom, c.dateTo, c.telephone, c.email, c.people,
                                         c.info, c.state, None, today);
      reservation.SetId(c.id);
      o := table.CreateReservation(reservation);
    }

    /** The cancel button goes back to the reservation table if the user agrees to leave. */
    method CancelAction(panels: Panels.ContentPanelController, confirmed: bool)
      requires panels.Valid()
      modifies panels
      ensures panels.Valid()
      ensures if Panels.Leaves(old(panels.currentActive), confirmed)
              then panels.currentActive == Some(Panels.ReservationTable)
              else unchanged(panels)
    {
      panels.SwitchPanel(Panels.ReservationTable, confirmed);
    }
  }

  // ================================================================ the guest form

  /** The input that shows the cancel button's lost edit: an edited guest's form, where the user
      declines to leave. The switch does not happen, so the form stays shown, while
      `CancelActionAsWritten` ends the edit mode regardless. */
  lemma DeclinedCancelKeepsGuestForm()
    ensures Panels.IsForm(Panels.GuestForm) && !Panels.Leaves(Some(Panels.GuestForm), false)
  {
  }

  /** The guest form after its fields are reset: empty texts and an adult. */
  const EmptyGuestForm := GuestRules.GuestFields("", "", Adult, "")

  class GuestForm {
    var fields: GuestRules.GuestFields
    /** The number of the guest being entered, from 1. */
    var guestNum: int
    var confirmText: GuestRules.ConfirmLabel
    var room: string
    var editing: bool
    var reservationId: Option<int>
    var numberToCheckIn: int
    var id: Option<int>
    /** The guests entered so far, not yet stored. */
    var checkInGuests: seq<GuestData>

    constructor ()
      ensures fields == EmptyGuestForm && guestNum == 1 && confirmText == GuestRules.AddNextLabel
      ensures room == "" && !editing && reservationId == None && numberToCheckIn == 0
      ensures id == None && checkInGuests == []
    {
      fields := EmptyGuestForm;
      guestNum := 1;
      confirmText := GuestRules.AddNextLabel;
      room := "";
      editing := false;
      reservationId := None;
      numberToCheckIn := 0;
      id := None;
      checkInGuests := [];
    }

    /** Showing the form starts the count again at the first guest. */
    method OnShown()
      modifies this`guestNum, this`confirmText
      ensures guestNum == 1 && confirmText == GuestRules.LabelOnShow(editing, numberToCheckIn)
    {
      guestNum := 1;
      if guestNum == numberToCheckIn || editing {
        confirmText := GuestRules.ConfirmLabel;
      } else {
        confirmText := GuestRules.AddNextLabel;
      }
    }

    /** Hiding the form forgets the id and the guests entered, and resets the fields. */
    method OnHidden()
      modifies this`id, this`checkInGuests, this`fields
      ensures id == None && checkInGuests == [] && fields == EmptyGuestForm
    {
      id := None;
      checkInGuests := [];
      fields := EmptyGuestForm;
    }

    /** `fillBasedOn`: the form shows the guest and takes over its room, id and reservation. */
    method FillBasedOn(g: GuestData)
      modifies this`fields, this`room, this`id, this`reservationId
      ensures fields == GuestRules.GuestFields(g.name, g.idCard, g.generation, g.info)
      ensures room == g.room && id == g.id && reservationId == Some(g.reservationId)
    {
      fields := GuestRules.GuestFields(g.name, g.idCard, g.generation, g.info);
      room := g.room;
      id := g.id;
      reservationId := Some(g.reservationId);
    }

    /** The cancel button (`GuestCancelButtonAction`) as written: an edit goes back to the guest
        table and anything else to the reservation table, if the user agrees to leave; the edit
        mode ends even when the user declines and the form stays shown, so the next confirm
        treats the edited guest as a new guest of a check-in. */
    method CancelActionAsWritten(panels: Panels.ContentPanelController, confirmed: bool)
      requires panels.Valid()
      modifies this`editing, panels
      ensures panels.Valid() && !editing
      ensures if Panels.Leaves(old(panels.currentActive), confirmed)
              then panels.currentActive == Some(if old(editing) then Panels.GuestTable else Panels.ReservationTable)
              else unchanged(panels)
    {
      if editing {
        panels.SwitchPanel(Panels.GuestTable, confirmed);
        editing := false;
      } else {
        panels.SwitchPanel(Panels.ReservationTable, confirmed);
      }
    }

    /** The cancel button as evidently intended: the same switch, but the edit mode ends only
        when the form is actually left. */
    method CancelAction(panels: Panels.ContentPanelController, confirmed: bool)
      requires panels.Valid()
      modifies this`editing, panels
      ensures panels.Valid()
      ensures editing == (old(editing) && !Panels.Leaves(old(panels.currentActive), confirmed))
      ensures if Panels.Leaves(old(panels.currentActive), confirmed)
              then panels.currentActive == Some(if old(editing) then Panels.GuestTable else Panels.ReservationTable)
              else unchanged(panels)
    {
      var leaves := Panels.Leaves(panels.currentActive, confirmed);
      if editing {
        panels.SwitchPanel(Panels.GuestTable, confirmed);
        if leaves {
          editing := false;
        }
      } else {
        panels.SwitchPanel(Panels.ReservationTable, confirmed);
      }
    }

    /** The confirm button (`GuestAddNextButtonAction`): an incompletely filled form reports its
        problems. Otherwise the guest in the form joins the guests entered so far and the step
        the count calls for is taken: an edited guest is stored at once and its new row replaces
        the edited one; the last guest of a check-in stores them all and checks the reservation
        in; any other guest only advances the count. The fields are then reset. */
    method AddNext(guestTable: GuestTable, reservationTable: ReservationTable, panels: Panels.ContentPanelController,
                   editedRow: int, reservationRow: int, today: Day) returns (o: Outcome)
      requires reservationId.Some?
      requires reservationTable.Valid() && panels.Valid() && guestTable.store == reservationTable.store
      modifies this`checkInGuests, this`guestNum, this`confirmText, this`editing, this`fields
      modifies guestTable`rows, guestTable.store`guests, guestTable.store`nextGuestId
      modifies reservationTable`rows, reservationTable.store`reservations, panels
      ensures reservationTable.Valid() && panels.Valid()
      ensures !GuestRules.IsAllFilled(old(fields)) ==>
                o == Warned(GuestNotFilled(GuestRules.Violations(old(fields))))
                && checkInGuests == old(checkInGuests) && fields == old(fields) && guestNum == old(guestNum)
                && editing == old(editing) && confirmText == old(confirmText)
                && guestTable.store.guests == old(guestTable.store.guests) && guestTable.rows == old(guestTable.rows)
                && reservationTable.store.reservations == old(reservationTable.store.reservations)
                && reservationTable.rows == old(reservationTable.rows) && unchanged(panels)
      ensures GuestRules.IsAllFilled(old(fields)) ==>
                var f := old(fields);
                var all := old(checkInGuests) + [GuestData(f.name, room, f.idCard, f.generation, f.info, reservationId.value, id)];
                var stored := CreatedAll(old(guestTable.store.guests), all, old(guestTable.store.nextGuestId));
                checkInGuests == all
                && match GuestRules.Step(old(editing), old(guestNum), numberToCheckIn)
                   case NextGuest =>
                     o == Done && fields == EmptyGuestForm && guestNum == old(guestNum) + 1 && editing == old(editing)
                     && confirmText == (if old(guestNum) == numberToCheckIn - 1 then GuestRules.ConfirmLabel else old(confirmText))
                     && guestTable.store.guests == old(guestTable.store.guests) && guestTable.rows == old(guestTable.rows)
                     && reservationTable.store.reservations == old(reservationTable.store.reservations)
                     && reservationTable.rows == old(reservationTable.rows) && unchanged(panels)
                   case SaveEdited =>
                     (o == Done <==> stored.Ok? && 0 <= editedRow < |old(guestTable.rows)| + |all|)
                     && guestNum == old(guestNum) && confirmText == old(confirmText)
                     && (o != Done ==> editing == old(editing))
                     && reservationTable.store.reservations == old(reservationTable.store.reservations)
                     && reservationTable.rows == old(reservationTable.rows)
                     && (o == Done ==>
                           fields == EmptyGuestForm && !editing && guestTable.store.guests == stored.value
                           && guestTable.rows == WithoutRow(old(guestTable.rows) + PersistedAll(all, old(guestTable.store.nextGuestId)), editedRow)
                           && panels.currentActive == Some(Panels.GuestTable))
                   case SaveCheckIn =>
                     (o == Done <==> stored.Ok? && 0 <= reservationRow < |old(reservationTable.rows)|)
                     && editing == old(editing) && guestNum == old(guestNum) && confirmText == old(confirmText)
                     && (o == Done ==>
                           var doing := old(reservationTable.rows)[reservationRow].data.(state := Doing);
                           fields == EmptyGuestForm && guestTable.store.guests == stored.value
                           && guestTable.rows == old(guestTable.rows) + PersistedAll(all, old(guestTable.store.nextGuestId))
                           && reservationTable.store.reservations == ReplaceReservation(old(reservationTable.store.reservations), doing)
                           && reservationTable.rows == old(reservationTable.rows)[reservationRow := RowOf(doing, today)]
                           && panels.currentActive == Some(Panels.GuestTable))
    {
      if !GuestRules.IsAllFilled(fields) {
        return Warned(GuestNotFilled(GuestRules.Violations(fields)));
      }
      var guest := GuestData(fields.name, room, fields.idCard, fields.generation, fields.info, reservationId.value, id);
      checkInGuests := checkInGuests + [guest];
      if editing {
        o := SaveEdited(guestTable, panels, editedRow);
        if o != Done {
          return;
        }
      } else if guestNum == numberToCheckIn - 1 {
        confirmText := GuestRules.ConfirmLabel;
        guestNum := guestNum + 1;
      } else if guestNum == numberToCheckIn {
        o := SaveCheckIn(guestTable, reservationTable, panels, reservationRow, today);
        if o != Done {
          return;
        }
      } else {
        guestNum := guestNum + 1;
      }
      fields := EmptyGuestForm;
      o := Done;
    }

    /** The step of the confirm button for an edited guest: the guests entered are stored, the
        edited row gives way to their new rows and the guest table is shown. */
    method SaveEdited(guestTable: GuestTable, panels: Panels.ContentPanelController, editedRow: int)
      returns (o: Outcome)
      requires panels.Valid()
      modifies this`editing, guestTable`rows, guestTable.store`guests, guestTable.store`nextGuestId, panels
      ensures panels.Valid()
      ensures var stored := CreatedAll(old(guestTable.store.guests), checkInGuests, old(guestTable.store.nextGuestId));
              (o == Done <==> stored.Ok? && 0 <= editedRow < |old(guestTable.rows)| + |checkInGuests|)
              && (o != Done ==> editing == old(editing))
              && (o == Done ==>
                    !editing && guestTable.store.guests == stored.value
                    && guestTable.rows
                         == WithoutRow(old(guestTable.rows) + PersistedAll(checkInGuests, old(guestTable.store.nextGuestId)), editedRow)
                    && panels.currentActive == Some(Panels.GuestTable))
    {
      o := guestTable.CreateGuests(checkInGuests);
      if o != Done {
        return;
      }
      o := guestTable.RemoveEditingRow(editedRow);
      if o != Done {
        return;
      }
      panels.SwitchPanelNow(Panels.GuestTable);
      editing := false;
    }

    /** The step of the confirm button for the last guest of a check-in: the guests entered are
        stored, the guest table is shown and the reservation is checked in. */
    method SaveCheckIn(guestTable: GuestTable, reservationTable: ReservationTable, panels: Panels.ContentPanelController,
                       reservationRow: int, today: Day) returns (o: Outcome)
      requires reservationTable.Valid() && panels.Valid() && guestTable.store == reservationTable.store
      modifies guestTable`rows, guestTable.store`guests, guestTable.store`nextGuestId
      modifies reservationTable`rows, reservationTable.store`reservations, panels
      ensures reservationTable.Valid() && panels.Valid()
      ensures var stored := CreatedAll(old(guestTable.store.guests), checkInGuests, old(guestTable.store.nextGuestId));
              (o == Done <==> stored.Ok? && 0 <= reservationRow < |old(reservationTable.rows)|)
              && (o == Done ==>
                    var doing := old(reservationTable.rows)[reservationRow].data.(state := Doing);
                    guestTable.store.guests == stored.value
                    && guestTable.rows == old(guestTable.rows) + PersistedAll(checkInGuests, old(guestTable.store.nextGuestId))
                    && reservationTable.store.reservations == ReplaceReservation(old(reservationTable.store.reservations), doing)
                    && reservationTable.rows == old(reservationTable.rows)[reservationRow := RowOf(doing, today)]
                    && panels.currentActive == Some(Panels.GuestTable))
    {
      o := guestTable.CreateGuests(checkInGuests);
      if o != Done {
        return;
      }
      panels.SwitchPanelNow(Panels.GuestTable);
      o := reservationTable.CheckInReservation(reservationRow, today);
    }
  }

  /** Whether the selected guests all belong to the reservation of the first of them. */
  method SharedReservation(selected: seq<GuestData>) returns (shared: bool)
    requires |selected| > 0
    ensures shared <==> forall k :: 0 <= k < |selected| ==> selected[k].reservationId == selected[0].reservationId
  {
    var resId := selected[0].reservationId;
    var i := 1;
    while i < |selected|
      invariant 1 <= i <= |selected|
      invariant forall k :: 0 <= k < i ==> selected[k].reservationId == resId
    {
      if selected[i].reservationId != resId {
        return false;
      }
      i := i + 1;
    }
    return true;
  }

  /** The first pass of `getAvailableRooms`: the number of guests recorded in each room, and the
      rooms holding guests of the reservation. */
  method Occupancy(guests: seq<GuestData>, resId: int) returns (occupied: map<string, int>, present: set<string>)
    ensures forall key :: Lookup(occupied, key) == Occupants(guests, key)
    ensures forall key :: key in present <==> Present(guests, resId, key)
  {
    occupied := map[];
    present := {};
    var i := 0;
    while i < |guests|
      invariant 0 <= i <= |guests|
      invariant forall key :: Lookup(occupied, key) == Occupants(guests[..i], key)
      invariant forall key :: key in present <==> Present(guests[..i], resId, key)
    {
      var room := guests[i].room;
      assert guests[..i + 1] == guests[..i] + [guests[i]];
      var counted := occupied[room := Lookup(occupied, room) + 1];
      forall key ensures Lookup(counted, key) == Occupants(guests[..i + 1], key) {
        OccupantsAppend(guests[..i], guests[i], key);
      }
      occupied := counted;
      PresentAppend(guests[..i], guests[i], resId);
      if guests[i].reservationId == resId {
        present := present + {room};
      }
      i := i + 1;
    }
    assert guests[..i] == guests;
  }

  /** The second pass of `getAvailableRooms`: the keys of the eligible rooms, in table order. */
  method EligibleKeys(rooms: seq<RoomData>, guests: seq<GuestData>, count: int, resId: int,
                      occupied: map<string, int>, present: set<string>) returns (offered: seq<string>)
    requires forall key :: Lookup(occupied, key) == Occupants(guests, key)
    requires forall key :: key in present <==> Present(guests, resId, key)
    ensures offered == AvailableRooms(rooms, guests, count, resId)
  {
    offered := [];
    var j := 0;
    while j < |rooms|
      invariant 0 <= j <= |rooms|
      invariant offered == AvailableRooms(rooms[..j], guests, count, resId)
    {
      var r := rooms[j];
      assert rooms[..j + 1][..j] == rooms[..j] && rooms[..j + 1][j] == r;
      if (r.status == NotOccupied || r.key in present) && count + Lookup(occupied, r.key) <= r.beds {
        offered := offered + [r.key];
      }
      j := j + 1;
    }
    assert rooms[..j] == rooms;
  }

  /** A counted room is emptied exactly when it holds as many stored guests as are leaving it. */
  lemma CountedRoomVacates(gs: seq<GuestData>, selected: seq<GuestData>, rooms: map<string, int>, key: string)
    requires rooms.Keys == SourceRooms(selected) && key in rooms
    requires forall k :: k != "" ==> Lookup(rooms, k) == MovingCount(selected, k)
    ensures (|GuestsInRoom(gs, key)| == Lookup(rooms, key)) == Vacated(gs, selected, key)
  {
    MovingCountPositive(selected, key);
    var k :| 0 <= k < |selected| && selected[k].room != "" && selected[k].room == key;
  }

  /** The first pass of `moveGuestsBetweenRooms`: how many of the selected guests leave each
      room, the empty key aside. */
  method CountLeaving(selected: seq<GuestData>) returns (rooms: map<string, int>)
    ensures rooms.Keys == SourceRooms(selected)
    ensures forall key :: key != "" ==> Lookup(rooms, key) == MovingCount(selected, key)
  {
    rooms := map[];
    var i := 0;
    while i < |selected|
      invariant 0 <= i <= |selected|
      invariant rooms.Keys == SourceRooms(selected[..i])
      invariant forall key :: key != "" ==> Lookup(rooms, key) == MovingCount(selected[..i], key)
    {
      var checkingRoom := selected[i].room;
      assert selected[..i + 1] == selected[..i] + [selected[i]];
      SourceRoomsAppend(selected[..i], selected[i]);
      ghost var before := rooms;
      if checkingRoom != "" {
        rooms := rooms[checkingRoom := Lookup(rooms, checkingRoom) + 1];
      }
      forall key | key != "" ensures Lookup(rooms, key) == MovingCount(selected[..i + 1], key) {
        OccupantsAppend(selected[..i], selected[i], key);
        assert Lookup(before, key) == MovingCount(selected[..i], key);
      }
      i := i + 1;
    }
    assert selected[..i] == selected;
  }

  /** A map lookup with 0 for a missing key (`getOrDefault(key, 0)`). */
  function Lookup(m: map<string, int>, key: string): int {
    if key in m then m[key] else 0
  }

  /** Nothing an assignment touches has changed. */
  ghost predicate Unchanged(rows: seq<GuestData>, guests: seq<GuestData>, rooms: seq<RoomData>, t: GuestTable, rt: RoomTable)
    reads t, t.store, rt
  {
    t.rows == rows && t.store.guests == guests && rt.rows == rooms
  }
}
