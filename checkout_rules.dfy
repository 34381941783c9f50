/**
 * The rules of the room table: when a check-out of the selected rooms may proceed, what it
 * charges, and when the number of beds in a room may be changed.
 */
module CheckoutRules {
  import opened Wrappers
  import opened Guests
  import opened Rooms

  function KeysOf(rooms: seq<RoomData>): set<string> {
    set i | 0 <= i < |rooms| :: rooms[i].key
  }

  /** `Collectors.toMap` fails on a repeated key. */
  predicate DistinctKeys(rooms: seq<RoomData>) {
    forall i, j :: 0 <= i < j < |rooms| ==> rooms[i].key != rooms[j].key
  }

  /** The stored guests recorded in one of the rooms, in table order. */
  function GuestsInRooms(gs: seq<GuestData>, keys: set<string>): (r: seq<GuestData>)
    ensures |r| <= |gs|
    ensures forall g :: g in r <==> g in gs && g.room in keys
  {
    if gs == [] then []
    else (if gs[0].room in keys then [gs[0]] else []) + GuestsInRooms(gs[1..], keys)
  }

  datatype CheckOutVerdict =
    | NotOccupiedWarning                            // nobody to check out, or a selected room is vacant
    | MixedReservationsWarning                      // the guests belong to more than one reservation
    | Proceed(resId: int, leaving: seq<GuestData>)  // the guests of one reservation leave

  /** The checks made before a check-out of the selected rooms. */
  function Verdict(selected: seq<RoomData>, gs: seq<GuestData>): (v: CheckOutVerdict)
    ensures v.Proceed? ==> v.leaving == GuestsInRooms(gs, KeysOf(selected))
  {
    var leaving := GuestsInRooms(gs, KeysOf(selected));
    if |leaving| == 0 || exists i :: 0 <= i < |selected| && selected[i].status == NotOccupied then NotOccupiedWarning
    else if exists j :: 0 <= j < |leaving| && leaving[j].reservationId != leaving[0].reservationId then MixedReservationsWarning
    else Proceed(leaving[0].reservationId, leaving)
  }

  /** A check-out proceeds exactly when every selected room is occupied and the guests recorded in
      them are some guests, all of one reservation; it then removes exactly those guests. */
  lemma VerdictProceedsIff(selected: seq<RoomData>, gs: seq<GuestData>)
    ensures Verdict(selected, gs).Proceed?
        <==> (forall i :: 0 <= i < |selected| ==> selected[i].status == Occupied)
             && (exists g :: g in gs && g.room in KeysOf(selected))
             && forall g1, g2 :: g1 in gs && g1.room in KeysOf(selected) && g2 in gs && g2.room in KeysOf(selected)
                                 ==> g1.reservationId == g2.reservationId
    ensures Verdict(selected, gs).Proceed? ==>
              var v := Verdict(selected, gs);
              |v.leaving| > 0
              && (forall g :: g in v.leaving <==> g in gs && g.room in KeysOf(selected))
              && forall g :: g in v.leaving ==> g.reservationId == v.resId
  {
    var leaving := GuestsInRooms(gs, KeysOf(selected));
    if |leaving| > 0 {
      assert leaving[0] in leaving;
      if exists j :: 0 <= j < |leaving| && leaving[j].reservationId != leaving[0].reservationId {
        var j :| 0 <= j < |leaving| && leaving[j].reservationId != leaving[0].reservationId;
        assert leaving[j] in leaving;
      } else {
        forall g | g in leaving ensures g.reservationId == leaving[0].reservationId {
          var j :| 0 <= j < |leaving| && leaving[j] == g;
        }
      }
    } else {
      assert forall g :: g in gs && g.room in KeysOf(selected) ==> g in leaving;
    }
  }

  // ---------------------------------------------------------------- the charge

  /** The selected rooms by key, as `Collectors.toMap(Room::getKey, room -> room)` builds them. */
  function RoomsByKey(rooms: seq<RoomData>): (m: map<string, RoomData>)
    ensures m.Keys == KeysOf(rooms)
  {
    if rooms == [] then map[]
    else
      var n := |rooms| - 1;
      assert KeysOf(rooms) == KeysOf(rooms[..n]) + {rooms[n].key} by {
        assert forall i :: 0 <= i < n ==> rooms[..n][i] == rooms[i];
      }
      RoomsByKey(rooms[..n])[rooms[n].key := rooms[n]]
  }

  /** The price of each leaving guest's room for each night of the stay, summed. */
  function Charge(leaving: seq<GuestData>, rooms: map<string, RoomData>, nights: int): real
    requires forall g :: g in leaving ==> g.room in rooms
  {
    if leaving == [] then 0.0
    else rooms[leaving[0].room].price * nights as real + Charge(leaving[1..], rooms, nights)
  }

  /** The sum of the leaving guests' room prices for one night. */
  function NightlyRate(leaving: seq<GuestData>, rooms: map<string, RoomData>): real
    requires forall g :: g in leaving ==> g.room in rooms
  {
    if leaving == [] then 0.0 else rooms[leaving[0].room].price + NightlyRate(leaving[1..], rooms)
  }

  /** The charge is the number of nights times the nightly rate of the guests' rooms; the room
      price is charged once per guest in it. */
  lemma {:induction false} ChargeIsNightsTimesRate(leaving: seq<GuestData>, rooms: map<string, RoomData>, nights: int)
    requires forall g :: g in leaving ==> g.room in rooms
    ensures Charge(leaving, rooms, nights) == nights as real * NightlyRate(leaving, rooms)
  {
    if leaving != [] {
      assert forall g :: g in leaving[1..] ==> g in leaving;
      ChargeIsNightsTimesRate(leaving[1..], rooms, nights);
    }
  }

  /** The tax on a price, for a tax rate in percent: `price * tax / 100`. */
  function Tax(price: real, tax: int): real {
    price * tax as real / 100.0
  }

  /** The room information dialog computes the tax as `(price / 100) * tax`; on exact numbers the
      two formulas agree, and the total is the price plus the tax. */
  lemma TaxFormulasAgree(price: real, tax: int)
    ensures (price / 100.0) * tax as real == Tax(price, tax)
    ensures 0 <= tax && 0.0 <= price ==> price <= price + Tax(price, tax)
  {
  }

  // ---------------------------------------------------------------- beds

  datatype BedWarning = NegativeBeds | TooManyBeds | Full

  /** The dialog's answer: 0 adds a bed, 1 removes one, anything else (the dialog was closed)
      keeps the number. */
  function AdjustedBeds(beds: int, option: int): int {
    if option == 0 then beds + 1 else if option == 1 then beds - 1 else beds
  }

  /** `roomEditAction`'s checks on the new number of beds `n`: at least one, at most seven, and
      not below both the stored number and the number of guests in the room. */
  function BedEdit(n: int, storedBeds: int, occupants: int): (r: Result<int, BedWarning>)
    ensures r.Ok? ==> r.value == n && 1 <= n <= 7
    ensures r.Err? ==> (r.error == NegativeBeds <==> n < 1)
    ensures r.Err? && r.error == Full ==> n < occupants
  {
    if n < 1 then Err(NegativeBeds)
    else if n > 7 then Err(TooManyBeds)
    else if n < storedBeds && n < occupants then Err(Full)
    else Ok(n)
  }

  /** A room that holds no more guests than beds still does after an accepted bed change, and a
      change that keeps every guest bedded is never refused for fullness. */
  lemma BedEditKeepsGuestsBedded(n: int, storedBeds: int, occupants: int)
    requires occupants <= storedBeds
    ensures BedEdit(n, storedBeds, occupants).Ok? ==> occupants <= n
    ensures 1 <= n <= 7 && occupants <= n ==> BedEdit(n, storedBeds, occupants) == Ok(n)
  {
  }
}
