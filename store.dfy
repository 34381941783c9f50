/**
 * The persistent store behind the user interface: the RESERVATION, GUEST and ROOM tables
 * and the TAX setting, with the create, update, delete and find operations of the data access
 * objects. Updates and deletes act on every record whose key matches, as an SQL statement
 * with a `WHERE ID = …` clause does, and fail when the key is null or matches nothing.
 */
module Store {
  import opened Wrappers
  import opened Reservations
  import opened Guests
  import opened Rooms

  datatype StoreError =
    | NullId     // IllegalArgumentException: the entity has no id
    | NotFound   // DataAccessException: no record was changed

  // ---------------------------------------------------------------- reservations

  predicate HasReservation(s: seq<ReservationData>, id: Option<int>) {
    exists i :: 0 <= i < |s| && s[i].id == id
  }

  /** The table after `UPDATE RESERVATION SET … WHERE ID = r.id`. */
  function ReplaceReservation(s: seq<ReservationData>, r: ReservationData): seq<ReservationData> {
    seq(|s|, i requires 0 <= i < |s| => if s[i].id == r.id then r else s[i])
  }

  /** `findById`: the first record with the id, or nothing (`null`). */
  function FindReservation(s: seq<ReservationData>, id: int): (r: Option<ReservationData>)
    ensures r.Some? <==> HasReservation(s, Some(id))
    ensures r.Some? ==> r.value in s && r.value.id == Some(id)
  {
    if s == [] then None
    else if s[0].id == Some(id) then Some(s[0])
    else
      var rest := FindReservation(s[1..], id);
      assert HasReservation(s, Some(id)) ==> s[0].id == Some(id) || HasReservation(s[1..], Some(id)) by {
        if HasReservation(s, Some(id)) {
          var i :| 0 <= i < |s| && s[i].id == Some(id);
          if i > 0 { assert s[1..][i - 1].id == Some(id); }
        }
      }
      rest
  }

  // ---------------------------------------------------------------- guests

  predicate HasGuest(s: seq<GuestData>, id: Option<int>) {
    exists i :: 0 <= i < |s| && s[i].id == id
  }

  /** The table after `UPDATE GUEST SET … WHERE ID = g.id`. */
  function ReplaceGuest(s: seq<GuestData>, g: GuestData): seq<GuestData> {
    seq(|s|, i requires 0 <= i < |s| => if s[i].id == g.id then g else s[i])
  }

  /** The table after deleting the guests whose id is in `ids`, the others kept in order. */
  function WithoutGuests(s: seq<GuestData>, ids: set<Option<int>>): (r: seq<GuestData>)
    ensures |r| <= |s|
    ensures forall g :: g in r <==> g in s && g.id !in ids
  {
    if s == [] then []
    else if s[0].id in ids then WithoutGuests(s[1..], ids)
    else [s[0]] + WithoutGuests(s[1..], ids)
  }

  /** Deleting one more id after a set of them is deleting the larger set. */
  lemma {:induction false} WithoutGuestsTwice(s: seq<GuestData>, ids: set<Option<int>>, id: Option<int>)
    ensures WithoutGuests(WithoutGuests(s, ids), {id}) == WithoutGuests(s, ids + {id})
  {
    if s != [] {
      WithoutGuestsTwice(s[1..], ids, id);
    }
  }

  /** `findByRoomKey`: the guests placed in the room, in table order. */
  function GuestsInRoom(s: seq<GuestData>, key: string): (r: seq<GuestData>)
    ensures |r| <= |s|
    ensures forall g :: g in r <==> g in s && g.room == key
  {
    if s == [] then []
    else if s[0].room == key then [s[0]] + GuestsInRoom(s[1..], key)
    else GuestsInRoom(s[1..], key)
  }

  /** `findByResId`: the guests staying under the reservation, in table order. */
  function GuestsOfReservation(s: seq<GuestData>, resId: int): (r: seq<GuestData>)
    ensures |r| <= |s|
    ensures forall g :: g in r <==> g in s && g.reservationId == resId
  {
    if s == [] then []
    else if s[0].reservationId == resId then [s[0]] + GuestsOfReservation(s[1..], resId)
    else GuestsOfReservation(s[1..], resId)
  }

  /** `countAllWithRoom`: the guests whose room is not empty. */
  function CountWithRoom(s: seq<GuestData>): (n: nat)
    ensures n <= |s|
    ensures n == 0 <==> forall i :: 0 <= i < |s| ==> s[i].room == ""
  {
    if s == [] then 0
    else (if s[0].room != "" then 1 else 0) + CountWithRoom(s[1..])
  }

  // ---------------------------------------------------------------- rooms

  predicate HasRoom(s: seq<RoomData>, key: string) {
    exists i :: 0 <= i < |s| && s[i].key == key
  }

  /** The table after `UPDATE ROOM SET … WHERE NUMBER = r.key`. */
  function ReplaceRoom(s: seq<RoomData>, r: RoomData): seq<RoomData> {
    seq(|s|, i requires 0 <= i < |s| => if s[i].key == r.key then r else s[i])
  }

  /** `findByKey`: the first room with the number, or nothing (`null`). */
  function FindRoom(s: seq<RoomData>, key: string): (r: Option<RoomData>)
    ensures r.Some? <==> HasRoom(s, key)
    ensures r.Some? ==> r.value in s && r.value.key == key
  {
    if s == [] then None
    else if s[0].key == key then Some(s[0])
    else
      var rest := FindRoom(s[1..], key);
      assert HasRoom(s, key) ==> s[0].key == key || HasRoom(s[1..], key) by {
        if HasRoom(s, key) {
          var i :| 0 <= i < |s| && s[i].key == key;
          if i > 0 { assert s[1..][i - 1].key == key; }
        }
      }
      rest
  }

  // ---------------------------------------------------------------- the store

  class HotelStore {
    var reservations: seq<ReservationData>
    var guests: seq<GuestData>
    var rooms: seq<RoomData>
    /** The TAX entry of the DATA table, in percent. */
    var tax: int
    /** The next value of each table's generated identity column. */
    var nextReservationId: int
    var nextGuestId: int

    /** A fresh database: no reservations or guests, the seeded rooms and a 2 % tax. */
    constructor ()
      ensures reservations == [] && guests == [] && rooms == SeededRooms() && tax == 2
      ensures nextReservationId == 1 && nextGuestId == 1
    {
      reservations, guests, rooms, tax := [], [], SeededRooms(), 2;
      nextReservationId, nextGuestId := 1, 1;
    }

    method UpdateReservation(r: ReservationData) returns (result: Result<(), StoreError>)
      modifies this`reservations
      ensures r.id.None? ==> result == Err(NullId)
      ensures r.id.Some? && result.Err? ==> result.error == NotFound
      ensures r.id.Some? ==> (result.Ok? <==> HasReservation(old(reservations), r.id))
      ensures result.Err? ==> reservations == old(reservations)
      ensures result.Ok? ==> reservations == ReplaceReservation(old(reservations), r)
    {
      if r.id.None? {
        return Err(NullId);
      }
      if !HasReservation(reservations, r.id) {
        return Err(NotFound);
      }
      reservations := ReplaceReservation(reservations, r);
      result := Ok(());
    }

    /** `create`: a reservation with an id is updated; one without is inserted and given the
        next generated id. */
    method CreateReservation(r: Reservation) returns (result: Result<(), StoreError>)
      modifies this`reservations, this`nextReservationId, r`id
      ensures old(r.id).Some? ==> r.id == old(r.id) && nextReservationId == old(nextReservationId)
      ensures old(r.id).Some? ==> (result.Ok? <==> HasReservation(old(reservations), r.id))
      ensures old(r.id).Some? && result.Ok? ==> reservations == ReplaceReservation(old(reservations), r.Data())
      ensures old(r.id).None? ==> result.Ok? && r.id == Some(old(nextReservationId))
      ensures old(r.id).None? ==> nextReservationId == old(nextReservationId) + 1 && reservations == old(reservations) + [r.Data()]
      ensures result.Err? ==> result.error == NotFound && reservations == old(reservations)
      ensures r.Data() == old(r.Data()).(id := r.id)
    {
      if r.id.Some? {
        result := UpdateReservation(r.Data());
        return;
      }
      r.SetId(Some(nextReservationId));
      nextReservationId := nextReservationId + 1;
      reservations := reservations + [r.Data()];
      result := Ok(());
    }

    method UpdateGuest(g: GuestData) returns (result: Result<(), StoreError>)
      modifies this`guests
      ensures g.id.None? ==> result == Err(NullId)
      ensures g.id.Some? && result.Err? ==> result.error == NotFound
      ensures g.id.Some? ==> (result.Ok? <==> HasGuest(old(guests), g.id))
      ensures result.Err? ==> guests == old(guests)
      ensures result.Ok? ==> guests == ReplaceGuest(old(guests), g)
    {
      if g.id.None? {
        return Err(NullId);
      }
      if !HasGuest(guests, g.id) {
        return Err(NotFound);
      }
      guests := ReplaceGuest(guests, g);
      result := Ok(());
    }

    /** `create`: a guest with an id is updated; one without is inserted and given the next
        generated id. */
    method CreateGuest(g: Guest) returns (result: Result<(), StoreError>)
      modifies this`guests, this`nextGuestId, g`id
      ensures old(g.id).Some? ==> g.id == old(g.id) && nextGuestId == old(nextGuestId)
      ensures old(g.id).Some? ==> (result.Ok? <==> HasGuest(old(guests), g.id))
      ensures old(g.id).Some? && result.Ok? ==> guests == ReplaceGuest(old(guests), g.Data())
      ensures old(g.id).None? ==> result.Ok? && g.id == Some(old(nextGuestId))
      ensures old(g.id).None? ==> nextGuestId == old(nextGuestId) + 1 && guests == old(guests) + [g.Data()]
      ensures result.Err? ==> guests == old(guests)
      ensures g.Data() == old(g.Data()).(id := g.id)
    {
      if g.id.Some? {
        result := UpdateGuest(g.Data());
        return;
      }
      g.SetId(Some(nextGuestId));
      nextGuestId := nextGuestId + 1;
      guests := guests + [g.Data()];
      result := Ok(());
    }

    method DeleteGuest(g: GuestData) returns (result: Result<(), StoreError>)
      modifies this`guests
      ensures g.id.None? ==> result == Err(NullId)
      ensures g.id.Some? && result.Err? ==> result.error == NotFound
      ensures g.id.Some? ==> (result.Ok? <==> HasGuest(old(guests), g.id))
      ensures result.Err? ==> guests == old(guests)
      ensures result.Ok? ==> guests == WithoutGuests(old(guests), {g.id})
    {
      if g.id.None? {
        return Err(NullId);
      }
      if !HasGuest(guests, g.id) {
        return Err(NotFound);
      }
      guests := WithoutGuests(guests, {g.id});
      result := Ok(());
    }

    method UpdateRoom(r: RoomData) returns (result: Result<(), StoreError>)
      modifies this`rooms
      ensures result.Ok? <==> HasRoom(old(rooms), r.key)
      ensures result.Err? ==> result.error == NotFound && rooms == old(rooms)
      ensures result.Ok? ==> rooms == ReplaceRoom(old(rooms), r)
    {
      if !HasRoom(rooms, r.key) {
        return Err(NotFound);
      }
      rooms := ReplaceRoom(rooms, r);
      result := Ok(());
    }
  }
}
