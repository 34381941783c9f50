/**
 * The rules of the guest table's room assignment: which rooms are offered for a selection of
 * guests, which rooms the move empties, and what happens to the rooms' status.
 */
module AllocationRules {
  import opened Wrappers
  import opened Guests
  import opened Rooms
  import opened Store

  /** The guests recorded in the room. */
  function Occupants(gs: seq<GuestData>, key: string): (n: nat)
    ensures n <= |gs|
  {
    if gs == [] then 0 else (if gs[0].room == key then 1 else 0) + Occupants(gs[1..], key)
  }

  /** `findByRoomKey(key).size()` counts the room's occupants. */
  lemma {:induction false} GuestsInRoomCountsOccupants(gs: seq<GuestData>, key: string)
    ensures |GuestsInRoom(gs, key)| == Occupants(gs, key)
  {
    if gs != [] {
      GuestsInRoomCountsOccupants(gs[1..], key);
    }
  }

  lemma {:induction false} OccupantsAppend(gs: seq<GuestData>, g: GuestData, key: string)
    ensures Occupants(gs + [g], key) == Occupants(gs, key) + (if g.room == key then 1 else 0)
  {
    if gs != [] {
      assert (gs + [g])[1..] == gs[1..] + [g];
      OccupantsAppend(gs[1..], g, key);
    }
  }

  /** Replacing one guest's record moves one occupant out of the old record's room and into the
      new record's room. */
  lemma {:induction false} OccupantsUpdate(gs: seq<GuestData>, i: int, g: GuestData, key: string)
    requires 0 <= i < |gs|
    ensures Occupants(gs[i := g], key) + (if gs[i].room == key then 1 else 0)
         == Occupants(gs, key) + (if g.room == key then 1 else 0)
  {
    if i == 0 {
      assert gs[i := g][1..] == gs[1..];
    } else {
      assert gs[i := g][1..] == gs[1..][i - 1 := g];
      OccupantsUpdate(gs[1..], i - 1, g, key);
    }
  }

  /** Some guest of the reservation is recorded in the room. */
  predicate Present(gs: seq<GuestData>, resId: int, key: string) {
    exists j :: 0 <= j < |gs| && gs[j].reservationId == resId && gs[j].room == key
  }

  /** A room is offered to `count` guests of reservation `resId` when it is vacant or already
      holds some of that reservation's guests, and its beds take its occupants and the newcomers. */
  predicate Eligible(r: RoomData, gs: seq<GuestData>, count: int, resId: int) {
    (r.status == NotOccupied || Present(gs, resId, r.key)) && count + Occupants(gs, r.key) <= r.beds
  }

  /** `getAvailableRooms`: the keys of the eligible rooms, in table order. */
  function AvailableRooms(rooms: seq<RoomData>, gs: seq<GuestData>, count: int, resId: int): (r: seq<string>)
    ensures |r| <= |rooms|
    ensures forall k :: k in r <==> exists i :: 0 <= i < |rooms| && rooms[i].key == k && Eligible(rooms[i], gs, count, resId)
  {
    if rooms == [] then []
    else
      var n := |rooms| - 1;
      var rest := AvailableRooms(rooms[..n], gs, count, resId);
      assert forall i :: 0 <= i < n ==> rooms[..n][i] == rooms[i];
      rest + (if Eligible(rooms[n], gs, count, resId) then [rooms[n].key] else [])
  }

  /** A room offered to a selection is never one whose beds the selection would overfill. */
  lemma OfferedRoomsFit(rooms: seq<RoomData>, gs: seq<GuestData>, count: int, resId: int, i: int)
    requires 0 <= i < |rooms| && rooms[i].key in AvailableRooms(rooms, gs, count, resId)
    requires forall j :: 0 <= j < |rooms| && rooms[j].key == rooms[i].key ==> j == i
    ensures count + Occupants(gs, rooms[i].key) <= rooms[i].beds
  {
  }

  // ---------------------------------------------------------------- moving the selection

  /** The selected guests recorded in the room (`moveGuestsBetweenRooms` counts these per room):
      the room's occupants among the selection. */
  function MovingCount(selected: seq<GuestData>, key: string): nat {
    Occupants(selected, key)
  }

  /** A room the move empties: not the empty key, some selected guest leaves it, and as many
      guests are recorded in it as are leaving. */
  predicate Vacated(gs: seq<GuestData>, selected: seq<GuestData>, key: string) {
    key != "" && MovingCount(selected, key) > 0 && |GuestsInRoom(gs, key)| == MovingCount(selected, key)
  }

  /** The selection, as a mask over the stored guests. */
  function Select(gs: seq<GuestData>, moving: seq<bool>): seq<GuestData>
    requires |moving| == |gs|
  {
    if gs == [] then [] else (if moving[0] then [gs[0]] else []) + Select(gs[1..], moving[1..])
  }

  /** The stored guests after the selected ones are recorded in the target room. */
  function Moved(gs: seq<GuestData>, moving: seq<bool>, target: string): (r: seq<GuestData>)
    requires |moving| == |gs|
    ensures |r| == |gs|
  {
    if gs == [] then [] else [if moving[0] then gs[0].(room := target) else gs[0]] + Moved(gs[1..], moving[1..], target)
  }

  /** Each guest of the selection, and no other, is recorded in the target room. */
  lemma {:induction false} MovedAt(gs: seq<GuestData>, moving: seq<bool>, target: string)
    requires |moving| == |gs|
    ensures forall i :: 0 <= i < |gs| ==>
              Moved(gs, moving, target)[i] == if moving[i] then gs[i].(room := target) else gs[i]
  {
    if gs != [] {
      MovedAt(gs[1..], moving[1..], target);
    }
  }

  /** The number of guests in a selection. */
  function Selected(moving: seq<bool>): nat {
    if moving == [] then 0 else (if moving[0] then 1 else 0) + Selected(moving[1..])
  }

  lemma {:induction false} SelectLength(gs: seq<GuestData>, moving: seq<bool>)
    requires |moving| == |gs|
    ensures |Select(gs, moving)| == Selected(moving)
  {
    if gs != [] {
      SelectLength(gs[1..], moving[1..]);
    }
  }

  /** How many selected guests leave a room, and how many guests a room holds, after the move. */
  lemma {:induction false} MovedOccupants(gs: seq<GuestData>, moving: seq<bool>, target: string, key: string)
    requires |moving| == |gs|
    ensures MovingCount(Select(gs, moving), key) <= Occupants(gs, key)
    ensures Occupants(Moved(gs, moving, target), key)
         == Occupants(gs, key) - MovingCount(Select(gs, moving), key) + (if key == target then Selected(moving) else 0)
  {
    if gs != [] {
      MovedOccupants(gs[1..], moving[1..], target, key);
      var rest := Select(gs[1..], moving[1..]);
      if moving[0] {
        assert Select(gs, moving) == [gs[0]] + rest;
        assert ([gs[0]] + rest)[1..] == rest;
      } else {
        assert Select(gs, moving) == rest;
      }
    }
  }

  /** Assigning guests to an offered room never puts more guests in it than it has beds. */
  lemma AssignedRoomNotOverfilled(gs: seq<GuestData>, moving: seq<bool>, r: RoomData, resId: int)
    requires |moving| == |gs|
    requires Eligible(r, gs, |Select(gs, moving)|, resId)
    ensures Occupants(Moved(gs, moving, r.key), r.key) <= r.beds
  {
    MovedOccupants(gs, moving, r.key, r.key);
    SelectLength(gs, moving);
  }

  // ---------------------------------------------------------------- the rooms' status

  /** A room's status tells the truth: occupied exactly when some guest is recorded in it. */
  predicate StatusTruthful(rooms: seq<RoomData>, gs: seq<GuestData>) {
    forall i :: 0 <= i < |rooms| ==> (rooms[i].status == Occupied <==> Occupants(gs, rooms[i].key) > 0)
  }

  /** The status of a room after the assignment as the guest table makes it: the target is set to
      occupied first, and every room the move empties is then set to vacant. */
  function StatusAfterAssign(r: RoomData, gs: seq<GuestData>, selected: seq<GuestData>, target: string): RoomStatus {
    if Vacated(gs, selected, r.key) then NotOccupied
    else if r.key == target then Occupied
    else r.status
  }

  function RoomsAfterAssign(rooms: seq<RoomData>, gs: seq<GuestData>, selected: seq<GuestData>, target: string): (r: seq<RoomData>)
    ensures |r| == |rooms|
  {
    seq(|rooms|, i requires 0 <= i < |rooms| => rooms[i].(status := StatusAfterAssign(rooms[i], gs, selected, target)))
  }

  /** As written, moving every occupant of a room into that same room leaves the room vacant with
      guests in it: two guests of reservation 1 in room "A" (four beds), both reassigned to "A". */
  lemma AssignAsWrittenCanVacateTarget()
    ensures var gs := [GuestData("Ann", "A", "X1", Adult, "", 1, Some(1)), GuestData("Bob", "A", "X2", Adult, "", 1, Some(2))];
            var moving := [true, true];
            var rooms := [RoomData("A", Family, 4, Occupied, 100.0)];
            StatusTruthful(rooms, gs)
            && "A" in AvailableRooms(rooms, gs, |Select(gs, moving)|, 1)
            && !StatusTruthful(RoomsAfterAssign(rooms, gs, Select(gs, moving), "A"), Moved(gs, moving, "A"))
  {
    var gs := [GuestData("Ann", "A", "X1", Adult, "", 1, Some(1)), GuestData("Bob", "A", "X2", Adult, "", 1, Some(2))];
    var moving := [true, true];
    var rooms := [RoomData("A", Family, 4, Occupied, 100.0)];
    assert gs[1..][1..] == [];
    assert Select(gs, moving) == gs;
    assert Occupants(gs, "A") == 2;
    assert |GuestsInRoom(gs, "A")| == 2;
    assert MovingCount(gs, "A") == 2;
    assert Present(gs, 1, "A") by { assert gs[0].reservationId == 1 && gs[0].room == "A"; }
    assert AvailableRooms(rooms, gs, 2, 1) == ["A"] by {
      assert rooms[..0] == [];
    }
    assert Moved(gs, moving, "A") == gs;
    assert RoomsAfterAssign(rooms, gs, gs, "A")[0].status == NotOccupied;
  }

  /** The status of a room when the rooms the move empties are set to vacant first and the target
      is set to occupied last. */
  function StatusAfterAssignFixed(r: RoomData, gs: seq<GuestData>, selected: seq<GuestData>, target: string): RoomStatus {
    if r.key == target then Occupied
    else if Vacated(gs, selected, r.key) then NotOccupied
    else r.status
  }

  function RoomsAfterAssignFixed(rooms: seq<RoomData>, gs: seq<GuestData>, selected: seq<GuestData>, target: string): (r: seq<RoomData>)
    ensures |r| == |rooms|
  {
    seq(|rooms|, i requires 0 <= i < |rooms| => rooms[i].(status := StatusAfterAssignFixed(rooms[i], gs, selected, target)))
  }

  /** With the target set last, assigning a non-empty selection of stored guests to a room keeps
      every room's status truthful. */
  lemma FixedAssignKeepsStatusTruthful(rooms: seq<RoomData>, gs: seq<GuestData>, moving: seq<bool>, target: string)
    requires |moving| == |gs| && Selected(moving) > 0
    requires forall i :: 0 <= i < |rooms| ==> rooms[i].key != ""
    requires StatusTruthful(rooms, gs)
    ensures StatusTruthful(RoomsAfterAssignFixed(rooms, gs, Select(gs, moving), target), Moved(gs, moving, target))
  {
    var selected := Select(gs, moving);
    var after := RoomsAfterAssignFixed(rooms, gs, selected, target);
    forall i | 0 <= i < |rooms|
      ensures after[i].status == Occupied <==> Occupants(Moved(gs, moving, target), rooms[i].key) > 0
    {
      var key := rooms[i].key;
      MovedOccupants(gs, moving, target, key);
      GuestsInRoomCountsOccupants(gs, key);
    }
  }
}
