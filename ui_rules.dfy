/**
 * What the tables of the user interface do to the store and to their own rows over several
 * steps, as values: persisting, updating and deleting lists of guests one after another (the
 * first failure stops the list), removing the row of a deleted guest, and changing the status
 * of rooms by key.
 */
module UiRules {
  import opened Wrappers
  import opened Reservations
  import opened Guests
  import opened Rooms
  import opened Store
  import opened AllocationRules
  import opened CheckoutRules
  import ReservationRules

  // ---------------------------------------------------------------- rows of the tables

  /** One row of the reservation table: the reservation and the days until its next step. */
  datatype ReservationRow = ReservationRow(data: ReservationData, daysToPerform: int)

  /** The row `addReservation` shows for a reservation loaded on day `today`. */
  function RowOf(r: ReservationData, today: Day): ReservationRow {
    ReservationRow(r, DaysToPerform(r.state, r.dateFrom, r.dateTo, today))
  }

  /** The first row of the reservation table whose id column equals `id`, or -1. */
  function FirstReservationRow(rows: seq<ReservationRow>, id: Option<int>): (i: int)
    ensures -1 <= i < |rows|
    ensures i >= 0 ==> rows[i].data.id == id && forall j :: 0 <= j < i ==> rows[j].data.id != id
    ensures i == -1 <==> forall j :: 0 <= j < |rows| ==> rows[j].data.id != id
  {
    if rows == [] then -1
    else if rows[0].data.id == id then 0
    else
      var i := FirstReservationRow(rows[1..], id);
      assert forall j :: 1 <= j < |rows| ==> rows[j] == rows[1..][j - 1];
      if i == -1 then -1 else i + 1
  }

  /** The first row of the guest table whose id column equals `id`, or -1. */
  function FirstGuestRow(rows: seq<GuestData>, id: Option<int>): (i: int)
    ensures -1 <= i < |rows|
    ensures i >= 0 ==> rows[i].id == id && forall j :: 0 <= j < i ==> rows[j].id != id
    ensures i == -1 <==> forall j :: 0 <= j < |rows| ==> rows[j].id != id
  {
    if rows == [] then -1
    else if rows[0].id == id then 0
    else
      var i := FirstGuestRow(rows[1..], id);
      assert forall j :: 1 <= j < |rows| ==> rows[j] == rows[1..][j - 1];
      if i == -1 then -1 else i + 1
  }

  /** The guest table after the first row with the id is removed (if there is one). */
  function WithoutFirstRow(rows: seq<GuestData>, id: Option<int>): (r: seq<GuestData>)
    ensures FirstGuestRow(rows, id) == -1 ==> r == rows
    ensures FirstGuestRow(rows, id) >= 0 ==> |r| == |rows| - 1
    ensures forall g :: g in r ==> g in rows
  {
    var i := FirstGuestRow(rows, id);
    if i == -1 then rows else rows[..i] + rows[i + 1..]
  }

  /** The selected rows, in the order of the selected positions. */
  function Pick<T>(rows: seq<T>, positions: seq<int>): (r: seq<T>)
    requires forall k :: 0 <= k < |positions| ==> 0 <= positions[k] < |rows|
    ensures |r| == |positions| && forall k :: 0 <= k < |positions| ==> r[k] == rows[positions[k]]
  {
    seq(|positions|, k requires 0 <= k < |positions| => rows[positions[k]])
  }

  predicate DistinctPositions(positions: seq<int>) {
    forall k, l :: 0 <= k < l < |positions| ==> positions[k] != positions[l]
  }

  /** The rows after the room of every row at one of the positions is set to the target. */
  function Reassigned(rows: seq<GuestData>, positions: seq<int>, target: string): (r: seq<GuestData>)
    ensures |r| == |rows|
  {
    seq(|rows|, i requires 0 <= i < |rows| => if i in positions then rows[i].(room := target) else rows[i])
  }

  /** The rooms after the room at every position gets the status. */
  function StatusAt(rooms: seq<RoomData>, positions: seq<int>, status: RoomStatus): (r: seq<RoomData>)
    ensures |r| == |rooms|
    ensures forall i :: 0 <= i < |rooms| ==> r[i].key == rooms[i].key
  {
    seq(|rooms|, i requires 0 <= i < |rooms| => if i in positions then rooms[i].(status := status) else rooms[i])
  }

  // ---------------------------------------------------------------- identity of stored guests

  /** Every stored guest has an id and no two share one (the GUEST table's primary key). */
  predicate Keyed(s: seq<GuestData>) {
    (forall i :: 0 <= i < |s| ==> s[i].id.Some?)
    && forall i, j :: 0 <= i < j < |s| ==> s[i].id != s[j].id
  }

  function IdsOf(ds: seq<GuestData>): set<Option<int>> {
    set i | 0 <= i < |ds| :: ds[i].id
  }

  lemma IdsOfPrefix(ds: seq<GuestData>)
    requires ds != []
    ensures IdsOf(ds) == IdsOf(ds[..|ds| - 1]) + {ds[|ds| - 1].id}
  {
    var n := |ds| - 1;
    assert forall i :: 0 <= i < n ==> ds[..n][i] == ds[i];
    forall x | x in IdsOf(ds) ensures x in IdsOf(ds[..n]) + {ds[n].id} {
      var i :| 0 <= i < |ds| && ds[i].id == x;
      if i < n { assert ds[..n][i].id == x; }
    }
  }

  // ---------------------------------------------------------------- persisting guests

  /** The guest as `create` persists it when `next` is the next generated id: a guest without
      an id is given that id, one with an id keeps it. */
  function PersistedAs(d: GuestData, next: int): GuestData {
    if d.id.None? then d.(id := Some(next)) else d
  }

  /** The next generated id after `create` of the guest. */
  function NextAfter(d: GuestData, next: int): int {
    if d.id.None? then next + 1 else next
  }

  /** The GUEST table after `create` of one guest: a guest without an id is appended with the
      next generated id, one with an id replaces the record with that id, and an update of an id
      the table lacks fails. */
  function Persisted(t: seq<GuestData>, d: GuestData, next: int): (r: Result<seq<GuestData>, StoreError>)
    ensures r.Err? <==> d.id.Some? && !HasGuest(t, d.id)
    ensures r.Ok? ==> |r.value| == |t| + (if d.id.None? then 1 else 0) && PersistedAs(d, next) in r.value
  {
    if d.id.None? then Ok(t + [PersistedAs(d, next)])
    else if HasGuest(t, d.id) then ReplacedIsShown(t, d); Ok(ReplaceGuest(t, d))
    else Err(NotFound)
  }

  lemma ReplacedIsShown(t: seq<GuestData>, d: GuestData)
    requires HasGuest(t, d.id)
    ensures d in ReplaceGuest(t, d)
  {
    var i :| 0 <= i < |t| && t[i].id == d.id;
    assert ReplaceGuest(t, d)[i] == d;
  }

  /** The GUEST table after `create` of each guest in turn, generated ids counting from `next`;
      the first update of an id the table lacks stops the list. */
  function CreatedAll(t: seq<GuestData>, ds: seq<GuestData>, next: int): Result<seq<GuestData>, StoreError>
    decreases ds
  {
    if ds == [] then Ok(t)
    else
      var r := Persisted(t, ds[0], next);
      if r.Err? then r else CreatedAll(r.value, ds[1..], NextAfter(ds[0], next))
  }

  /** The guests as `create` leaves them, in turn: each guest without an id gets the next
      generated id and every other field is kept. */
  function PersistedAll(ds: seq<GuestData>, next: int): (r: seq<GuestData>)
    ensures |r| == |ds|
  {
    if ds == [] then [] else [PersistedAs(ds[0], next)] + PersistedAll(ds[1..], NextAfter(ds[0], next))
  }

  /** Every guest persisted has an id; a guest that had one keeps it, and no other field
      changes. */
  lemma {:induction false} PersistedAllKeeps(ds: seq<GuestData>, next: int)
    ensures forall k :: 0 <= k < |ds| ==>
              PersistedAll(ds, next)[k].id.Some? && PersistedAll(ds, next)[k] == ds[k].(id := PersistedAll(ds, next)[k].id)
    ensures forall k :: 0 <= k < |ds| && ds[k].id.Some? ==> PersistedAll(ds, next)[k] == ds[k]
    decreases ds
  {
    if ds != [] {
      PersistedAllKeeps(ds[1..], NextAfter(ds[0], next));
      assert forall k :: 1 <= k < |ds| ==> ds[k] == ds[1..][k - 1];
    }
  }

  /** How many of the guests have no id yet, so that `create` inserts them. */
  function NewCount(ds: seq<GuestData>): (n: nat)
    ensures n <= |ds|
  {
    if ds == [] then 0 else (if ds[0].id.None? then 1 else 0) + NewCount(ds[1..])
  }

  /** Guests that are all new are appended in order with consecutive ids from `next` on, and
      persisting them never fails. */
  lemma {:induction false} CreatedAllNew(t: seq<GuestData>, ds: seq<GuestData>, next: int)
    requires forall k :: 0 <= k < |ds| ==> ds[k].id.None?
    ensures CreatedAll(t, ds, next) == Ok(t + PersistedAll(ds, next))
    ensures NewCount(ds) == |ds|
    ensures forall k :: 0 <= k < |ds| ==> PersistedAll(ds, next)[k] == ds[k].(id := Some(next + k))
    decreases ds
  {
    if ds == [] {
      assert t + PersistedAll(ds, next) == t;
    } else {
      var p := PersistedAs(ds[0], next);
      assert forall k :: 1 <= k < |ds| ==> ds[k] == ds[1..][k - 1];
      CreatedAllNew(t + [p], ds[1..], next + 1);
      assert t + PersistedAll(ds, next) == (t + [p]) + PersistedAll(ds[1..], next + 1);
    }
  }

  // ---------------------------------------------------------------- updating guests

  /** The GUEST table after `update` of each guest in turn; the first guest without an id or
      with an id the table lacks stops the list. */
  function UpdateAll(s: seq<GuestData>, ds: seq<GuestData>): Result<seq<GuestData>, StoreError>
  {
    if ds == [] then Ok(s)
    else
      var n := |ds| - 1;
      var prev := UpdateAll(s, ds[..n]);
      if prev.Err? then prev
      else if ds[n].id.None? then Err(NullId)
      else if !HasGuest(prev.value, ds[n].id) then Err(NotFound)
      else Ok(ReplaceGuest(prev.value, ds[n]))
  }

  lemma {:induction false} UpdateAllErrSticks(s: seq<GuestData>, ds: seq<GuestData>, m: nat)
    requires m <= |ds| && UpdateAll(s, ds[..m]).Err?
    ensures UpdateAll(s, ds) == UpdateAll(s, ds[..m])
    decreases |ds|
  {
    if m < |ds| {
      var n := |ds| - 1;
      assert ds[..n][..m] == ds[..m];
      UpdateAllErrSticks(s, ds[..n], m);
    } else {
      assert ds[..m] == ds;
    }
  }

  /** Each selected guest recorded in the target room. */
  function Retarget(selected: seq<GuestData>, target: string): (r: seq<GuestData>)
    ensures |r| == |selected|
    ensures forall k :: 0 <= k < |r| ==> r[k] == selected[k].(room := target)
  {
    seq(|selected|, k requires 0 <= k < |selected| => selected[k].(room := target))
  }

  lemma ReplaceKeepsIds(s: seq<GuestData>, g: GuestData)
    requires g.id.Some?
    ensures forall i :: 0 <= i < |s| ==> ReplaceGuest(s, g)[i].id == s[i].id
    ensures forall id :: HasGuest(s, id) ==> HasGuest(ReplaceGuest(s, g), id)
  {
    forall id | HasGuest(s, id) ensures HasGuest(ReplaceGuest(s, g), id) {
      var i :| 0 <= i < |s| && s[i].id == id;
      assert ReplaceGuest(s, g)[i].id == id;
    }
  }

  /** Moving stored guests: when every guest moved has an id the table holds, the updates all
      succeed; afterwards every record with one of their ids is in the target room (with its id
      kept) and every other record is as it was. */
  lemma {:induction false} UpdateAllMoves(s: seq<GuestData>, selected: seq<GuestData>, target: string)
    requires forall k :: 0 <= k < |selected| ==> selected[k].id.Some? && HasGuest(s, selected[k].id)
    ensures UpdateAll(s, Retarget(selected, target)).Ok?
    ensures var r := UpdateAll(s, Retarget(selected, target)).value;
            |r| == |s|
            && forall i :: 0 <= i < |s| ==>
                 if s[i].id in IdsOf(selected) then r[i].room == target && r[i].id == s[i].id else r[i] == s[i]
  {
    if selected != [] {
      var n := |selected| - 1;
      var ds := Retarget(selected, target);
      assert ds[..n] == Retarget(selected[..n], target);
      UpdateAllMoves(s, selected[..n], target);
      var prev := UpdateAll(s, ds[..n]).value;
      assert forall i :: 0 <= i < |s| ==> prev[i].id == s[i].id;
      assert HasGuest(prev, ds[n].id) by {
        var i :| 0 <= i < |s| && s[i].id == selected[n].id;
        assert prev[i].id == selected[n].id;
      }
      IdsOfPrefix(selected);
    }
  }

  /** The selection is of stored guests with distinct ids, in a table whose ids are a key: the
      guest table shows what the store holds and a selection never repeats a row. */
  predicate StoredSelection(s: seq<GuestData>, selected: seq<GuestData>) {
    Keyed(s)
    && (forall k :: 0 <= k < |selected| ==> selected[k] in s)
    && forall k, l :: 0 <= k < l < |selected| ==> selected[k].id != selected[l].id
  }

  /** The selection as a mask over the stored guests. */
  function MaskOf(s: seq<GuestData>, selected: seq<GuestData>): (m: seq<bool>)
    ensures |m| == |s|
  {
    seq(|s|, i requires 0 <= i < |s| => s[i].id in IdsOf(selected))
  }

  /** The stored guests with the records whose id is among `ids` recorded in the target room. */
  function MovedByIds(s: seq<GuestData>, ids: set<Option<int>>, target: string): (r: seq<GuestData>)
    ensures |r| == |s|
  {
    seq(|s|, i requires 0 <= i < |s| => if s[i].id in ids then s[i].(room := target) else s[i])
  }

  /** In a keyed table, the last update of a list replaces the one record with its id. */
  lemma UpdateLastAt(s: seq<GuestData>, ds: seq<GuestData>, i: int)
    requires ds != [] && UpdateAll(s, ds[..|ds| - 1]).Ok?
    requires var prev := UpdateAll(s, ds[..|ds| - 1]).value;
             Keyed(prev) && 0 <= i < |prev| && prev[i].id == ds[|ds| - 1].id
    ensures UpdateAll(s, ds) == Ok(UpdateAll(s, ds[..|ds| - 1]).value[i := ds[|ds| - 1]])
  {
    var prev, d := UpdateAll(s, ds[..|ds| - 1]).value, ds[|ds| - 1];
    assert HasGuest(prev, d.id);
    assert ReplaceGuest(prev, d) == prev[i := d];
  }

  /** Moving one more selected guest, found at position `i` of the table, changes only its own
      record. */
  lemma MoveOneMore(s: seq<GuestData>, selected: seq<GuestData>, target: string, i: int)
    requires StoredSelection(s, selected) && selected != []
    requires 0 <= i < |s| && s[i] == selected[|selected| - 1]
    ensures var prev := MovedByIds(s, IdsOf(selected[..|selected| - 1]), target);
            Keyed(prev) && prev[i] == s[i]
            && MovedByIds(s, IdsOf(selected), target) == prev[i := s[i].(room := target)]
  {
    var n := |selected| - 1;
    assert s[i].id !in IdsOf(selected[..n]);
    IdsOfPrefix(selected);
  }

  /** Updating a stored selection into the target room, one guest at a time, succeeds and
      records exactly the selected guests there. */
  lemma {:induction false} UpdatesAreMove(s: seq<GuestData>, selected: seq<GuestData>, target: string)
    requires StoredSelection(s, selected)
    ensures UpdateAll(s, Retarget(selected, target)) == Ok(MovedByIds(s, IdsOf(selected), target))
  {
    if selected == [] {
      assert IdsOf(selected) == {};
      assert MovedByIds(s, {}, target) == s;
    } else {
      var n := |selected| - 1;
      var ds := Retarget(selected, target);
      assert ds[..n] == Retarget(selected[..n], target);
      assert StoredSelection(s, selected[..n]);
      UpdatesAreMove(s, selected[..n], target);
      var i :| 0 <= i < |s| && s[i] == selected[n];
      MoveOneMore(s, selected, target, i);
      UpdateLastAt(s, ds, i);
    }
  }

  /** Moving a stored selection takes one occupant per selected guest out of its old room and
      puts the whole selection in the target room. */
  lemma {:induction false} MovedByIdsCounts(s: seq<GuestData>, selected: seq<GuestData>, target: string, key: string)
    requires StoredSelection(s, selected)
    ensures Occupants(MovedByIds(s, IdsOf(selected), target), key) + MovingCount(selected, key)
         == Occupants(s, key) + (if key == target then |selected| else 0)
  {
    if selected == [] {
      assert IdsOf(selected) == {};
      assert MovedByIds(s, {}, target) == s;
    } else {
      var n := |selected| - 1;
      assert StoredSelection(s, selected[..n]);
      MovedByIdsCounts(s, selected[..n], target, key);
      var i :| 0 <= i < |s| && s[i] == selected[n];
      MoveOneMore(s, selected, target, i);
      OccupantsUpdate(MovedByIds(s, IdsOf(selected[..n]), target), i, s[i].(room := target), key);
      assert selected == selected[..n] + [selected[n]];
      OccupantsAppend(selected[..n], selected[n], key);
    }
  }

  /** Moving the guests with the selection's ids is the move of the selection's mask. */
  lemma MaskMoves(s: seq<GuestData>, selected: seq<GuestData>, target: string)
    ensures MovedByIds(s, IdsOf(selected), target) == Moved(s, MaskOf(s, selected), target)
  {
    MovedAt(s, MaskOf(s, selected), target);
  }

  /** The mask of a stored selection selects as many guests from the room as the selection. */
  lemma MaskCountsRoom(s: seq<GuestData>, selected: seq<GuestData>, key: string)
    requires StoredSelection(s, selected)
    ensures MovingCount(Select(s, MaskOf(s, selected)), key) == MovingCount(selected, key)
  {
    var elsewhere := key + "'";
    MovedByIdsCounts(s, selected, elsewhere, key);
    MaskMoves(s, selected, elsewhere);
    MovedOccupants(s, MaskOf(s, selected), elsewhere, key);
  }

  /** The mask of a stored selection selects as many guests as the selection holds, and as many
      from each room. */
  lemma SelectionIsMask(s: seq<GuestData>, selected: seq<GuestData>)
    requires StoredSelection(s, selected)
    ensures Selected(MaskOf(s, selected)) == |selected|
    ensures forall key :: MovingCount(Select(s, MaskOf(s, selected)), key) == MovingCount(selected, key)
  {
    MovedByIdsCounts(s, selected, "", "");
    MaskMoves(s, selected, "");
    MovedOccupants(s, MaskOf(s, selected), "", "");
    MaskCountsRoom(s, selected, "");
    forall key ensures MovingCount(Select(s, MaskOf(s, selected)), key) == MovingCount(selected, key) {
      MaskCountsRoom(s, selected, key);
    }
  }

  /** Assigning a stored selection to a room, with the target set occupied last, keeps every
      room's status truthful. */
  lemma StoredAssignKeepsStatusTruthful(rooms: seq<RoomData>, s: seq<GuestData>, selected: seq<GuestData>, target: string)
    requires StoredSelection(s, selected) && |selected| > 0
    requires forall i :: 0 <= i < |rooms| ==> rooms[i].key != ""
    requires StatusTruthful(rooms, s)
    ensures StatusTruthful(RoomsAfterAssignFixed(rooms, s, selected, target), MovedByIds(s, IdsOf(selected), target))
  {
    var mask := MaskOf(s, selected);
    MaskMoves(s, selected, target);
    SelectionIsMask(s, selected);
    assert RoomsAfterAssignFixed(rooms, s, selected, target) == RoomsAfterAssignFixed(rooms, s, Select(s, mask), target);
    FixedAssignKeepsStatusTruthful(rooms, s, mask, target);
  }

  /** Assigning a stored selection to a room offered to it never puts more guests in the room
      than it has beds. */
  lemma StoredAssignFits(r: RoomData, s: seq<GuestData>, selected: seq<GuestData>, resId: int)
    requires StoredSelection(s, selected) && Eligible(r, s, |selected|, resId)
    ensures Occupants(MovedByIds(s, IdsOf(selected), r.key), r.key) <= r.beds
  {
    var mask := MaskOf(s, selected);
    MaskMoves(s, selected, r.key);
    SelectionIsMask(s, selected);
    SelectLength(s, mask);
    AssignedRoomNotOverfilled(s, mask, r, resId);
  }

  /** Assigning a stored selection to a room offered to it succeeds, keeps the room's beds
      enough for its guests and keeps every status truthful. */
  lemma StoredAssignment(rooms: seq<RoomData>, s: seq<GuestData>, selected: seq<GuestData>, target: string, resId: int)
    requires DistinctKeys(rooms) && StoredSelection(s, selected) && |selected| > 0
    requires target in AvailableRooms(rooms, s, |selected|, resId)
    ensures UpdateAll(s, Retarget(selected, target)) == Ok(MovedByIds(s, IdsOf(selected), target))
    ensures var after := RoomsAfterAssignFixed(rooms, s, selected, target);
            forall i :: 0 <= i < |after| && after[i].key == target ==>
              Occupants(MovedByIds(s, IdsOf(selected), target), target) <= after[i].beds
    ensures StatusTruthful(rooms, s) && (forall i :: 0 <= i < |rooms| ==> rooms[i].key != "") ==>
              StatusTruthful(RoomsAfterAssignFixed(rooms, s, selected, target), MovedByIds(s, IdsOf(selected), target))
  {
    UpdatesAreMove(s, selected, target);
    var j :| 0 <= j < |rooms| && rooms[j].key == target && Eligible(rooms[j], s, |selected|, resId);
    StoredAssignFits(rooms[j], s, selected, resId);
    if StatusTruthful(rooms, s) && forall i :: 0 <= i < |rooms| ==> rooms[i].key != "" {
      StoredAssignKeepsStatusTruthful(rooms, s, selected, target);
    }
  }

  // ---------------------------------------------------------------- deleting guests

  /** The GUEST table after `delete` of each guest in turn; the first guest without an id or
      with an id the table lacks stops the list. */
  function DeleteAll(s: seq<GuestData>, ds: seq<GuestData>): Result<seq<GuestData>, StoreError>
  {
    if ds == [] then Ok(s)
    else
      var n := |ds| - 1;
      var prev := DeleteAll(s, ds[..n]);
      if prev.Err? then prev
      else if ds[n].id.None? then Err(NullId)
      else if !HasGuest(prev.value, ds[n].id) then Err(NotFound)
      else Ok(WithoutGuests(prev.value, {ds[n].id}))
  }

  lemma {:induction false} DeleteAllErrSticks(s: seq<GuestData>, ds: seq<GuestData>, m: nat)
    requires m <= |ds| && DeleteAll(s, ds[..m]).Err?
    ensures DeleteAll(s, ds) == DeleteAll(s, ds[..m])
    decreases |ds|
  {
    if m < |ds| {
      var n := |ds| - 1;
      assert ds[..n][..m] == ds[..m];
      DeleteAllErrSticks(s, ds[..n], m);
    } else {
      assert ds[..m] == ds;
    }
  }

  /** The guest table's rows after the first row of each deleted guest is removed in turn. */
  function RowsAfterDelete(rows: seq<GuestData>, ds: seq<GuestData>): seq<GuestData>
  {
    if ds == [] then rows
    else WithoutFirstRow(RowsAfterDelete(rows, ds[..|ds| - 1]), ds[|ds| - 1].id)
  }

  /** Deleting stored guests with distinct ids succeeds and leaves exactly the other guests. */
  lemma {:induction false} DeleteStoredGuests(s: seq<GuestData>, ds: seq<GuestData>)
    requires forall k :: 0 <= k < |ds| ==> ds[k] in s && ds[k].id.Some?
    requires forall k, l :: 0 <= k < l < |ds| ==> ds[k].id != ds[l].id
    ensures DeleteAll(s, ds) == Ok(WithoutGuests(s, IdsOf(ds)))
  {
    if ds == [] {
      assert IdsOf(ds) == {};
      WithoutNothing(s);
    } else {
      var n := |ds| - 1;
      DeleteStoredGuests(s, ds[..n]);
      IdsOfPrefix(ds);
      var prev := WithoutGuests(s, IdsOf(ds[..n]));
      assert ds[n].id !in IdsOf(ds[..n]);
      assert ds[n] in prev;
      var i :| 0 <= i < |prev| && prev[i] == ds[n];
      assert HasGuest(prev, ds[n].id);
      WithoutGuestsTwice(s, IdsOf(ds[..n]), ds[n].id);
    }
  }

  lemma {:induction false} WithoutNothing(s: seq<GuestData>)
    ensures WithoutGuests(s, {}) == s
  {
    if s != [] {
      WithoutNothing(s[1..]);
    }
  }

  /** The guests recorded in some rooms, taken from a keyed table, are keyed too. */
  lemma {:induction false} FilteredGuestsKeyed(s: seq<GuestData>, keys: set<string>)
    requires Keyed(s)
    ensures Keyed(GuestsInRooms(s, keys))
  {
    if s != [] {
      KeyedTail(s);
      FilteredGuestsKeyed(s[1..], keys);
      var rest := GuestsInRooms(s[1..], keys);
      if s[0].room in keys {
        KeyedCons(s[0], rest);
      }
    }
  }

  /** The rest of a keyed table is keyed and holds none of the first guest's id. */
  lemma KeyedTail(s: seq<GuestData>)
    requires Keyed(s) && s != []
    ensures Keyed(s[1..]) && forall g :: g in s[1..] ==> g.id != s[0].id
  {
    forall g | g in s[1..] ensures g.id != s[0].id {
      var j :| 0 <= j < |s[1..]| && s[1..][j] == g;
      assert s[j + 1] == g;
    }
  }

  /** A guest with an id no other guest of a keyed table has, put first, keeps it keyed. */
  lemma KeyedCons(x: GuestData, rest: seq<GuestData>)
    requires Keyed(rest) && x.id.Some? && forall g :: g in rest ==> g.id != x.id
    ensures Keyed([x] + rest)
  {
    var r := [x] + rest;
    forall i, j | 0 <= i < j < |r| ensures r[i].id != r[j].id {
      if i == 0 { assert r[j] in rest; } else { assert r[i] == rest[i - 1] && r[j] == rest[j - 1]; }
    }
  }

  // ---------------------------------------------------------------- room status

  /** The rooms after every room with the key gets the status. */
  function WithStatus(rooms: seq<RoomData>, key: string, status: RoomStatus): (r: seq<RoomData>)
    ensures |r| == |rooms|
    ensures forall i :: 0 <= i < |rooms| ==> r[i].key == rooms[i].key
  {
    seq(|rooms|, i requires 0 <= i < |rooms| => if rooms[i].key == key then rooms[i].(status := status) else rooms[i])
  }

  /** With distinct keys, updating the room found by its key changes that one row and is the
      same as setting the status of every room with the key. */
  lemma ReplaceOneRoom(rooms: seq<RoomData>, i: int, r: RoomData)
    requires DistinctKeys(rooms) && 0 <= i < |rooms| && r.key == rooms[i].key
    ensures ReplaceRoom(rooms, r) == rooms[i := r]
    ensures r == rooms[i].(status := r.status) ==> WithStatus(rooms, r.key, r.status) == rooms[i := r]
  {
  }

  /** The rooms after every room the move empties is set to vacant. */
  function VacateRooms(rooms: seq<RoomData>, gs: seq<GuestData>, selected: seq<GuestData>): (r: seq<RoomData>)
    ensures |r| == |rooms|
  {
    seq(|rooms|, i requires 0 <= i < |rooms| =>
      if Vacated(gs, selected, rooms[i].key) then rooms[i].(status := NotOccupied) else rooms[i])
  }

  /** The same, for the rooms whose key is among `keys` only. */
  function VacateAmong(rooms: seq<RoomData>, gs: seq<GuestData>, selected: seq<GuestData>, keys: set<string>): (r: seq<RoomData>)
    ensures |r| == |rooms|
  {
    seq(|rooms|, i requires 0 <= i < |rooms| =>
      if rooms[i].key in keys && Vacated(gs, selected, rooms[i].key) then rooms[i].(status := NotOccupied) else rooms[i])
  }

  /** The selected guests' rooms other than the empty key, as `moveGuestsBetweenRooms` counts them. */
  function SourceRooms(selected: seq<GuestData>): set<string> {
    set k | 0 <= k < |selected| && selected[k].room != "" :: selected[k].room
  }

  lemma SourceRoomsAppend(selected: seq<GuestData>, g: GuestData)
    ensures SourceRooms(selected + [g]) == SourceRooms(selected) + (if g.room != "" then {g.room} else {})
  {
    var s := selected + [g];
    assert forall k :: 0 <= k < |selected| ==> s[k] == selected[k];
    assert s[|selected|] == g;
  }

  /** Vacating the rooms one source key at a time, in any order, ends with every emptied room
      vacant and the target set occupied last: the corrected assignment of the guest table. */
  lemma VacateStepByStep(rooms: seq<RoomData>, gs: seq<GuestData>, selected: seq<GuestData>, keys: set<string>, key: string)
    ensures Vacated(gs, selected, key) ==>
              WithStatus(VacateAmong(rooms, gs, selected, keys), key, NotOccupied) == VacateAmong(rooms, gs, selected, keys + {key})
    ensures !Vacated(gs, selected, key) ==>
              VacateAmong(rooms, gs, selected, keys) == VacateAmong(rooms, gs, selected, keys + {key})
  {
  }

  /** A room holds guests of the reservation after one more guest exactly when it did before
      or that guest belongs to the reservation and is recorded in it. */
  lemma PresentAppend(gs: seq<GuestData>, g: GuestData, resId: int)
    ensures forall key :: Present(gs + [g], resId, key) <==> Present(gs, resId, key) || (g.reservationId == resId && g.room == key)
  {
    var s := gs + [g];
    forall key ensures Present(s, resId, key) <==> Present(gs, resId, key) || (g.reservationId == resId && g.room == key) {
      if Present(s, resId, key) {
        var j :| 0 <= j < |s| && s[j].reservationId == resId && s[j].room == key;
        if j < |gs| { assert gs[j] == s[j]; }
      }
      if Present(gs, resId, key) {
        var j :| 0 <= j < |gs| && gs[j].reservationId == resId && gs[j].room == key;
        assert s[j] == gs[j];
      }
      if g.reservationId == resId && g.room == key {
        assert s[|gs|] == g;
      }
    }
  }

  /** A room left by some selected guest is one of the source rooms counted. */
  lemma {:induction false} MovingCountPositive(selected: seq<GuestData>, key: string)
    ensures MovingCount(selected, key) > 0 <==> exists k :: 0 <= k < |selected| && selected[k].room == key
  {
    if selected != [] {
      MovingCountPositive(selected[1..], key);
      if MovingCount(selected[1..], key) > 0 {
        var k :| 0 <= k < |selected[1..]| && selected[1..][k].room == key;
        assert selected[k + 1].room == key;
      }
      if exists k :: 0 <= k < |selected| && selected[k].room == key {
        var k :| 0 <= k < |selected| && selected[k].room == key;
        if k > 0 { assert selected[1..][k - 1].room == key; }
      }
    }
  }

  /** Every room the move empties is a source room, so vacating the source rooms is vacating
      every emptied room; the target then set occupied gives the corrected statuses. */
  lemma VacatedAreSources(rooms: seq<RoomData>, gs: seq<GuestData>, selected: seq<GuestData>, target: string)
    ensures VacateAmong(rooms, gs, selected, SourceRooms(selected)) == VacateRooms(rooms, gs, selected)
    ensures WithStatus(VacateRooms(rooms, gs, selected), target, Occupied) == RoomsAfterAssignFixed(rooms, gs, selected, target)
  {
    forall i | 0 <= i < |rooms| && Vacated(gs, selected, rooms[i].key)
      ensures rooms[i].key in SourceRooms(selected)
    {
      MovingCountPositive(selected, rooms[i].key);
    }
  }

  // ---------------------------------------------------------------- reservation rows and the store

  /** Every stored reservation has an id below the next generated one, and no two share one
      (the RESERVATION table's primary key). */
  predicate ReservationsKeyed(s: seq<ReservationData>, next: int) {
    (forall i :: 0 <= i < |s| ==> s[i].id.Some? && s[i].id.value < next)
    && forall i, j :: 0 <= i < j < |s| ==> s[i].id != s[j].id
  }

  /** Every row of the reservation table shows a stored reservation, and no two rows show the
      same one. */
  predicate Shown(rows: seq<ReservationRow>, s: seq<ReservationData>) {
    (forall i :: 0 <= i < |rows| ==> rows[i].data in s)
    && forall i, j :: 0 <= i < j < |rows| ==> rows[i].data.id != rows[j].data.id
  }

  /** In a keyed table the id names one reservation. */
  lemma SameIdSameReservation(s: seq<ReservationData>, next: int, a: ReservationData, b: ReservationData)
    requires ReservationsKeyed(s, next) && a in s && b in s && a.id == b.id
    ensures a == b
  {
    var i :| 0 <= i < |s| && s[i] == a;
    var j :| 0 <= j < |s| && s[j] == b;
    assert !(i < j) && !(j < i);
  }

  /** An update by the id of a stored reservation puts the new version in, keeps every
      reservation with another id, and keeps the table keyed. */
  lemma KeyedAfterReplace(s: seq<ReservationData>, next: int, r: ReservationData)
    requires ReservationsKeyed(s, next) && HasReservation(s, r.id)
    ensures ReservationsKeyed(ReplaceReservation(s, r), next)
    ensures r in ReplaceReservation(s, r)
    ensures forall x :: x in s && x.id != r.id ==> x in ReplaceReservation(s, r)
  {
    var t := ReplaceReservation(s, r);
    var k :| 0 <= k < |s| && s[k].id == r.id;
    assert t[k] == r;
    assert forall i :: 0 <= i < |s| ==> t[i].id == s[i].id;
    forall x | x in s && x.id != r.id ensures x in t {
      var i :| 0 <= i < |s| && s[i] == x;
      assert t[i] == x;
    }
  }

  /** Writing a new version of a shown reservation over its row keeps the rows shown. */
  lemma ShownAfterUpdate(rows: seq<ReservationRow>, s: seq<ReservationData>, next: int, i: int, r: ReservationData, days: int)
    requires ReservationsKeyed(s, next) && Shown(rows, s)
    requires 0 <= i < |rows| && r.id == rows[i].data.id
    ensures HasReservation(s, r.id)
    ensures ReservationsKeyed(ReplaceReservation(s, r), next)
    ensures Shown(rows[i := ReservationRow(r, days)], ReplaceReservation(s, r))
  {
    assert rows[i].data in s;
    KeyedAfterReplace(s, next, r);
    var u := rows[i := ReservationRow(r, days)];
    forall j | 0 <= j < |u| ensures u[j].data in ReplaceReservation(s, r) {
      if j != i {
        assert rows[j].data in s && rows[j].data.id != r.id by {
          if j < i { assert rows[j].data.id != rows[i].data.id; }
          else { assert rows[i].data.id != rows[j].data.id; }
        }
      }
    }
  }

  /** A reservation inserted under the next generated id, shown as a new last row, keeps the
      rows shown and the table keyed. */
  lemma ShownAfterInsert(rows: seq<ReservationRow>, s: seq<ReservationData>, next: int, r: ReservationData, days: int)
    requires ReservationsKeyed(s, next) && Shown(rows, s) && r.id == Some(next)
    ensures ReservationsKeyed(s + [r], next + 1)
    ensures Shown(rows + [ReservationRow(r, days)], s + [r])
  {
    var u := rows + [ReservationRow(r, days)];
    forall j | 0 <= j < |rows| ensures u[j].data.id != r.id {
      var k :| 0 <= k < |s| && s[k] == rows[j].data;
    }
  }

  /** A stored reservation written again under its own id, shown as a new last row while no
      other row shows that id, keeps the rows shown. */
  lemma ShownAfterEdit(rows: seq<ReservationRow>, s: seq<ReservationData>, next: int, r: ReservationData, days: int)
    requires ReservationsKeyed(s, next) && Shown(rows, s) && HasReservation(s, r.id)
    requires forall j :: 0 <= j < |rows| ==> rows[j].data.id != r.id
    ensures ReservationsKeyed(ReplaceReservation(s, r), next)
    ensures Shown(rows + [ReservationRow(r, days)], ReplaceReservation(s, r))
  {
    KeyedAfterReplace(s, next, r);
    var u := rows + [ReservationRow(r, days)];
    assert forall j :: 0 <= j < |rows| ==> u[j] == rows[j];
  }

  /** The rows after `removeRow(i)`: the others, in their order. */
  function WithoutRow<T>(rows: seq<T>, i: int): (r: seq<T>)
    requires 0 <= i < |rows|
    ensures |r| == |rows| - 1
    ensures forall j :: 0 <= j < |r| ==> r[j] == rows[if j < i then j else j + 1]
  {
    rows[..i] + rows[i + 1..]
  }

  /** Removing a row keeps the others shown, and then no row shows the removed id. */
  lemma ShownAfterRemove(rows: seq<ReservationRow>, s: seq<ReservationData>, i: int)
    requires Shown(rows, s) && 0 <= i < |rows|
    ensures Shown(WithoutRow(rows, i), s)
    ensures forall j :: 0 <= j < |rows| - 1 ==> WithoutRow(rows, i)[j].data.id != rows[i].data.id
  {
  }

  /** A table holding no reservation with the id counts none. */
  lemma {:induction false} NoneWithId(s: seq<ReservationData>, id: Option<int>)
    requires forall i :: 0 <= i < |s| ==> s[i].id != id
    ensures ReservationRules.CountWithId(s, id) == 0
  {
    if s != [] {
      NoneWithId(s[..|s| - 1], id);
    }
  }

  /** In a keyed table at most one reservation carries any id. */
  lemma {:induction false} KeyedCountsOne(s: seq<ReservationData>, next: int, id: Option<int>)
    requires ReservationsKeyed(s, next)
    ensures ReservationRules.CountWithId(s, id) <= 1
  {
    if s != [] {
      var n := |s| - 1;
      assert forall i :: 0 <= i < n ==> s[..n][i] == s[i];
      KeyedCountsOne(s[..n], next, id);
      if s[n].id == id {
        NoneWithId(s[..n], id);
      }
    }
  }
}
