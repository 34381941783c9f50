/** The room entity and the rooms the hotel starts with. */
module Rooms {

  datatype RoomStatus = NotOccupied | Occupied
  datatype RoomType = Family | Single | Double

  /** The persisted value of a room, one row of the ROOM table; `key` is its number. */
  datatype RoomData = RoomData(key: string, roomType: RoomType, beds: int, status: RoomStatus, price: real)

  class Room {
    const key: string
    const roomType: RoomType
    const price: real
    var beds: int
    var status: RoomStatus

    function Data(): RoomData
      reads this
    {
      RoomData(key, roomType, beds, status, price)
    }

    constructor (key: string, roomType: RoomType, beds: int, status: RoomStatus, price: real)
      ensures Data() == RoomData(key, roomType, beds, status, price)
    {
      this.key := key;
      this.roomType := roomType;
      this.beds := beds;
      this.status := status;
      this.price := price;
    }

    method SetBeds(beds: int)
      modifies this`beds
      ensures Data() == old(Data()).(beds := beds)
    {
      this.beds := beds;
    }

    method SetStatus(status: RoomStatus)
      modifies this`status
      ensures Data() == old(Data()).(status := status)
    {
      this.status := status;
    }
  }

  /** The number of beds over a list of rooms. */
  function TotalBeds(rooms: seq<RoomData>): int
  {
    if rooms == [] then 0 else TotalBeds(rooms[..|rooms| - 1]) + rooms[|rooms| - 1].beds
  }

  lemma {:induction false} TotalBedsNonNegative(rooms: seq<RoomData>)
    requires forall i :: 0 <= i < |rooms| ==> rooms[i].beds >= 0
    ensures TotalBeds(rooms) >= 0
  {
    if rooms != [] {
      TotalBedsNonNegative(rooms[..|rooms| - 1]);
    }
  }

  /** The thirteen rooms written into an empty ROOM table, all vacant. */
  function SeededRooms(): (r: seq<RoomData>)
    ensures |r| == 13
    ensures forall i :: 0 <= i < |r| ==> r[i].status == NotOccupied && 1 <= r[i].beds <= 7
  {
    [ RoomData("101A", Family, 6, NotOccupied, 120.0),
      RoomData("101B", Family, 6, NotOccupied, 120.0),
      RoomData("102B", Double, 5, NotOccupied, 100.50),
      RoomData("103", Double, 5, NotOccupied, 100.50),
      RoomData("104", Single, 2, NotOccupied, 70.0),
      RoomData("105", Single, 2, NotOccupied, 70.0),
      RoomData("201", Single, 2, NotOccupied, 70.0),
      RoomData("202", Family, 5, NotOccupied, 110.0),
      RoomData("203", Family, 4, NotOccupied, 105.50),
      RoomData("204", Family, 4, NotOccupied, 105.50),
      RoomData("205", Double, 3, NotOccupied, 90.0),
      RoomData("301", Single, 1, NotOccupied, 50.0),
      RoomData("302", Family, 3, NotOccupied, 90.0) ]
  }

  /** The seeded hotel has 48 beds, so at most 48 people can be booked for any one night. */
  lemma SeededHotelHas48Beds()
    ensures TotalBeds(SeededRooms()) == 48
  {
    var s := SeededRooms();
    assert TotalBeds(s[..1]) == 6;
    assert s[..2][..1] == s[..1];
    assert TotalBeds(s[..2]) == 12;
    assert s[..3][..2] == s[..2];
    assert TotalBeds(s[..3]) == 17;
    assert s[..4][..3] == s[..3];
    assert TotalBeds(s[..4]) == 22;
    assert s[..5][..4] == s[..4];
    assert TotalBeds(s[..5]) == 24;
    assert s[..6][..5] == s[..5];
    assert TotalBeds(s[..6]) == 26;
    assert s[..7][..6] == s[..6];
    assert TotalBeds(s[..7]) == 28;
    assert s[..8][..7] == s[..7];
    assert TotalBeds(s[..8]) == 33;
    assert s[..9][..8] == s[..8];
    assert TotalBeds(s[..9]) == 37;
    assert s[..10][..9] == s[..9];
    assert TotalBeds(s[..10]) == 41;
    assert s[..11][..10] == s[..10];
    assert TotalBeds(s[..11]) == 44;
    assert s[..12][..11] == s[..11];
    assert TotalBeds(s[..12]) == 45;
    assert s[..13][..12] == s[..12];
    assert TotalBeds(s[..13]) == 48;
    assert s[..13] == s;
  }
}
