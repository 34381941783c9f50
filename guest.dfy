/** The guest entity: a person staying under a reservation, possibly placed in a room. */
module Guests {
  import opened Wrappers

  datatype GuestGeneration = Adult | Child

  /** The persisted value of a guest, one row of the GUEST table; `room` is `""` while unassigned. */
  datatype GuestData = GuestData(
    name: string, room: string, idCard: string, generation: GuestGeneration, info: string,
    reservationId: int, id: Option<int>)

  class Guest {
    const name: string
    const idCard: string
    const generation: GuestGeneration
    const info: string
    const reservationId: int
    var id: Option<int>
    var room: string

    function Data(): GuestData
      reads this
    {
      GuestData(name, room, idCard, generation, info, reservationId, id)
    }

    constructor (name: string, room: string, idCard: string, generation: GuestGeneration,
                 info: string, reservationId: int, id: Option<int>)
      ensures Data() == GuestData(name, room, idCard, generation, info, reservationId, id)
    {
      this.name := name;
      this.room := room;
      this.idCard := idCard;
      this.generation := generation;
      this.info := info;
      this.reservationId := reservationId;
      this.id := id;
    }

    method SetRoom(room: string)
      modifies this`room
      ensures Data() == old(Data()).(room := room)
    {
      this.room := room;
    }

    method SetId(id: Option<int>)
      modifies this`id
      ensures Data() == old(Data()).(id := id)
    {
      this.id := id;
    }
  }
}
