/**
 * A typed table column: a Java class the cells must belong to and an upper-cased name.
 */
module Columns {
  import opened Wrappers
  import opened Text
  import Reservations
  import Guests
  import Rooms

  /** The classes the tables of the system use for their columns. */
  datatype JType =
    | StringType | IntegerType | LongType | DoubleType | LocalDateType
    | ReservationStateType | GuestGenerationType | RoomTypeType | RoomStatusType

  /** A cell value; `Null` is Java's null reference, which belongs to no class. */
  datatype Value =
    | Null
    | Str(s: string)
    | Integer(i: int)
    | Long(l: int)
    | Double(d: real)
    | Date(day: int)
    | ReservationStateValue(rs: Reservations.ReservationState)
    | GuestGenerationValue(gg: Guests.GuestGeneration)
    | RoomTypeValue(rt: Rooms.RoomType)
    | RoomStatusValue(st: Rooms.RoomStatus)

  /** `getClass()` of a value; null has none. */
  function ClassOf(v: Value): Option<JType> {
    match v
    case Null => None
    case Str(_) => Some(StringType)
    case Integer(_) => Some(IntegerType)
    case Long(_) => Some(LongType)
    case Double(_) => Some(DoubleType)
    case Date(_) => Some(LocalDateType)
    case ReservationStateValue(_) => Some(ReservationStateType)
    case GuestGenerationValue(_) => Some(GuestGenerationType)
    case RoomTypeValue(_) => Some(RoomTypeType)
    case RoomStatusValue(_) => Some(RoomStatusType)
  }

  /** `Class.isInstance`: every column class is final, so an instance is a non-null value of
      exactly that class. */
  predicate IsInstance(t: JType, v: Value) {
    ClassOf(v) == Some(t)
  }

  datatype ColumnError = WrongType

  class Column {
    const columnType: JType
    const name: string

    /** The name is stored upper-cased. */
    constructor(columnType: JType, name: string)
      ensures this.columnType == columnType
      ensures this.name == UpperCase(name)
    {
      this.columnType := columnType;
      this.name := UpperCase(name);
    }

    /** The checked cast: the value itself when it is an instance of the column's class, an
        error otherwise. */
    function ValueOf(obj: Value): (r: Result<Value, ColumnError>)
      ensures r.Ok? <==> obj != Null && ClassOf(obj) == Some(columnType)
      ensures r.Ok? ==> r.value == obj
    {
      if !IsInstance(columnType, obj) then Err(WrongType) else Ok(obj)
    }
  }

  /** `Column.of(type, name)`: a new column of that type whose name is the upper-cased argument. */
  method Of(columnType: JType, name: string) returns (c: Column)
    ensures fresh(c)
    ensures c.columnType == columnType && c.name == UpperCase(name)
    ensures c.name == UpperCase(c.name)
  {
    c := new Column(columnType, name);
    UpperCaseIdempotent(name);
  }
}
