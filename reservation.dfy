/** The reservation entity: what a guest booked, and how many days remain until its next step. */
module Reservations {
  import opened Wrappers

  /** A calendar day, counted in days from a fixed epoch (`LocalDate.toEpochDay`). */
  type Day = int

  /** `Integer.MAX_VALUE` and `Integer.MIN_VALUE`. */
  const IntMax: int := 0x7fff_ffff
  const IntMin: int := -0x8000_0000

  /** The narrowing cast `(int)` of a `long`: keep the low 32 bits, as a signed number. */
  function ToInt32(x: int): (r: int)
    ensures IntMin <= r <= IntMax
    ensures IntMin <= x <= IntMax ==> r == x
    ensures (x - r) % 0x1_0000_0000 == 0
  {
    (x - IntMin) % 0x1_0000_0000 + IntMin
  }

  datatype ReservationState = Doing | Upcoming | Canceled | Ended

  /** The states whose guests take (or will take) beds. */
  predicate IsActive(s: ReservationState) {
    s == Upcoming || s == Doing
  }

  /** `calculateDaysToPerform`: days until arrival for an upcoming stay, until departure for a
      stay in progress, and `Integer.MAX_VALUE` for a cancelled or ended one. */
  function DaysToPerform(state: ReservationState, dateFrom: Day, dateTo: Day, today: Day): (r: int)
    ensures IntMin <= r <= IntMax
  {
    match state
    case Upcoming => ToInt32(dateFrom - today)
    case Doing => ToInt32(dateTo - today)
    case _ => IntMax
  }

  /** Sorting the reservation table by days-to-perform puts every cancelled or ended reservation
      after every upcoming or ongoing one. */
  lemma TerminalSortsLast(active: ReservationState, terminal: ReservationState,
                          from1: Day, to1: Day, from2: Day, to2: Day, today: Day)
    requires IsActive(active) && !IsActive(terminal)
    ensures DaysToPerform(active, from1, to1, today) <= DaysToPerform(terminal, from2, to2, today)
  {
  }

  /** An upcoming stay within reach of the 32-bit range counts the days to its arrival. */
  lemma UpcomingCountsDaysToArrival(from: Day, to: Day, today: Day)
    requires today <= from <= today + IntMax
    ensures DaysToPerform(Upcoming, from, to, today) == from - today >= 0
  {
  }

  /** An ongoing stay that ends today or later, within the 32-bit range, counts the days to its
      departure. */
  lemma DoingCountsDaysToDeparture(from: Day, to: Day, today: Day)
    requires today <= to <= today + IntMax
    ensures DaysToPerform(Doing, from, to, today) == to - today >= 0
  {
  }

  /** A cancelled or ended reservation always shows the largest `int`, whatever its dates. */
  lemma TerminalShowsIntMax(state: ReservationState, from: Day, to: Day, today: Day)
    requires state == Canceled || state == Ended
    ensures DaysToPerform(state, from, to, today) == IntMax
  {
  }

  /** The persisted value of a reservation, one row of the RESERVATION table. */
  datatype ReservationData = ReservationData(
    name: string, dateFrom: Day, dateTo: Day, telephone: string, email: string,
    people: int, info: string, state: ReservationState, id: Option<int>)

  class Reservation {
    const name: string
    const dateFrom: Day
    const dateTo: Day
    const telephone: string
    const email: string
    const people: int
    const info: string
    var state: ReservationState
    var id: Option<int>
    var daysToPerform: int

    function Data(): ReservationData
      reads this
    {
      ReservationData(name, dateFrom, dateTo, telephone, email, people, info, state, id)
    }

    /** The full constructor; `today` stands for `LocalDate.now()`. */
    constructor (name: string, dateFrom: Day, dateTo: Day, telephone: string, email: string,
                 people: int, info: string, state: ReservationState, id: Option<int>, today: Day)
      ensures Data() == ReservationData(name, dateFrom, dateTo, telephone, email, people, info, state, id)
      ensures daysToPerform == DaysToPerform(state, dateFrom, dateTo, today)
    {
      this.name := name;
      this.dateFrom := dateFrom;
      this.dateTo := dateTo;
      this.telephone := telephone;
      this.email := email;
      this.people := people;
      this.info := info;
      this.state := state;
      this.id := id;
      daysToPerform := 0;
      new;
      CalculateDaysToPerform(today);
    }

    method CalculateDaysToPerform(today: Day)
      modifies this`daysToPerform
      ensures daysToPerform == DaysToPerform(state, dateFrom, dateTo, today)
    {
      if state == Upcoming {
        daysToPerform := ToInt32(dateFrom - today);
      } else if state == Doing {
        daysToPerform := ToInt32(dateTo - today);
      } else {
        daysToPerform := IntMax;
      }
    }

    /** Changing the state recomputes the days to perform. */
    method SetState(state: ReservationState, today: Day)
      modifies this`state, this`daysToPerform
      ensures Data() == old(Data()).(state := state)
      ensures daysToPerform == DaysToPerform(state, dateFrom, dateTo, today)
    {
      this.state := state;
      CalculateDaysToPerform(today);
    }

    method SetId(id: Option<int>)
      modifies this`id
      ensures Data() == old(Data()).(id := id)
    {
      this.id := id;
    }
  }
}
