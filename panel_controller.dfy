/**
 * The switch between the five content panels and the three highlighted menu buttons.
 */
module Panels {
  import opened Wrappers

  datatype PanelName = ReservationTable | ReservationForm | GuestTable | GuestForm | RoomTable

  predicate IsForm(p: PanelName) {
    p == ReservationForm || p == GuestForm
  }

  /** Whether a switch away from the current panel happens: leaving a form takes the user's
      confirmation, leaving any other panel (or none) does not. */
  predicate Leaves(current: Option<PanelName>, confirmed: bool) {
    !(current.Some? && IsForm(current.value)) || confirmed
  }

  /** The highlighted buttons for a panel: reservations, guests, rooms. */
  datatype ButtonFlags = ButtonFlags(reservations: bool, guests: bool, rooms: bool)

  function FlagsFor(p: PanelName): (f: ButtonFlags)
    ensures f.reservations <==> p == ReservationTable || p == ReservationForm
    ensures f.guests <==> p == GuestTable || p == GuestForm
    ensures f.rooms <==> p == RoomTable
  {
    ButtonFlags(p == ReservationTable || p == ReservationForm, p == GuestTable || p == GuestForm, p == RoomTable)
  }

  predicate ExactlyOne(f: ButtonFlags) {
    (f.reservations && !f.guests && !f.rooms)
    || (!f.reservations && f.guests && !f.rooms)
    || (!f.reservations && !f.guests && f.rooms)
  }

  /** Every panel highlights exactly one button. */
  lemma OneButtonPerPanel(p: PanelName)
    ensures ExactlyOne(FlagsFor(p))
  {
  }

  class ContentPanelController {
    var currentActive: Option<PanelName>
    var reservationsActive: bool
    var guestsActive: bool
    var roomsActive: bool

    function Flags(): ButtonFlags
      reads this
    {
      ButtonFlags(reservationsActive, guestsActive, roomsActive)
    }

    /** Once a panel is shown, the buttons highlighted are the ones of that panel. */
    ghost predicate Valid()
      reads this
    {
      currentActive.Some? ==> Flags() == FlagsFor(currentActive.value)
    }

    /** No panel is shown yet and no button is highlighted. */
    constructor()
      ensures currentActive == None && Flags() == ButtonFlags(false, false, false)
      ensures Valid()
    {
      currentActive := None;
      reservationsActive := false;
      guestsActive := false;
      roomsActive := false;
    }

    /** Shows the panel at once and highlights its button, and only its button. */
    method SwitchPanelNow(p: PanelName)
      modifies this
      ensures Valid()
      ensures currentActive == Some(p) && Flags() == FlagsFor(p)
      ensures ExactlyOne(Flags())
    {
      reservationsActive := p == ReservationTable || p == ReservationForm;
      guestsActive := p == GuestTable || p == GuestForm;
      roomsActive := p == RoomTable;
      currentActive := Some(p);
      OneButtonPerPanel(p);
    }

    /** Leaving a form asks first, and `confirmed` is the answer; leaving any other panel (or
        nothing) switches at once. A declined switch changes nothing. */
    method SwitchPanel(p: PanelName, confirmed: bool)
      requires Valid()
      modifies this
      ensures Valid()
      ensures if Leaves(old(currentActive), confirmed)
              then currentActive == Some(p) && Flags() == FlagsFor(p)
              else unchanged(this)
    {
      var doSwitch := true;
      if currentActive == Some(ReservationForm) || currentActive == Some(GuestForm) {
        doSwitch := confirmed;
      }
      if doSwitch {
        SwitchPanelNow(p);
      }
    }
  }
}
