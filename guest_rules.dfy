/**
 * The rules of the guest form: when its confirm button is enabled, which problems it reports,
 * and how it counts the guests of a reservation being checked in one after the other.
 */
module GuestRules {
  import opened Text
  import opened Guests

  /** The values in the guest form's fields. */
  datatype GuestFields = GuestFields(name: string, idCard: string, generation: GuestGeneration, info: string)

  /** `isAllFilled`: a name, an identity card unless the guest is a child, and at most 1000
      characters of info. */
  predicate IsAllFilled(f: GuestFields) {
    !IsBlank(f.name) && (f.generation == Child || !IsBlank(f.idCard)) && |f.info| <= 1000
  }

  datatype GuestViolation = NameNotFilled | IdCardMandatory | InfoTooLong

  const ReportOrder: seq<GuestViolation> := [NameNotFilled, IdCardMandatory, InfoTooLong]

  predicate Violated(v: GuestViolation, f: GuestFields) {
    match v
    case NameNotFilled => IsBlank(f.name)
    case IdCardMandatory => f.generation == Adult && IsBlank(f.idCard)
    case InfoTooLong => |f.info| > 1000
  }

  function Check(v: GuestViolation, f: GuestFields): seq<GuestViolation> {
    if Violated(v, f) then [v] else []
  }

  /** The problems among the first `k` rules of `order` that the fields show, in that order. */
  function ReportedAmong(order: seq<GuestViolation>, k: nat, f: GuestFields): seq<GuestViolation>
    requires k <= |order|
  {
    if k == 0 then [] else ReportedAmong(order, k - 1, f) + Check(order[k - 1], f)
  }

  /** `getFilledInfo`, as a value: every violated rule, in report order. */
  function Violations(f: GuestFields): seq<GuestViolation> {
    ReportedAmong(ReportOrder, |ReportOrder|, f)
  }

  /** `getFilledInfo`: the report is built up one check after another, each problem appended
      when its check fails; it is the report `Violations` describes. */
  method GetFilledInfo(f: GuestFields) returns (report: seq<GuestViolation>)
    ensures report == Violations(f)
  {
    report := [];
    if IsBlank(f.name) {
      report := report + [NameNotFilled];
    }
    assert report == ReportedAmong(ReportOrder, 1, f);
    if f.generation == Adult && IsBlank(f.idCard) {
      report := report + [IdCardMandatory];
    }
    assert report == ReportedAmong(ReportOrder, 2, f);
    if |f.info| > 1000 {
      report := report + [InfoTooLong];
    }
    assert report == ReportedAmong(ReportOrder, 3, f);
  }

  lemma {:induction false} ReportedAmongMembers(order: seq<GuestViolation>, k: nat, f: GuestFields)
    requires k <= |order|
    ensures forall v :: v in ReportedAmong(order, k, f) <==> v in order[..k] && Violated(v, f)
  {
    if k > 0 {
      ReportedAmongMembers(order, k - 1, f);
      assert order[..k] == order[..k - 1] + [order[k - 1]];
    }
  }

  /** The guest form's confirm button is enabled exactly when it has nothing to report. */
  lemma AllFilledIffNothingReported(f: GuestFields)
    ensures IsAllFilled(f) <==> Violations(f) == []
  {
    ReportedAmongMembers(ReportOrder, |ReportOrder|, f);
    assert ReportOrder[..|ReportOrder|] == ReportOrder;
    if !IsAllFilled(f) {
      var v := if IsBlank(f.name) then NameNotFilled
               else if f.generation == Adult && IsBlank(f.idCard) then IdCardMandatory
               else InfoTooLong;
      assert v in ReportOrder && Violated(v, f);
      assert v in Violations(f);
    }
    assert Violations(f) == [] || Violations(f)[0] in Violations(f);
  }

  // ---------------------------------------------------------------- counting the guests

  /** What the confirm button does with the guest just entered. */
  datatype ConfirmStep =
    | SaveEdited   // store the edited guest and go back to the guest table
    | NextGuest    // keep the guest and ask for the next one
    | SaveCheckIn  // store all the reservation's guests and check the reservation in

  /** The label of the confirm button. */
  datatype ConfirmLabel = AddNextLabel | ConfirmLabel

  function Step(editing: bool, guestNum: int, numberToCheckIn: int): ConfirmStep {
    if editing then SaveEdited
    else if guestNum == numberToCheckIn - 1 then NextGuest
    else if guestNum == numberToCheckIn then SaveCheckIn
    else NextGuest
  }

  /** The label shown when the form appears (the guest count starts again at 1). */
  function LabelOnShow(editing: bool, numberToCheckIn: int): ConfirmLabel {
    if 1 == numberToCheckIn || editing then ConfirmLabel else AddNextLabel
  }

  /** The count of the guest being entered, after `k` confirmations of a check-in that has not
      finished, starting from 1. */
  function GuestNumAfter(numberToCheckIn: int, k: nat): int {
    if k == 0 then 1
    else
      var g := GuestNumAfter(numberToCheckIn, k - 1);
      if Step(false, g, numberToCheckIn) == NextGuest then g + 1 else g
  }

  /** The label after `k` such confirmations: it turns to "confirm" when the count reaches
      the last guest. */
  function LabelAfter(numberToCheckIn: int, k: nat): ConfirmLabel {
    if k == 0 then LabelOnShow(false, numberToCheckIn)
    else if GuestNumAfter(numberToCheckIn, k - 1) == numberToCheckIn - 1 then ConfirmLabel
    else LabelAfter(numberToCheckIn, k - 1)
  }

  /** Checking in `n` guests: the `k`-th confirmation is for guest number `k`; only the `n`-th
      stores the guests and checks the reservation in, and the button reads "confirm" exactly
      before that one. */
  lemma {:induction false} CheckInOnLastGuest(n: int, k: nat)
    requires 1 <= k <= n
    ensures GuestNumAfter(n, k - 1) == k
    ensures Step(false, GuestNumAfter(n, k - 1), n) == (if k == n then SaveCheckIn else NextGuest)
    ensures LabelAfter(n, k - 1) == (if k == n then ConfirmLabel else AddNextLabel)
  {
    if k > 1 {
      CheckInOnLastGuest(n, k - 1);
    }
  }
}
