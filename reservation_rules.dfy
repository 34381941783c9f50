/**
 * The rules of the reservation form: which telephone numbers and e-mail addresses it accepts,
 * when its confirm button is enabled, which problems it reports and in which order, and the
 * capacity check that accepts or refuses a booking.
 */
module ReservationRules {
  import opened Wrappers
  import opened Text
  import opened Reservations
  import opened Store

  // ---------------------------------------------------------------- telephone

  predicate AllDigits(s: string) {
    forall i :: 0 <= i < |s| ==> IsDigit(s[i])
  }

  /** The optional country prefix of the telephone pattern: `(?:\+[1-9][0-9]{0,2})?`. */
  predicate CountryPrefix(p: string) {
    p == [] || (2 <= |p| <= 4 && p[0] == '+' && '1' <= p[1] <= '9' && AllDigits(p[2..]))
  }

  /** The telephone pattern `^(?:\+[1-9][0-9]{0,2})?[0-9]{1,12}$`, as the regular expression reads:
      an optional country prefix followed by one to twelve digits. */
  ghost predicate TelephonePattern(t: string) {
    exists k :: 0 <= k <= |t| && CountryPrefix(t[..k]) && 1 <= |t| - k <= 12 && AllDigits(t[k..])
  }

  /** The same pattern, decided directly: one to twelve digits, or a plus sign, a non-zero digit
      and one to fourteen further digits. */
  predicate TelephoneMatches(t: string) {
    if |t| > 0 && t[0] == '+' then 3 <= |t| <= 16 && '1' <= t[1] <= '9' && AllDigits(t[1..])
    else 1 <= |t| <= 12 && AllDigits(t)
  }

  lemma TelephoneMatchesPattern(t: string)
    ensures TelephoneMatches(t) <==> TelephonePattern(t)
  {
    if TelephoneMatches(t) {
      MatchesHasPatternSplit(t);
    }
    if TelephonePattern(t) {
      var k :| 0 <= k <= |t| && CountryPrefix(t[..k]) && 1 <= |t| - k <= 12 && AllDigits(t[k..]);
      PatternSplitMatches(t, k);
    }
  }

  /** A number the direct test accepts splits into a prefix and digits as the pattern asks. */
  lemma MatchesHasPatternSplit(t: string)
    requires TelephoneMatches(t)
    ensures TelephonePattern(t)
  {
    var k := if t[0] == '+' then (if |t| - 12 > 2 then |t| - 12 else 2) else 0;
    if k > 0 {
      assert t[..k][2..] == t[2..k];
    }
    assert forall i :: 0 <= i < |t| - k ==> t[k..][i] == t[k + i];
    assert CountryPrefix(t[..k]) && AllDigits(t[k..]);
  }

  /** A split of the number the pattern accepts passes the direct test. */
  lemma PatternSplitMatches(t: string, k: int)
    requires 0 <= k <= |t| && CountryPrefix(t[..k]) && 1 <= |t| - k <= 12 && AllDigits(t[k..])
    ensures TelephoneMatches(t)
  {
    assert forall i :: k <= i < |t| ==> t[i] == t[k..][i - k];
    if k > 0 {
      assert t[0] == t[..k][0] == '+';
      assert forall i :: 2 <= i < k ==> t[i] == t[..k][2..][i - 2];
    } else {
      assert t[0] == t[k..][0];
    }
  }

  /** `isTelephoneOK`: filled in, and matching the pattern once spaces and hyphens are removed. */
  predicate IsTelephoneOk(telephone: string) {
    !IsBlank(telephone) && TelephoneMatches(WithoutSpacesAndHyphens(telephone))
  }

  // ---------------------------------------------------------------- e-mail

  /** A non-empty run of characters that are neither `\s` nor `@`: `[^\s@]+`. */
  predicate EmailPart(s: string) {
    |s| > 0 && forall i :: 0 <= i < |s| ==> !IsRegexSpace(s[i]) && s[i] != '@'
  }

  /** The e-mail pattern `^[^\s@]+@[^\s@]+\.[^\s@]+$`, as the regular expression reads. */
  predicate EmailPattern(s: string) {
    exists i, j :: 0 <= i < j < |s| && s[i] == '@' && s[j] == '.'
                   && EmailPart(s[..i]) && EmailPart(s[i + 1..j]) && EmailPart(s[j + 1..])
  }

  /** What the e-mail pattern accepts, said plainly: no `\s` character, exactly one `@`, not first,
      and after it a dot that is neither next to the `@` nor last. */
  ghost predicate EmailShape(s: string) {
    (forall k :: 0 <= k < |s| ==> !IsRegexSpace(s[k]))
    && exists i, j :: 0 < i && i + 1 < j < |s| - 1 && s[i] == '@' && s[j] == '.'
                      && forall k :: 0 <= k < |s| && s[k] == '@' ==> k == i
  }

  lemma EmailPatternShape(s: string)
    ensures EmailPattern(s) <==> EmailShape(s)
  {
    if EmailPattern(s) {
      var i, j :| 0 <= i < j < |s| && s[i] == '@' && s[j] == '.'
                  && EmailPart(s[..i]) && EmailPart(s[i + 1..j]) && EmailPart(s[j + 1..]);
      forall k | 0 <= k < |s|
        ensures !IsRegexSpace(s[k]) && (s[k] == '@' ==> k == i)
      {
        if k < i { assert s[k] == s[..i][k]; }
        else if i < k < j { assert s[k] == s[i + 1..j][k - i - 1]; }
        else if k == j { }
        else if j < k { assert s[k] == s[j + 1..][k - j - 1]; }
      }
    }
    if EmailShape(s) {
      var i, j :| 0 < i && i + 1 < j < |s| - 1 && s[i] == '@' && s[j] == '.'
                  && forall k :: 0 <= k < |s| && s[k] == '@' ==> k == i;
      assert EmailPart(s[..i]);
      assert EmailPart(s[i + 1..j]);
      assert EmailPart(s[j + 1..]);
    }
  }

  /** `isEmailOK`: filled in and matching the pattern. */
  predicate IsEmailOk(email: string) {
    !IsBlank(email) && EmailPattern(email)
  }

  /** An address that matches the pattern is never blank, so the pattern alone decides. */
  lemma EmailOkIsPattern(email: string)
    ensures IsEmailOk(email) <==> EmailPattern(email)
  {
    if EmailPattern(email) {
      var i, j :| 0 <= i < j < |email| && email[i] == '@' && email[j] == '.'
                  && EmailPart(email[..i]) && EmailPart(email[i + 1..j]) && EmailPart(email[j + 1..]);
      assert !IsJavaWhitespace(email[i]);
    }
  }

  // ---------------------------------------------------------------- the form's rules

  /** The values in the form's fields; an empty date picker holds no date. */
  datatype ReservationFields = ReservationFields(
    name: string, telephone: string, email: string, dateFrom: Option<Day>, dateTo: Option<Day>,
    people: int, info: string, state: ReservationState)

  /** `isAllFilled`: when the confirm button is enabled. The people spinner always holds a value. */
  predicate IsAllFilled(f: ReservationFields, today: Day) {
    !IsBlank(f.name) && IsTelephoneOk(f.telephone) && f.dateFrom.Some? && f.dateTo.Some?
    && f.dateTo.value > f.dateFrom.value
    && (f.state != Upcoming || f.dateFrom.value >= today)
    && (f.state == Ended || f.dateTo.value >= today)
    && (IsBlank(f.email) || IsEmailOk(f.email))
    && (IsBlank(f.info) || |f.info| <= 1000)
  }

  /** The problems the disabled confirm button explains, by message key. */
  datatype Violation =
    | NameNotFilled | PhoneNotFilled | PhoneNotCorrect | EmailNotCorrect
    | DateFromNotFuture | DateToNotFuture | DateToNotAfterFrom
    | DateFromNotFilled | DateToNotFilled | InfoTooLong

  /** The order in which the problems are reported. */
  const ReportOrder: seq<Violation> :=
    [ NameNotFilled, PhoneNotFilled, PhoneNotCorrect, EmailNotCorrect,
      DateFromNotFuture, DateToNotFuture, DateToNotAfterFrom,
      DateFromNotFilled, DateToNotFilled, InfoTooLong ]

  /** When each problem is reported. The date checks that compare two dates are only made when
      both dates are present; otherwise each missing date is reported. */
  predicate Violated(v: Violation, f: ReservationFields, today: Day) {
    var both := f.dateFrom.Some? && f.dateTo.Some?;
    match v
    case NameNotFilled => IsBlank(f.name)
    case PhoneNotFilled => IsBlank(f.telephone)
    case PhoneNotCorrect => !IsBlank(f.telephone) && !IsTelephoneOk(f.telephone)
    case EmailNotCorrect => !IsBlank(f.email) && !IsEmailOk(f.email)
    case DateFromNotFuture => both && f.state == Upcoming && f.dateFrom.value < today
    case DateToNotFuture => both && f.state != Ended && f.dateTo.value < today
    case DateToNotAfterFrom => both && !(f.dateTo.value > f.dateFrom.value)
    case DateFromNotFilled => f.dateFrom.None?
    case DateToNotFilled => f.dateTo.None?
    case InfoTooLong => |f.info| > 1000
  }

  function Check(v: Violation, f: ReservationFields, today: Day): seq<Violation> {
    if Violated(v, f, today) then [v] else []
  }

  /** The problems among the first `k` rules of `order` that the fields show, in that order. */
  function ReportedAmong(order: seq<Violation>, k: nat, f: ReservationFields, today: Day): seq<Violation>
    requires k <= |order|
  {
    if k == 0 then [] else ReportedAmong(order, k - 1, f, today) + Check(order[k - 1], f, today)
  }

  /** `getFilledInfo`, as a value: every violated rule, in report order. */
  function Violations(f: ReservationFields, today: Day): seq<Violation> {
    ReportedAmong(ReportOrder, |ReportOrder|, f, today)
  }

  /** `getFilledInfo`: the report is built up one check after another, each problem appended
      when its check fails; it is the report `Violations` describes. The people spinner always
      holds a value, so its check never appends anything and is left out. */
  method GetFilledInfo(f: ReservationFields, today: Day) returns (report: seq<Violation>)
    ensures report == Violations(f, today)
  {
    report := ContactChecks(f, today);
    ReportDateComparisons(f, today);
    ReportMissingDates(f, today);
    report := AppendDateChecks(report, f, today);
    if |f.info| > 1000 {
      report := report + [InfoTooLong];
    }
    assert ReportedAmong(ReportOrder, 10, f, today)
        == ReportedAmong(ReportOrder, 9, f, today) + Check(InfoTooLong, f, today);
  }

  /** The first part of `getFilledInfo`: the name, then the telephone (missing or malformed),
      then a malformed e-mail. */
  method ContactChecks(f: ReservationFields, today: Day) returns (report: seq<Violation>)
    ensures report == ReportedAmong(ReportOrder, 4, f, today)
  {
    report := [];
    if IsBlank(f.name) {
      report := report + [NameNotFilled];
    }
    assert report == Check(NameNotFilled, f, today);
    if IsBlank(f.telephone) {
      report := report + [PhoneNotFilled];
    } else if !IsTelephoneOk(f.telephone) {
      report := report + [PhoneNotCorrect];
    }
    assert report == Check(NameNotFilled, f, today) + Check(PhoneNotFilled, f, today) + Check(PhoneNotCorrect, f, today);
    ghost var phoned := report;
    if !IsBlank(f.email) && !IsEmailOk(f.email) {
      report := report + [EmailNotCorrect];
    }
    assert report == phoned + Check(EmailNotCorrect, f, today);
    ReportUpToEmail(f, today);
  }

  /** The date part of `getFilledInfo`: the dates are compared only when both are filled in,
      otherwise each missing one is reported. */
  method AppendDateChecks(before: seq<Violation>, f: ReservationFields, today: Day) returns (report: seq<Violation>)
    ensures report == before + DateComparisons(f, today) + MissingDates(f, today)
  {
    report := before;
    var c5, c6, c7 := Check(DateFromNotFuture, f, today), Check(DateToNotFuture, f, today), Check(DateToNotAfterFrom, f, today);
    var c8, c9 := Check(DateFromNotFilled, f, today), Check(DateToNotFilled, f, today);
    if f.dateFrom.Some? && f.dateTo.Some? {
      if f.state == Upcoming && f.dateFrom.value < today {
        report := report + [DateFromNotFuture];
      }
      assert report == before + c5;
      if f.state != Ended && f.dateTo.value < today {
        report := report + [DateToNotFuture];
      }
      assert report == before + (c5 + c6);
      if !(f.dateTo.value > f.dateFrom.value) {
        report := report + [DateToNotAfterFrom];
      }
      assert report == before + (c5 + c6 + c7);
      assert MissingDates(f, today) == [];
    } else {
      assert DateComparisons(f, today) == [];
      if f.dateFrom.None? {
        report := report + [DateFromNotFilled];
      }
      assert report == before + c8;
      if f.dateTo.None? {
        report := report + [DateToNotFilled];
      }
      assert report == before + (c8 + c9);
    }
  }

  /** The problems found by comparing the dates, in report order. */
  function DateComparisons(f: ReservationFields, today: Day): seq<Violation> {
    Check(DateFromNotFuture, f, today) + Check(DateToNotFuture, f, today) + Check(DateToNotAfterFrom, f, today)
  }

  /** The dates left out, in report order. */
  function MissingDates(f: ReservationFields, today: Day): seq<Violation> {
    Check(DateFromNotFilled, f, today) + Check(DateToNotFilled, f, today)
  }

  /** The report up to the e-mail check: name, telephone and e-mail problems. */
  lemma ReportUpToEmail(f: ReservationFields, today: Day)
    ensures ReportedAmong(ReportOrder, 4, f, today)
         == Check(NameNotFilled, f, today) + Check(PhoneNotFilled, f, today) + Check(PhoneNotCorrect, f, today)
            + Check(EmailNotCorrect, f, today)
  {
    var r := ReportOrder;
    assert ReportedAmong(r, 1, f, today) == Check(NameNotFilled, f, today);
    assert ReportedAmong(r, 2, f, today) == ReportedAmong(r, 1, f, today) + Check(PhoneNotFilled, f, today);
    assert ReportedAmong(r, 3, f, today) == ReportedAmong(r, 2, f, today) + Check(PhoneNotCorrect, f, today);
    assert ReportedAmong(r, 4, f, today) == ReportedAmong(r, 3, f, today) + Check(EmailNotCorrect, f, today);
  }

  /** The date comparisons follow the e-mail check in the report. */
  lemma ReportDateComparisons(f: ReservationFields, today: Day)
    ensures ReportedAmong(ReportOrder, 7, f, today) == ReportedAmong(ReportOrder, 4, f, today) + DateComparisons(f, today)
  {
    var r := ReportOrder;
    var p := ReportedAmong(r, 4, f, today);
    var c5, c6, c7 := Check(DateFromNotFuture, f, today), Check(DateToNotFuture, f, today), Check(DateToNotAfterFrom, f, today);
    assert ReportedAmong(r, 5, f, today) == p + c5;
    assert ReportedAmong(r, 6, f, today) == p + (c5 + c6);
    assert ReportedAmong(r, 7, f, today) == p + (c5 + c6 + c7);
  }

  /** The missing dates follow the date comparisons in the report. */
  lemma ReportMissingDates(f: ReservationFields, today: Day)
    ensures ReportedAmong(ReportOrder, 9, f, today) == ReportedAmong(ReportOrder, 7, f, today) + MissingDates(f, today)
  {
    var r := ReportOrder;
    var p := ReportedAmong(r, 7, f, today);
    var c8, c9 := Check(DateFromNotFilled, f, today), Check(DateToNotFilled, f, today);
    assert ReportedAmong(r, 8, f, today) == p + c8;
    assert ReportedAmong(r, 9, f, today) == p + (c8 + c9);
  }

  /** A problem is reported exactly when it is among the rules and the fields violate it. */
  lemma {:induction false} ReportedAmongMembers(order: seq<Violation>, k: nat, f: ReservationFields, today: Day)
    requires k <= |order|
    ensures forall v :: v in ReportedAmong(order, k, f, today)
                        <==> v in order[..k] && Violated(v, f, today)
  {
    if k > 0 {
      ReportedAmongMembers(order, k - 1, f, today);
      assert order[..k] == order[..k - 1] + [order[k - 1]];
    }
  }

  /** Every problem is on the report, so the report is empty exactly when no rule is violated. */
  lemma ViolationsMembers(f: ReservationFields, today: Day)
    ensures forall v :: v in Violations(f, today) <==> Violated(v, f, today)
  {
    ReportedAmongMembers(ReportOrder, |ReportOrder|, f, today);
    assert ReportOrder[..|ReportOrder|] == ReportOrder;
    forall v
      ensures v in ReportOrder
    {
      var i := match v
        case NameNotFilled => 0 case PhoneNotFilled => 1 case PhoneNotCorrect => 2
        case EmailNotCorrect => 3 case DateFromNotFuture => 4 case DateToNotFuture => 5
        case DateToNotAfterFrom => 6 case DateFromNotFilled => 7 case DateToNotFilled => 8
        case InfoTooLong => 9;
      assert ReportOrder[i] == v;
    }
  }

  /** The confirm button is enabled exactly when no rule is violated, except that an over-long
      info made only of whitespace is reported and yet does not disable it. */
  lemma AllFilledIffOnlyBlankInfoViolated(f: ReservationFields, today: Day)
    ensures IsAllFilled(f, today)
        <==> forall v :: Violated(v, f, today) ==> v == InfoTooLong && IsBlank(f.info)
  {
    if forall v :: Violated(v, f, today) ==> v == InfoTooLong && IsBlank(f.info) {
      assert !Violated(NameNotFilled, f, today) && !Violated(PhoneNotFilled, f, today);
      assert !Violated(PhoneNotCorrect, f, today) && !Violated(EmailNotCorrect, f, today);
      assert !Violated(DateFromNotFilled, f, today) && !Violated(DateToNotFilled, f, today);
      assert !Violated(DateFromNotFuture, f, today) && !Violated(DateToNotFuture, f, today);
      assert !Violated(DateToNotAfterFrom, f, today);
      assert Violated(InfoTooLong, f, today) ==> IsBlank(f.info);
    }
  }

  /** The same, said of the report the button shows. */
  lemma AllFilledIffNothingReported(f: ReservationFields, today: Day)
    ensures IsAllFilled(f, today)
        <==> forall v :: v in Violations(f, today) ==> v == InfoTooLong && IsBlank(f.info)
  {
    ViolationsMembers(f, today);
    AllFilledIffOnlyBlankInfoViolated(f, today);
  }

  // ---------------------------------------------------------------- capacity

  /** `overlapsWith`: the stays share a night; touching stays (one leaves the day the other
      arrives) do not overlap. */
  predicate Overlaps(a: ReservationData, b: ReservationData) {
    a.dateFrom < b.dateTo && b.dateFrom < a.dateTo
  }

  predicate StaysOn(r: ReservationData, d: Day) {
    r.dateFrom <= d < r.dateTo
  }

  /** Two stays, each at least one night long, overlap exactly when some night `d` (from day `d`
      to day `d + 1`) lies in both. */
  lemma OverlapsIffSharedNight(a: ReservationData, b: ReservationData)
    requires a.dateFrom < a.dateTo && b.dateFrom < b.dateTo
    ensures Overlaps(a, b) <==> exists d :: StaysOn(a, d) && StaysOn(b, d)
  {
    if Overlaps(a, b) {
      var d := if a.dateFrom < b.dateFrom then b.dateFrom else a.dateFrom;
      assert StaysOn(a, d) && StaysOn(b, d);
    }
  }

  /** A stored reservation takes beds away from the candidate: it overlaps, it is not the
      candidate's own earlier version, and it is upcoming or in progress. */
  predicate Competes(r: ReservationData, c: ReservationData) {
    Overlaps(r, c) && r.id != c.id && IsActive(r.state)
  }

  /** The people of the stored reservations that compete with the candidate. */
  function OverlappingPeople(s: seq<ReservationData>, c: ReservationData): int {
    if s == [] then 0
    else OverlappingPeople(s[..|s| - 1], c) + (if Competes(s[|s| - 1], c) then s[|s| - 1].people else 0)
  }

  /** The confirm action's capacity check. */
  predicate Accepts(s: seq<ReservationData>, c: ReservationData, totalBeds: int) {
    OverlappingPeople(s, c) + c.people <= totalBeds
  }

  /** The people a reservation puts in the hotel on night `d`. */
  function Contribution(r: ReservationData, d: Day): int {
    if IsActive(r.state) && r.dateFrom <= d < r.dateTo then r.people else 0
  }

  /** The people in the hotel on night `d`, over all stored reservations. */
  function Load(s: seq<ReservationData>, d: Day): int {
    if s == [] then 0 else Load(s[..|s| - 1], d) + Contribution(s[|s| - 1], d)
  }

  /** The same, leaving out the reservations with the given id. */
  function LoadOther(s: seq<ReservationData>, id: Option<int>, d: Day): int {
    if s == [] then 0
    else LoadOther(s[..|s| - 1], id, d) + (if s[|s| - 1].id != id then Contribution(s[|s| - 1], d) else 0)
  }

  function CountWithId(s: seq<ReservationData>, id: Option<int>): nat {
    if s == [] then 0 else CountWithId(s[..|s| - 1], id) + (if s[|s| - 1].id == id then 1 else 0)
  }

  predicate PeopleNonNegative(s: seq<ReservationData>) {
    forall i :: 0 <= i < |s| ==> s[i].people >= 0
  }

  /** Every night of the candidate's stay, the others in the hotel are among those counted as
      competing with it. */
  lemma {:induction false} LoadOtherWithinOverlapping(s: seq<ReservationData>, c: ReservationData, d: Day)
    requires PeopleNonNegative(s)
    requires c.dateFrom <= d < c.dateTo
    ensures LoadOther(s, c.id, d) <= OverlappingPeople(s, c)
  {
    if s != [] {
      LoadOtherWithinOverlapping(s[..|s| - 1], c, d);
    }
  }

  lemma {:induction false} LoadOtherWithinLoad(s: seq<ReservationData>, id: Option<int>, d: Day)
    requires PeopleNonNegative(s)
    ensures LoadOther(s, id, d) <= Load(s, d)
  {
    if s != [] {
      LoadOtherWithinLoad(s[..|s| - 1], id, d);
    }
  }

  /** When no stored reservation lacks an id, leaving out the id-less ones leaves out nothing. */
  lemma {:induction false} LoadOtherOfNoId(s: seq<ReservationData>, d: Day)
    requires forall i :: 0 <= i < |s| ==> s[i].id.Some?
    ensures LoadOther(s, None, d) == Load(s, d)
  {
    if s != [] {
      LoadOtherOfNoId(s[..|s| - 1], d);
    }
  }

  /** After an update by id, the night's load is the others' load plus the new version once for
      every record that carried the id. */
  lemma {:induction false} LoadAfterReplace(s: seq<ReservationData>, c: ReservationData, d: Day)
    ensures Load(ReplaceReservation(s, c), d) == LoadOther(s, c.id, d) + CountWithId(s, c.id) * Contribution(c, d)
  {
    if s != [] {
      var n := |s| - 1;
      LoadAfterReplace(s[..n], c, d);
      assert ReplaceReservation(s, c)[..n] == ReplaceReservation(s[..n], c);
    }
  }

  /** Nightly capacity: on no night do the active reservations hold more people than there are beds. */
  ghost predicate WithinCapacity(s: seq<ReservationData>, totalBeds: int) {
    forall d :: Load(s, d) <= totalBeds
  }

  /** Accepting a new reservation (inserted with a fresh id) keeps the hotel within capacity on
      every night. */
  lemma AcceptedNewReservationKeepsCapacity(s: seq<ReservationData>, c: ReservationData, newId: int, totalBeds: int)
    requires PeopleNonNegative(s) && c.people >= 0
    requires forall i :: 0 <= i < |s| ==> s[i].id.Some?
    requires c.id.None?
    requires WithinCapacity(s, totalBeds)
    requires Accepts(s, c, totalBeds)
    ensures WithinCapacity(s + [c.(id := Some(newId))], totalBeds)
  {
    var t := s + [c.(id := Some(newId))];
    forall d
      ensures Load(t, d) <= totalBeds
    {
      assert t[..|t| - 1] == s;
      assert Load(t, d) == Load(s, d) + Contribution(c, d);
      if IsActive(c.state) && c.dateFrom <= d < c.dateTo {
        LoadOtherOfNoId(s, d);
        LoadOtherWithinOverlapping(s, c, d);
      }
    }
  }

  /** Accepting an edited reservation (stored over its earlier version) keeps the hotel within
      capacity on every night. Ids are primary keys, so at most one record carries the id. */
  lemma AcceptedEditKeepsCapacity(s: seq<ReservationData>, c: ReservationData, totalBeds: int)
    requires PeopleNonNegative(s) && c.people >= 0
    requires c.id.Some? && CountWithId(s, c.id) <= 1
    requires WithinCapacity(s, totalBeds)
    requires Accepts(s, c, totalBeds)
    ensures WithinCapacity(ReplaceReservation(s, c), totalBeds)
  {
    forall d
      ensures Load(ReplaceReservation(s, c), d) <= totalBeds
    {
      LoadAfterReplace(s, c, d);
      if IsActive(c.state) && c.dateFrom <= d < c.dateTo {
        LoadOtherWithinOverlapping(s, c, d);
      } else {
        LoadOtherWithinLoad(s, c.id, d);
      }
    }
  }
}
