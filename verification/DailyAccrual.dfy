/**
 When a daily holding charge falls and how many days it covers.

 Dates are day numbers and instants are nanoseconds, both counted from the Unix epoch. A panic of
 the program is `None`.
 */
module DailyAccrual {
  import opened Wrappers
  import opened Search

  const DAY: int := 86_400_000_000_000
  const MINUTE: int := 60_000_000_000
  const CUTOFF_SEARCH_DAYS: int := 3660
  const U32_MAX: int := 0xFFFF_FFFF

  // ------------------------------------------------------------------------------ business days

  /** Dates `date + 1 ..= date + 3660`, stopping at the last representable date. */
  function SearchEnd(from: int, last: int): int {
    if from + CUTOFF_SEARCH_DAYS <= last then from + CUTOFF_SEARCH_DAYS else last + 1
  }

  function NextBusinessDay(open: int -> bool, last: int, date: int): Option<int> {
    First(open, date + 1, SearchEnd(date + 1, last))
  }

  /** The first business day of the 3660 dates after `date`, none if none of them up to `last` is one. */
  lemma NextBusinessDayIsTheFirst(open: int -> bool, last: int, date: int)
    ensures var r := NextBusinessDay(open, last, date);
            r.Some? ==>
              && date < r.value <= date + 3660 && r.value <= last && open(r.value)
              && forall d :: date < d < r.value ==> !open(d)
    ensures NextBusinessDay(open, last, date).None?
            <==> forall d :: date < d <= date + 3660 && d <= last ==> !open(d)
  {
    var r := First(open, date + 1, SearchEnd(date + 1, last));
  }

  /** The program's search loop, over a mutable date. */
  method FindNextBusinessDay(open: int -> bool, last: int, date: int) returns (r: Option<int>)
    requires date <= last
    ensures r == NextBusinessDay(open, last, date)
  {
    if date == last {
      return None;
    }
    var next := date + 1;
    for i := 0 to CUTOFF_SEARCH_DAYS
      invariant next == date + 1 + i
      invariant next <= last
      invariant NextBusinessDay(open, last, date) == First(open, next, SearchEnd(date + 1, last))
    {
      if open(next) {
        return Some(next);
      }
      if next == last {
        return None;
      }
      next := next + 1;
    }
    return None;
  }

  /** The date `days` business days after `date`. */
  function AddBusinessDays(open: int -> bool, last: int, date: int, days: nat): Option<int> {
    if days == 0 then Some(date)
    else AddBusinessDays(open, last, date, days - 1).AndThen(d => NextBusinessDay(open, last, d))
  }

  /** How many of the dates after `start` up to `end` are business days. */
  function BusinessDays(open: int -> bool, start: int, end: int): nat
    decreases end - start
  {
    if end <= start then 0
    else if open(end) then BusinessDays(open, start, end - 1) + 1
    else BusinessDays(open, start, end - 1)
  }

  lemma {:induction false} NoBusinessDays(open: int -> bool, start: int, end: int)
    requires forall d :: start < d <= end ==> !open(d)
    ensures BusinessDays(open, start, end) == 0
    decreases end - start
  {
    if start < end {
      NoBusinessDays(open, start, end - 1);
    }
  }

  lemma {:induction false} BusinessDaysAdd(open: int -> bool, start: int, mid: int, end: int)
    requires start <= mid <= end
    ensures BusinessDays(open, start, end) == BusinessDays(open, start, mid) + BusinessDays(open, mid, end)
    decreases end - mid
  {
    if mid < end {
      BusinessDaysAdd(open, start, mid, end - 1);
    }
  }

  /** The date a lag leads to is that many business days on, and one itself unless the lag is none. */
  lemma {:induction false} LagCountsBusinessDays(open: int -> bool, last: int, date: int, lag: nat)
    requires AddBusinessDays(open, last, date, lag).Some?
    ensures var settles := AddBusinessDays(open, last, date, lag).value;
            && date <= settles && BusinessDays(open, date, settles) == lag
            && (if lag == 0 then settles == date else open(settles))
  {
    if lag > 0 {
      var before := AddBusinessDays(open, last, date, lag - 1).value;
      var settles := AddBusinessDays(open, last, date, lag).value;
      LagCountsBusinessDays(open, last, date, lag - 1);
      NoBusinessDays(open, before, settles - 1);
      BusinessDaysAdd(open, date, before, settles);
    }
  }

  /** Settling the next business day's trade is settling today's and then stepping once more. */
  lemma {:induction false} LagCommutes(open: int -> bool, last: int, date: int, lag: nat)
    ensures NextBusinessDay(open, last, date).AndThen(d => AddBusinessDays(open, last, d, lag))
         == AddBusinessDays(open, last, date, lag).AndThen(d => NextBusinessDay(open, last, d))
  {
    if lag == 0 {
    } else {
      LagCommutes(open, last, date, lag - 1);
    }
  }

  // ------------------------------------------------------------------------------ the accrual

  /**
   A time zone: the first instant with a local time, if the local clock shows it, and the local
   time of an instant.
   */
  datatype Zone = Zone(earliest: int -> Option<int>, localOf: int -> int)

  datatype AccrualDays = Calendar | Settlement(open: int -> bool, lag: nat)

  datatype Accrual = Accrual(cutoff: int, zone: Zone, days: AccrualDays, last: int) {

    function LocalDate(instant: int): int {
      zone.localOf(instant) / 86_400_000_000_000
    }

    predicate HasCutoff(date: int) {
      match days
      case Calendar => true
      case Settlement(open, _) => open(date)
    }

    /** Whether the local clock shows the cutoff's time of day plus `minute` minutes of all time. */
    function Shows(): int -> bool {
      minute => zone.earliest(cutoff + minute * MINUTE).Some?
    }

    /** The cutoff's instant on `date`, stepped past a gap in local time a minute at a time. */
    function CutoffOn(date: int): Option<int> {
      First(Shows(), date * 1440, date * 1440 + 1441)
        .AndThen(minute => zone.earliest(cutoff + minute * MINUTE))
    }

    /** Whether the search for a cutoff after `after` ends on a date, if only by a panic there. */
    function EndsSearch(after: int): int -> bool {
      date => HasCutoff(date) && (CutoffOn(date).Some? ==> CutoffOn(date).value > after)
    }

    function NextBoundary(after: int): Option<int> {
      var date := LocalDate(after);
      First(EndsSearch(after), date, SearchEnd(date, last)).AndThen(d => CutoffOn(d))
    }

    function Next(): int -> Option<int> {
      t => NextBoundary(t)
    }

    /** The program's search loop, over a mutable date. */
    method FindNextBoundary(after: int) returns (r: Option<int>)
      requires LocalDate(after) <= last
      ensures r == NextBoundary(after)
    {
      ghost var ends, first := EndsSearch(after), LocalDate(after);
      ghost var limit := SearchEnd(first, last);
      var date := LocalDate(after);
      for i := 0 to CUTOFF_SEARCH_DAYS
        invariant date == first + i
        invariant date <= last
        invariant First(ends, first, limit) == First(ends, date, limit)
      {
        if HasCutoff(date) {
          var boundary := CutoffOn(date);
          if boundary.None? || boundary.value > after {
            assert First(ends, date, limit) == Some(date);
            return boundary;
          }
        }
        assert !ends(date);
        if date == last {
          return None;
        }
        date := date + 1;
      }
      return None;
    }

    /** How many days the charge at `boundary` covers. */
    function Days(boundary: int): Option<int> {
      match days
      case Calendar => Some(1)
      case Settlement(open, lag) =>
        var date := LocalDate(boundary);
        var settles := AddBusinessDays(open, last, date, lag);
        var nextSettles := NextBusinessDay(open, last, date)
                           .AndThen(d => AddBusinessDays(open, last, d, lag));
        if settles.None? || nextSettles.None? then None
        else Some(SaturateU32(nextSettles.value - settles.value))
    }

    // -------------------------------------------------------------- what a reader can rely on

    /** `date`'s cutoff is at `t`. */
    predicate IsCutoffOn(date: int, t: int) {
      date <= last && HasCutoff(date) && CutoffOn(date) == Some(t)
    }

    /** `t` is one of this accrual's cutoffs. */
    ghost predicate IsCutoff(t: int) {
      exists date :: IsCutoffOn(date, t)
    }

    /** The date whose cutoff is at `t`; the local date there can be the one after. */
    ghost function DateOf(t: int): int {
      if exists date :: IsCutoffOn(date, t) then var date :| IsCutoffOn(date, t); date else 0
    }

    /** Every cutoff is placed, on its own local date or the next one, in date order. */
    ghost predicate Placed() {
      && (forall d :: CutoffOn(d).Some? && d <= LocalDate(CutoffOn(d).value) <= d + 1)
      && (forall d, e :: d < e ==> CutoffOn(d).value < CutoffOn(e).value)
    }

    ghost predicate LocalDatesNeverGoBack() {
      forall s, t :: s <= t ==> LocalDate(s) <= LocalDate(t)
    }

    /**
     Local dates and cutoffs keep step: local dates never go back, and every cutoff is placed, on
     its own local date, in date order, and not after an instant of a later local date.
     */
    ghost predicate Orderly() {
      && LocalDatesNeverGoBack()
      && (forall d :: CutoffOn(d).Some? && LocalDate(CutoffOn(d).value) == d)
      && (forall d, e :: d < e ==> CutoffOn(d).value < CutoffOn(e).value)
      && (forall d, t :: d < LocalDate(t) ==> CutoffOn(d).value <= t)
    }

    /** No cutoff of an earlier date than the one a search from `after` starts on is still to come. */
    ghost predicate Reaches(after: int)
      requires Placed()
    {
      forall d :: d < LocalDate(after) && d <= last && HasCutoff(d) ==> CutoffOn(d).value <= after
    }

    /** The date after `date` with a cutoff. */
    function Following(date: int): Option<int> {
      match days
      case Calendar => Some(date + 1)
      case Settlement(open, _) => NextBusinessDay(open, last, date)
    }

    /** The first day the charge at a cutoff on `date` covers. */
    function Settles(date: int): Option<int> {
      match days
      case Calendar => Some(date)
      case Settlement(open, lag) => AddBusinessDays(open, last, date, lag)
    }

    /** The first day after those the charge at a cutoff on `date` covers. */
    function SettlesNext(date: int): Option<int> {
      match days
      case Calendar => Some(date + 1)
      case Settlement(open, lag) =>
        NextBusinessDay(open, last, date).AndThen(d => AddBusinessDays(open, last, d, lag))
    }

    /** Whether a charge read on `date` is for calendar day `day`. */
    predicate ChargesOn(date: int, day: int) {
      && Settles(date).Some? && SettlesNext(date).Some?
      && Settles(date).value <= day < SettlesNext(date).value
    }

    /** Whether the charge at `boundary` is for calendar day `day`. */
    predicate Charges(boundary: int, day: int) {
      ChargesOn(LocalDate(boundary), day)
    }
  }

  function SaturateU32(n: int): int {
    if 0 <= n <= U32_MAX then n else U32_MAX
  }

  // ------------------------------------------------------------------------------ zones

  function FixedOffset(offset: int): Zone {
    Zone(local => Some(local - offset), instant => instant + offset)
  }

  /** A zone with a fixed offset keeps local dates and cutoffs in step, whatever the offset. */
  lemma FixedOffsetIsOrderly(a: Accrual, offset: int)
    requires a.zone == FixedOffset(offset)
    requires 0 <= a.cutoff < DAY
    ensures a.Orderly() && a.Placed()
    ensures forall d :: a.CutoffOn(d) == Some(d * DAY + a.cutoff - offset)
  {
    forall d
      ensures a.CutoffOn(d) == Some(d * DAY + a.cutoff - offset)
      ensures a.LocalDate(a.CutoffOn(d).value) == d
    {
      FirstUnique(a.Shows(), d * 1440, d * 1440 + 1441, d * 1440);
    }
  }

  /** Each local time the clock shows is the local time of the instant given for it. */
  ghost predicate Consistent(zone: Zone) {
    forall local :: zone.earliest(local).Some? ==> zone.localOf(zone.earliest(local).value) == local
  }

  /**
   In any zone, daylight saving included, a cutoff keeps its local date exactly when the gap it
   falls in, if any, ends before midnight; otherwise it is on the next one.
   */
  lemma CutoffKeepsItsDate(a: Accrual, date: int, minute: int)
    requires Consistent(a.zone)
    requires 0 <= a.cutoff < DAY
    requires IsFirst(a.Shows(), date * 1440, date * 1440 + 1441, date * 1440 + minute)
    ensures a.CutoffOn(date) == a.zone.earliest(a.cutoff + (date * 1440 + minute) * MINUTE)
    ensures a.CutoffOn(date).Some?
    ensures a.LocalDate(a.CutoffOn(date).value)
         == if a.cutoff + minute * MINUTE < DAY then date else date + 1
  {
    FirstUnique(a.Shows(), date * 1440, date * 1440 + 1441, date * 1440 + minute);
    var local := a.cutoff + (date * 1440 + minute) * MINUTE;
    assert a.Shows()(date * 1440 + minute);
    assert a.zone.localOf(a.CutoffOn(date).value) == local;
  }

  /** A later local time that the clock shows is first shown later. */
  ghost predicate Increasing(zone: Zone) {
    forall l, m :: l < m && zone.earliest(l).Some? && zone.earliest(m).Some? ==>
      zone.earliest(l).value < zone.earliest(m).value
  }

  /** The clock shows the cutoff's time, or a whole minute later that is before the next date's. */
  ghost predicate ShowsBeforeNext(a: Accrual, date: int) {
    exists minute :: date * 1440 <= minute < (date + 1) * 1440 && a.Shows()(minute)
  }

  /** Cutoffs are placed in date order exactly when no gap takes one as far as the next date's. */
  lemma WhenCutoffsArePlaced(a: Accrual)
    requires Consistent(a.zone) && Increasing(a.zone) && 0 <= a.cutoff < DAY
    requires forall d :: a.CutoffOn(d).Some?
    ensures a.Placed() <==> forall d :: ShowsBeforeNext(a, d)
  {
    if forall d :: ShowsBeforeNext(a, d) {
      ShowingPlaces(a);
    }
    if a.Placed() {
      forall d
        ensures ShowsBeforeNext(a, d)
      {
        SharedInstant(a, d);
      }
    }
  }

  lemma ShowingPlaces(a: Accrual)
    requires Consistent(a.zone) && Increasing(a.zone) && 0 <= a.cutoff < DAY
    requires forall d :: a.CutoffOn(d).Some?
    requires forall d :: ShowsBeforeNext(a, d)
    ensures a.Placed()
  {
    forall d
      ensures d <= a.LocalDate(a.CutoffOn(d).value) <= d + 1
    {
      var _ := PlacedAt(a, d);
    }
    forall d, e | d < e
      ensures a.CutoffOn(d).value < a.CutoffOn(e).value
    {
      PlacedInOrder(a, d, e);
    }
  }

  /** The minute a date's cutoff is placed at. */
  lemma PlacedAt(a: Accrual, d: int) returns (minute: int)
    requires Consistent(a.zone) && 0 <= a.cutoff < DAY && a.CutoffOn(d).Some?
    requires ShowsBeforeNext(a, d)
    ensures 0 <= minute < 1440
    ensures a.CutoffOn(d) == a.zone.earliest(a.cutoff + (d * 1440 + minute) * MINUTE)
    ensures d <= a.LocalDate(a.CutoffOn(d).value) <= d + 1
  {
    var first := First(a.Shows(), d * 1440, d * 1440 + 1441).value;
    minute := first - d * 1440;
    CutoffKeepsItsDate(a, d, minute);
  }

  lemma PlacedInOrder(a: Accrual, d: int, e: int)
    requires Consistent(a.zone) && Increasing(a.zone) && 0 <= a.cutoff < DAY && d < e
    requires a.CutoffOn(d).Some? && a.CutoffOn(e).Some?
    requires ShowsBeforeNext(a, d) && ShowsBeforeNext(a, e)
    ensures a.CutoffOn(d).value < a.CutoffOn(e).value
  {
    var m := PlacedAt(a, d);
    var n := PlacedAt(a, e);
    assert d * 1440 + m < e * 1440 + n;
  }

  /** A cutoff taken as far as the next date's is at the same instant. */
  lemma SharedInstant(a: Accrual, d: int)
    requires forall e :: a.CutoffOn(e).Some?
    ensures ShowsBeforeNext(a, d) || a.CutoffOn(d) == a.CutoffOn(d + 1)
  {
    if !ShowsBeforeNext(a, d) {
      assert a.CutoffOn(d).Some?;
      var first := First(a.Shows(), d * 1440, d * 1440 + 1441).value;
      assert a.Shows()(first);
      assert first == (d + 1) * 1440;
      FirstUnique(a.Shows(), first, first + 1441, first);
    }
  }

  /** Where local dates never go back, a zone is orderly exactly when every cutoff keeps its date. */
  lemma OrderlyIsKeepingDates(a: Accrual)
    requires a.Placed() && a.LocalDatesNeverGoBack()
    ensures a.Orderly() <==> forall d :: a.LocalDate(a.CutoffOn(d).value) == d
  {
    if forall d :: a.LocalDate(a.CutoffOn(d).value) == d {
      forall d, t | d < a.LocalDate(t)
        ensures a.CutoffOn(d).value <= t
      {
        assert a.LocalDate(a.CutoffOn(d).value) == d;
      }
    }
  }

  // ------------------------------------------------------------------------------ boundaries

  /**
   The next boundary is a cutoff after `after`, and the least exactly when none of an earlier local
   date is still to come; a panic means the window has none.
   */
  lemma NextBoundaryIsLeast(a: Accrual, after: int)
    requires a.Placed()
    ensures var next := a.NextBoundary(after);
            next.Some? ==>
              && a.IsCutoff(next.value) && next.value > after
              && ((forall t :: a.IsCutoff(t) && t > after ==> next.value <= t) <==> a.Reaches(after))
    ensures a.NextBoundary(after).None? <==>
            forall d :: a.LocalDate(after) <= d < a.LocalDate(after) + 3660 && d <= a.last
              ==> !(a.HasCutoff(d) && a.CutoffOn(d).value > after)
    ensures a.Orderly() ==> a.Reaches(after)
  {
    var date := a.LocalDate(after);
    var stop := First(a.EndsSearch(after), date, SearchEnd(date, a.last));
    if stop.None? {
      forall d | date <= d < SearchEnd(date, a.last)
        ensures !(a.HasCutoff(d) && a.CutoffOn(d).value > after)
      {
        assert !a.EndsSearch(after)(d);
      }
    } else {
      assert a.EndsSearch(after)(stop.value);
      LeastIsReaching(a, after, stop.value);
    }
  }

  lemma LeastIsReaching(a: Accrual, after: int, stop: int)
    requires a.Placed()
    requires IsFirst(
      a.EndsSearch(after), a.LocalDate(after), SearchEnd(a.LocalDate(after), a.last), stop)
    ensures a.IsCutoffOn(stop, a.CutoffOn(stop).value) && a.CutoffOn(stop).value > after
    ensures (forall t :: a.IsCutoff(t) && t > after ==> a.CutoffOn(stop).value <= t)
            <==> a.Reaches(after)
  {
    var next := a.CutoffOn(stop).value;
    assert a.EndsSearch(after)(stop);
    if a.Reaches(after) {
      forall t | a.IsCutoff(t) && t > after
        ensures next <= t
      {
        var d :| a.IsCutoffOn(d, t);
        assert a.EndsSearch(after)(d);
      }
    }
    if forall t :: a.IsCutoff(t) && t > after ==> next <= t {
      forall d | d < a.LocalDate(after) && d <= a.last && a.HasCutoff(d)
        ensures a.CutoffOn(d).value <= after
      {
        var t := a.CutoffOn(d).value;
        assert a.IsCutoffOn(d, t);
        assert a.IsCutoff(t) && t < next;
      }
    }
  }

  /** Moving the clock short of the next boundary leaves it the next one. */
  lemma NextBoundaryUnmoved(a: Accrual, after: int, later: int)
    requires a.Orderly()
    requires a.NextBoundary(after).Some? && after <= later < a.NextBoundary(after).value
    ensures a.NextBoundary(later) == a.NextBoundary(after)
  {
    var from, date := a.LocalDate(after), a.LocalDate(later);
    var stop := First(a.EndsSearch(after), from, SearchEnd(from, a.last)).value;
    assert a.EndsSearch(after)(stop);
    assert date <= stop < SearchEnd(date, a.last);
    assert a.EndsSearch(later)(stop);
    forall d | date <= d < stop
      ensures !a.EndsSearch(later)(d)
    {
      assert !a.EndsSearch(after)(d);
    }
    FirstUnique(a.EndsSearch(later), date, SearchEnd(date, a.last), stop);
  }

  /** Whatever local date a cutoff is on, the boundary after it is the next date's with a cutoff. */
  lemma NextBoundaryIsOnNextDate(a: Accrual, date: int, t: int)
    requires a.Placed()
    requires a.IsCutoffOn(date, t) && a.NextBoundary(t).Some?
    ensures a.Following(date).Some?
    ensures a.IsCutoffOn(a.Following(date).value, a.NextBoundary(t).value)
  {
    var from := a.LocalDate(t);
    var stop := First(a.EndsSearch(t), from, SearchEnd(from, a.last)).value;
    assert a.EndsSearch(t)(stop);
    assert stop > date;
    forall d | date < d < stop
      ensures !a.HasCutoff(d)
    {
      assert !a.EndsSearch(t)(d);
    }
    match a.days
    case Calendar => assert a.HasCutoff(date + 1);
    case Settlement(open, _) =>
      forall d | date < d < stop
        ensures !open(d)
      {
        assert !a.HasCutoff(d);
      }
      FirstUnique(open, date + 1, SearchEnd(date + 1, a.last), stop);
  }

  lemma DateOfIs(a: Accrual, date: int, t: int)
    requires a.Placed() && a.IsCutoffOn(date, t)
    ensures a.IsCutoff(t) && a.DateOf(t) == date
  {
  }

  // ------------------------------------------------------------------------------ how many days

  /**
   Every charge covers exactly the days from its settlement to the next one's, between one and
   3660 of them, so the conversion to 32 bits never saturates.
   */
  lemma DaysAreTheSettlementSpan(a: Accrual, boundary: int)
    requires a.Days(boundary).Some?
    ensures var date := a.LocalDate(boundary);
            && a.Settles(date).Some? && a.SettlesNext(date).Some?
            && a.Days(boundary).value == a.SettlesNext(date).value - a.Settles(date).value
    ensures 1 <= a.Days(boundary).value <= 3660
  {
    if a.days.Settlement? {
      LagCommutes(a.days.open, a.last, a.LocalDate(boundary), a.days.lag);
    }
  }
}
