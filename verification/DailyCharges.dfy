/**
 Which days a run of daily charges is for, in any zone that places every cutoff, and exactly when
 each calendar day is charged once.
 */
module DailyCharges {
  import opened DailyAccrual
  import opened IntArith
  import opened Search
  import opened Spans
  import opened Wrappers

  // ------------------------------------------------------------------------------ the days of a date

  /** The days a cutoff on `date` is to charge can be found. */
  predicate Sized(a: Accrual, date: int) {
    a.Settles(date).Some? && a.SettlesNext(date).Some?
  }

  /** How many days a cutoff on `date` is to charge. */
  function Span(a: Accrual, date: int): int
    requires Sized(a, date)
  {
    a.SettlesNext(date).value - a.Settles(date).value
  }

  /** No date after `d` up to `e` is a business day. */
  ghost predicate Closed(open: int -> bool, d: int, e: int) {
    forall x :: d < x <= e ==> !open(x)
  }

  lemma NextIsMonotone(open: int -> bool, last: int, d: int, e: int)
    requires d <= e
    requires NextBusinessDay(open, last, d).Some? && NextBusinessDay(open, last, e).Some?
    ensures var next, later := NextBusinessDay(open, last, d).value, NextBusinessDay(open, last, e).value;
            && open(next) && open(later) && d < next <= later && e < later
            && (next == later <==> Closed(open, d, e))
            && (next < later ==> next <= e)
  {
  }

  /** Settling two business days' trades keeps them apart. */
  lemma {:induction false} LagIsStrict(open: int -> bool, last: int, d: int, e: int, lag: nat)
    requires d < e && open(d) && open(e)
    requires AddBusinessDays(open, last, d, lag).Some? && AddBusinessDays(open, last, e, lag).Some?
    ensures var x, y := AddBusinessDays(open, last, d, lag).value, AddBusinessDays(open, last, e, lag).value;
            x < y && open(x) && open(y)
  {
    if lag > 0 {
      LagIsStrict(open, last, d, e, lag - 1);
      NextIsMonotone(open, last, AddBusinessDays(open, last, d, lag - 1).value,
                     AddBusinessDays(open, last, e, lag - 1).value);
    }
  }

  /**
   A later date is never for earlier days, and for the same days exactly when the lag is positive
   and no business day comes between.
   */
  lemma DaysOfALaterDate(a: Accrual, d: int, e: int)
    requires a.days.Settlement? && d < e && Sized(a, d) && Sized(a, e)
    ensures a.Settles(d).value <= a.Settles(e).value
    ensures a.SettlesNext(d).value <= a.SettlesNext(e).value
    ensures a.Settles(d) == a.Settles(e) <==> a.days.lag > 0 && Closed(a.days.open, d, e)
    ensures a.Settles(d) == a.Settles(e) ==> a.SettlesNext(d) == a.SettlesNext(e)
  {
    var open, last, lag := a.days.open, a.last, a.days.lag;
    var x, y := NextBusinessDay(open, last, d).value, NextBusinessDay(open, last, e).value;
    NextIsMonotone(open, last, d, e);
    if x < y {
      LagIsStrict(open, last, x, y, lag);
    }
    if lag > 0 {
      LagFromTheFront(open, last, d, lag);
      LagFromTheFront(open, last, e, lag);
      if x < y {
        LagIsStrict(open, last, x, y, lag - 1);
      }
    }
  }

  /** A positive lag is the next business day and one day's lag less from there. */
  lemma LagFromTheFront(open: int -> bool, last: int, date: int, lag: nat)
    requires lag > 0
    ensures AddBusinessDays(open, last, date, lag)
         == NextBusinessDay(open, last, date).AndThen(d => AddBusinessDays(open, last, d, lag - 1))
  {
    LagCommutes(open, last, date, lag - 1);
  }

  /** The charge read on date `e` is for exactly the days of date `d`. */
  ghost predicate SameDays(a: Accrual, d: int, e: int)
    requires Sized(a, d)
  {
    forall day :: a.ChargesOn(e, day) <==> a.Settles(d).value <= day < a.SettlesNext(d).value
  }

  lemma SpanIsPositive(a: Accrual, date: int)
    requires Sized(a, date)
    ensures 1 <= Span(a, date) <= CUTOFF_SEARCH_DAYS
  {
    if a.days.Settlement? {
      LagCommutes(a.days.open, a.last, date, a.days.lag);
    }
  }

  // ------------------------------------------------------------------------------ one cutoff

  /** `date`'s cutoff is on `date`, or the next date is for the same days. */
  ghost predicate KeepsItsDays(a: Accrual, date: int)
    requires a.CutoffOn(date).Some?
  {
    || a.LocalDate(a.CutoffOn(date).value) == date
    || (a.days.Settlement? && a.days.lag > 0 && !a.days.open(date + 1))
  }

  /** A cutoff read a date late is never for earlier days, and for its own exactly if it keeps them. */
  lemma ReadDate(a: Accrual, d: int)
    requires a.CutoffOn(d).Some? && d <= a.LocalDate(a.CutoffOn(d).value) <= d + 1
    requires Sized(a, d) && Sized(a, a.LocalDate(a.CutoffOn(d).value))
    ensures var e := a.LocalDate(a.CutoffOn(d).value);
            && a.Settles(d).value <= a.Settles(e).value
            && (a.Settles(d) == a.Settles(e) <==> KeepsItsDays(a, d))
            && (KeepsItsDays(a, d) ==> a.SettlesNext(d) == a.SettlesNext(e))
            && (KeepsItsDays(a, d) <==> SameDays(a, d, e))
  {
    var e := a.LocalDate(a.CutoffOn(d).value);
    if d < e && a.days.Settlement? {
      DaysOfALaterDate(a, d, e);
    }
    SpanIsPositive(a, d);
    SpanIsPositive(a, e);
    if SameDays(a, d, e) {
      assert a.ChargesOn(e, a.Settles(d).value) && a.ChargesOn(e, a.Settles(e).value);
    }
  }

  /**
   In any zone, a charge is for exactly the days of its cutoff's date if and only if the gap the
   cutoff falls in, if any, ends before midnight, or settlement lags and the next date is closed.
   */
  lemma ChargeIsForItsDate(a: Accrual, date: int, minute: int)
    requires Consistent(a.zone) && 0 <= a.cutoff < DAY
    requires IsFirst(a.Shows(), date * 1440, date * 1440 + 1441, date * 1440 + minute)
    requires a.CutoffOn(date).Some?
    requires Sized(a, date) && Sized(a, a.LocalDate(a.CutoffOn(date).value))
    ensures (forall day :: a.Charges(a.CutoffOn(date).value, day)
                      <==> a.Settles(date).value <= day < a.SettlesNext(date).value)
            <==> || a.cutoff + minute * MINUTE < DAY
                 || (a.days.Settlement? && a.days.lag > 0 && !a.days.open(date + 1))
  {
    CutoffKeepsItsDate(a, date, minute);
    ReadDate(a, date);
    var t := a.CutoffOn(date).value;
    assert forall day :: a.Charges(t, day) <==> a.ChargesOn(a.LocalDate(t), day);
  }

  /** Two dates with cutoffs are never for the same day. */
  lemma CutoffDatesApart(a: Accrual, d: int, e: int)
    requires d < e && a.HasCutoff(d) && a.HasCutoff(e) && Sized(a, d) && Sized(a, e)
    ensures a.Settles(d).value < a.SettlesNext(d).value <= a.Settles(e).value
  {
    SpanIsPositive(a, d);
    if a.days.Settlement? {
      var open, last, lag := a.days.open, a.last, a.days.lag;
      var next := NextBusinessDay(open, last, d).value;
      if next < e {
        LagIsStrict(open, last, next, e, lag);
      }
    }
  }

  // ------------------------------------------------------------------------------ runs

  /** `date`'s cutoff, if it has one, is on its own local date or the next one. */
  predicate PlacedOn(a: Accrual, date: int) {
    a.HasCutoff(date) ==>
      a.CutoffOn(date).Some? && date <= a.LocalDate(a.CutoffOn(date).value) <= date + 1
  }

  /** The cutoffs of two dates, if they have them, are in this order or at one instant. */
  predicate InOrder(a: Accrual, d: int, e: int) {
    a.HasCutoff(d) && a.HasCutoff(e) && a.CutoffOn(d).Some? && a.CutoffOn(e).Some? ==>
      a.CutoffOn(d).value <= a.CutoffOn(e).value
  }

  /** Cutoffs of these dates are on their own local date or the next one, and none before another's. */
  ghost predicate PlacedOver(a: Accrual, first: int, last: int) {
    && (forall d :: first <= d <= last ==> PlacedOn(a, d))
    && (forall d, e :: first <= d < e <= last ==> InOrder(a, d, e))
  }

  /** So they are in any zone whose later local times come later, if they can be placed at all. */
  lemma CutoffsAreInOrder(a: Accrual, first: int, last: int)
    requires Consistent(a.zone) && Increasing(a.zone) && 0 <= a.cutoff < DAY
    requires forall d :: first <= d <= last && a.HasCutoff(d) ==> a.CutoffOn(d).Some?
    ensures PlacedOver(a, first, last)
  {
    forall d | first <= d <= last
      ensures PlacedOn(a, d)
    {
      if a.HasCutoff(d) {
        var _ := MinuteOf(a, d);
      }
    }
    forall d, e | first <= d < e <= last
      ensures InOrder(a, d, e)
    {
      if a.HasCutoff(d) && a.HasCutoff(e) {
        MinutesInOrder(a, d, e);
      }
    }
  }

  /** The first minute of all time, from a date's own, that shows its cutoff. */
  lemma MinuteOf(a: Accrual, d: int) returns (minute: int)
    requires Consistent(a.zone) && 0 <= a.cutoff < DAY && a.CutoffOn(d).Some?
    ensures IsFirst(a.Shows(), d * 1440, d * 1440 + 1441, minute)
    ensures a.CutoffOn(d) == a.zone.earliest(a.cutoff + minute * MINUTE)
    ensures d <= a.LocalDate(a.CutoffOn(d).value) <= d + 1
  {
    minute := First(a.Shows(), d * 1440, d * 1440 + 1441).value;
    CutoffKeepsItsDate(a, d, minute - d * 1440);
  }

  lemma MinutesInOrder(a: Accrual, d: int, e: int)
    requires Consistent(a.zone) && Increasing(a.zone) && 0 <= a.cutoff < DAY && d < e
    requires a.CutoffOn(d).Some? && a.CutoffOn(e).Some?
    ensures a.CutoffOn(d).value <= a.CutoffOn(e).value
  {
    var m := MinuteOf(a, d);
    var n := MinuteOf(a, e);
    assert a.Shows()(n);
    assert m <= n;
  }

  /**
   `bs` are consecutive boundaries, each the next one from the one before, from the cutoff of `first`
   to the cutoff of `last`.
   */
  ghost predicate Run(a: Accrual, first: int, last: int, bs: seq<int>) {
    && bs != [] && first <= last
    && a.IsCutoffOn(first, bs[0]) && a.IsCutoffOn(last, bs[|bs| - 1])
    && (forall i :: 0 < i < |bs| ==> Follows(a, bs, i))
  }

  predicate Follows(a: Accrual, bs: seq<int>, i: int)
    requires 0 < i < |bs|
  {
    a.NextBoundary(bs[i - 1]) == Some(bs[i])
  }

  /**
   No search for a settlement date panics: the days each of these dates' cutoffs is to charge can be
   found, and so can those each boundary does.
   */
  ghost predicate Chargeable(a: Accrual, first: int, last: int, bs: seq<int>) {
    && (forall d :: first <= d <= last ==> SizedOn(a, d))
    && (forall i :: 0 <= i < |bs| ==> a.Days(bs[i]).Some?)
  }

  predicate SizedOn(a: Accrual, date: int) {
    a.HasCutoff(date) ==> Sized(a, date)
  }

  /** `ds` are dates of the run's cutoffs, in order, and any between two is at the earlier instant. */
  ghost predicate Dates(a: Accrual, first: int, last: int, bs: seq<int>, ds: seq<int>) {
    && 0 < |ds| <= |bs| && ds[0] == first
    && (forall i :: 0 <= i < |ds| ==> Dated(a, first, last, bs, ds, i))
  }

  ghost predicate Dated(a: Accrual, first: int, last: int, bs: seq<int>, ds: seq<int>, i: int)
    requires 0 <= i < |ds| <= |bs|
  {
    && first <= ds[i] <= last && a.IsCutoffOn(ds[i], bs[i])
    && (i > 0 ==> ds[i - 1] < ds[i] && AtInstant(a, ds[i - 1], ds[i], bs[i - 1]))
  }

  /** Any cutoffs of dates between two are at `t`. */
  ghost predicate AtInstant(a: Accrual, d: int, e: int, t: int) {
    forall x :: d < x < e && a.HasCutoff(x) ==> a.CutoffOn(x) == Some(t)
  }

  lemma {:induction false} RunAscends(a: Accrual, first: int, last: int, bs: seq<int>, i: nat, j: nat)
    requires Run(a, first, last, bs) && i < j < |bs|
    ensures bs[i] < bs[j]
  {
    var s := bs[j - 1];
    assert Follows(a, bs, j);
    var stop := First(a.EndsSearch(s), a.LocalDate(s), SearchEnd(a.LocalDate(s), a.last)).value;
    assert a.EndsSearch(s)(stop);
    if i < j - 1 {
      RunAscends(a, first, last, bs, i, j - 1);
    }
  }

  /** The boundary after a run's cutoff is a later date's, the next with a cutoff still to come. */
  lemma StepInRun(a: Accrual, first: int, last: int, bs: seq<int>, i: nat, date: int)
    returns (next: int)
    requires PlacedOver(a, first, last) && Run(a, first, last, bs) && 0 < i < |bs|
    requires first <= date <= last && a.IsCutoffOn(date, bs[i - 1])
    ensures date < next <= last && a.IsCutoffOn(next, bs[i])
    ensures AtInstant(a, date, next, bs[i - 1])
  {
    RunAscends(a, first, last, bs, i - 1, |bs| - 1);
    assert PlacedOn(a, date);
    assert Follows(a, bs, i);
    next := NextInRange(a, date, last, bs[i - 1]);
    PassedAreAtInstant(a, first, last, date, next, bs[i - 1]);
  }

  lemma PassedAreAtInstant(a: Accrual, first: int, last: int, date: int, next: int, t: int)
    requires PlacedOver(a, first, last) && first <= date < next <= last && a.IsCutoffOn(date, t)
    requires forall x :: date < x < next && a.HasCutoff(x) && a.CutoffOn(x).Some? ==>
               a.CutoffOn(x).value <= t
    ensures AtInstant(a, date, next, t)
  {
    forall x | date < x < next && a.HasCutoff(x)
      ensures a.CutoffOn(x) == Some(t)
    {
      assert PlacedOn(a, x) && InOrder(a, date, x);
    }
  }

  /** The next boundary is the first date's whose cutoff is still to come. */
  lemma NextInRange(a: Accrual, date: int, last: int, t: int) returns (next: int)
    requires a.IsCutoffOn(date, t) && date <= a.LocalDate(t) <= date + 1 && date <= last
    requires a.NextBoundary(t).Some?
    requires a.HasCutoff(last) && a.CutoffOn(last).Some? && a.CutoffOn(last).value > t
    ensures date < next <= last && a.IsCutoffOn(next, a.NextBoundary(t).value)
    ensures forall x :: date < x < next && a.HasCutoff(x) && a.CutoffOn(x).Some? ==>
              a.CutoffOn(x).value <= t
  {
    var from := a.LocalDate(t);
    next := First(a.EndsSearch(t), from, SearchEnd(from, a.last)).value;
    assert a.EndsSearch(t)(next) && a.EndsSearch(t)(last);
    forall x | date < x < next && a.HasCutoff(x) && a.CutoffOn(x).Some?
      ensures a.CutoffOn(x).value <= t
    {
      assert !a.EndsSearch(t)(x);
    }
  }

  lemma {:induction false} DatesUpTo(a: Accrual, first: int, last: int, bs: seq<int>, n: nat)
    returns (ds: seq<int>)
    requires PlacedOver(a, first, last) && Run(a, first, last, bs) && 0 < n <= |bs|
    ensures Dates(a, first, last, bs, ds) && |ds| == n
  {
    if n == 1 {
      ds := [first];
    } else {
      var before := DatesUpTo(a, first, last, bs, n - 1);
      assert Dated(a, first, last, bs, before, n - 2);
      var next := StepInRun(a, first, last, bs, n - 1, before[n - 2]);
      ds := before + [next];
      forall i | 0 <= i < n
        ensures Dated(a, first, last, bs, ds, i)
      {
        if i < n - 1 {
          assert Dated(a, first, last, bs, before, i);
        }
      }
    }
  }

  lemma DatesOfRun(a: Accrual, first: int, last: int, bs: seq<int>) returns (ds: seq<int>)
    requires PlacedOver(a, first, last) && Run(a, first, last, bs)
    ensures Dates(a, first, last, bs, ds) && |ds| == |bs|
  {
    ds := DatesUpTo(a, first, last, bs, |bs|);
  }

  // ------------------------------------------------------------------------------ each day once

  ghost predicate ChargedBy(a: Accrual, bs: seq<int>, i: int, day: int) {
    0 <= i < |bs| && a.Charges(bs[i], day)
  }

  ghost predicate Charged(a: Accrual, bs: seq<int>, day: int) {
    exists i :: ChargedBy(a, bs, i, day)
  }

  /**
   The run charges a day if and only if it is from the first day its first cutoff is to charge up to
   the last its last one is, and then by one charge only.
   */
  ghost predicate EachDayOnce(a: Accrual, first: int, last: int, bs: seq<int>)
    requires Sized(a, first) && Sized(a, last)
  {
    && (forall day :: Charged(a, bs, day) <==> FirstDay(a, first) <= day < DayAfter(a, last))
    && (forall day, i, j :: ChargedBy(a, bs, i, day) && ChargedBy(a, bs, j, day) ==> i == j)
  }

  /** `date` has a cutoff, and a charge at it is not for the days it is to be. */
  ghost predicate LosesItsDays(a: Accrual, date: int) {
    a.HasCutoff(date) && a.CutoffOn(date).Some? && !KeepsItsDays(a, date)
  }

  /**
   A run charges each day exactly once if and only if the cutoff of every date it spans keeps its
   days.
   */
  lemma EachDayIsChargedOnce(a: Accrual, first: int, last: int, bs: seq<int>)
    requires PlacedOver(a, first, last) && Run(a, first, last, bs) && Chargeable(a, first, last, bs)
    ensures Sized(a, first) && Sized(a, last)
    ensures EachDayOnce(a, first, last, bs) <==> forall d :: first <= d <= last ==> !LosesItsDays(a, d)
  {
    assert SizedOn(a, first) && SizedOn(a, last);
    if forall d :: first <= d <= last ==> !LosesItsDays(a, d) {
      KeptDaysAreChargedOnce(a, first, last, bs);
    }
    if d :| first <= d <= last && LosesItsDays(a, d) {
      var e := FirstLost(a, first, d);
      FirstDayIsMissed(a, first, last, bs, e);
    }
  }

  /** No two of these dates' cutoffs are at one instant. */
  ghost predicate Unshared(a: Accrual, first: int, last: int) {
    forall d :: first <= d < last ==> ApartFromNext(a, d)
  }

  /** `date`'s cutoff, if it has one, is not at the instant of the next date's. */
  predicate ApartFromNext(a: Accrual, date: int) {
    a.HasCutoff(date) && a.HasCutoff(date + 1) ==> a.CutoffOn(date) != a.CutoffOn(date + 1)
  }

  /** Only one date's cutoff can be where the next date's is, and it loses its days. */
  lemma SharingIsAdjacent(a: Accrual, first: int, last: int, d: int, e: int, t: int)
    requires PlacedOver(a, first, last) && first <= d < e <= last
    requires a.IsCutoffOn(d, t) && a.IsCutoffOn(e, t)
    ensures e == d + 1 == a.LocalDate(t) && !Unshared(a, first, last) && LosesItsDays(a, d)
  {
    assert PlacedOn(a, d) && PlacedOn(a, e);
    assert !ApartFromNext(a, d);
  }

  lemma KeepingIsUnshared(a: Accrual, first: int, last: int)
    requires PlacedOver(a, first, last) && a.last >= last
    requires forall d :: first <= d <= last ==> !LosesItsDays(a, d)
    ensures Unshared(a, first, last)
  {
    forall d | first <= d < last
      ensures ApartFromNext(a, d)
    {
      assert PlacedOn(a, d);
      if !ApartFromNext(a, d) {
        SharingIsAdjacent(a, first, last, d, d + 1, a.CutoffOn(d).value);
      }
    }
  }

  /** Where no instant is shared, the dates of a run are every date with a cutoff, first to last. */
  lemma DatesFollow(a: Accrual, first: int, last: int, bs: seq<int>, ds: seq<int>)
    requires PlacedOver(a, first, last) && Run(a, first, last, bs) && Chargeable(a, first, last, bs)
    requires Dates(a, first, last, bs, ds) && |ds| == |bs| && Unshared(a, first, last)
    ensures forall i :: 0 < i < |ds| ==> a.Following(ds[i - 1]) == Some(ds[i])
    ensures ds[|ds| - 1] == last
  {
    forall i | 0 < i < |ds|
      ensures a.Following(ds[i - 1]) == Some(ds[i])
    {
      DateFollows(a, first, last, bs, ds, i);
    }
    var n := |ds| - 1;
    assert Dated(a, first, last, bs, ds, n);
    if ds[n] < last {
      SharingIsAdjacent(a, first, last, ds[n], last, bs[n]);
    }
  }

  lemma DateFollows(a: Accrual, first: int, last: int, bs: seq<int>, ds: seq<int>, i: nat)
    requires PlacedOver(a, first, last) && Run(a, first, last, bs) && Chargeable(a, first, last, bs)
    requires Dates(a, first, last, bs, ds) && Unshared(a, first, last) && 0 < i < |ds|
    ensures a.Following(ds[i - 1]) == Some(ds[i])
  {
    var d, e := ds[i - 1], ds[i];
    assert Dated(a, first, last, bs, ds, i - 1) && Dated(a, first, last, bs, ds, i);
    assert SizedOn(a, d);
    forall x | d < x < e
      ensures !a.HasCutoff(x)
    {
      if a.HasCutoff(x) {
        SharingIsAdjacent(a, first, last, d, x, bs[i - 1]);
      }
    }
    FollowingIsNext(a, d, e);
  }

  lemma FollowingIsNext(a: Accrual, d: int, e: int)
    requires d < e && a.HasCutoff(e) && Sized(a, d)
    requires forall x :: d < x < e ==> !a.HasCutoff(x)
    ensures a.Following(d) == Some(e)
  {
    match a.days
    case Calendar => assert a.HasCutoff(d + 1);
    case Settlement(open, _) => assert forall x :: d < x < e ==> !a.HasCutoff(x) && !open(x);
  }

  /** The days each of `ds` is to be charged for. */
  function Starts(a: Accrual, ds: seq<int>): seq<int>
    requires forall i :: 0 <= i < |ds| ==> Sized(a, ds[i])
  {
    seq(|ds|, i requires 0 <= i < |ds| => FirstDay(a, ds[i]))
  }

  function Ends(a: Accrual, ds: seq<int>): seq<int>
    requires forall i :: 0 <= i < |ds| ==> Sized(a, ds[i])
  {
    seq(|ds|, i requires 0 <= i < |ds| => DayAfter(a, ds[i]))
  }

  function FirstDay(a: Accrual, date: int): int
    requires Sized(a, date)
  {
    a.Settles(date).value
  }

  function DayAfter(a: Accrual, date: int): int
    requires Sized(a, date)
  {
    a.SettlesNext(date).value
  }

  lemma KeptDaysAreChargedOnce(a: Accrual, first: int, last: int, bs: seq<int>)
    requires PlacedOver(a, first, last) && Run(a, first, last, bs) && Chargeable(a, first, last, bs)
    requires Sized(a, first) && Sized(a, last)
    requires forall d :: first <= d <= last ==> !LosesItsDays(a, d)
    ensures EachDayOnce(a, first, last, bs)
  {
    var ds := DatesOfRun(a, first, last, bs);
    KeepingIsUnshared(a, first, last);
    DatesFollow(a, first, last, bs, ds);
    forall i | 0 <= i < |ds|
      ensures Sized(a, ds[i]) && ChargesItsDays(a, bs[i], ds[i])
    {
      assert Dated(a, first, last, bs, ds, i);
      ReadInRun(a, first, last, bs, i, ds[i]);
      assert !LosesItsDays(a, ds[i]);
    }
    FollowingDatesOnce(a, bs, ds);
  }

  /** The charge at `t` is for exactly the days of `date`. */
  ghost predicate ChargesItsDays(a: Accrual, t: int, date: int)
    requires Sized(a, date)
  {
    forall day :: a.Charges(t, day) <==> FirstDay(a, date) <= day < DayAfter(a, date)
  }

  /** Charges for the days of dates that follow each other charge each day once. */
  lemma FollowingDatesOnce(a: Accrual, bs: seq<int>, ds: seq<int>)
    requires |bs| == |ds| > 0 && forall i :: 0 <= i < |ds| ==> Sized(a, ds[i])
    requires forall i :: 0 < i < |ds| ==> a.Following(ds[i - 1]) == Some(ds[i])
    requires forall i :: 0 <= i < |ds| ==> ChargesItsDays(a, bs[i], ds[i])
    ensures EachDayOnce(a, ds[0], ds[|ds| - 1], bs)
  {
    var starts, ends := Starts(a, ds), Ends(a, ds);
    DatesAbut(a, ds);
    AbuttingCoverOnce(starts, ends);
    forall i, day | 0 <= i < |bs|
      ensures a.Charges(bs[i], day) <==> starts[i] <= day < ends[i]
    {
      assert ChargesItsDays(a, bs[i], ds[i]);
    }
    ChargedIsCovered(a, bs, starts, ends);
  }

  /** The days of dates that follow each other lie end to end. */
  lemma DatesAbut(a: Accrual, ds: seq<int>)
    requires ds != [] && forall i :: 0 <= i < |ds| ==> Sized(a, ds[i])
    requires forall i :: 0 < i < |ds| ==> a.Following(ds[i - 1]) == Some(ds[i])
    ensures Abutting(Starts(a, ds), Ends(a, ds))
  {
    forall i | 0 <= i < |ds|
      ensures Starts(a, ds)[i] < Ends(a, ds)[i]
    {
      SpanIsPositive(a, ds[i]);
    }
    forall i | 0 < i < |ds|
      ensures Starts(a, ds)[i] == Ends(a, ds)[i - 1]
    {
      assert a.Following(ds[i - 1]) == Some(ds[i]);
    }
  }

  lemma ChargedIsCovered(a: Accrual, bs: seq<int>, starts: seq<int>, ends: seq<int>)
    requires |starts| == |ends| == |bs| > 0
    requires forall i, day :: 0 <= i < |bs| ==>
               (a.Charges(bs[i], day) <==> starts[i] <= day < ends[i])
    ensures forall i, day :: ChargedBy(a, bs, i, day) <==> Covers(starts, ends, i, day)
    ensures forall day :: Charged(a, bs, day) <==> Covered(starts, ends, day)
  {
    forall day
      ensures Charged(a, bs, day) <==> Covered(starts, ends, day)
    {
      if i :| ChargedBy(a, bs, i, day) {
        assert Covers(starts, ends, i, day);
      }
      if i :| Covers(starts, ends, i, day) {
        assert ChargedBy(a, bs, i, day);
      }
    }
  }

  /** What `ReadDate` says of one cutoff of a run. */
  lemma ReadInRun(a: Accrual, first: int, last: int, bs: seq<int>, i: nat, d: int)
    requires PlacedOver(a, first, last) && Chargeable(a, first, last, bs) && i < |bs|
    requires first <= d <= last && a.IsCutoffOn(d, bs[i])
    ensures var e := a.LocalDate(bs[i]);
            && Sized(a, d) && d <= e <= d + 1 && Sized(a, e)
            && a.Settles(d).value <= a.Settles(e).value
            && (a.Settles(d) == a.Settles(e) <==> KeepsItsDays(a, d))
            && (KeepsItsDays(a, d) ==> a.SettlesNext(d) == a.SettlesNext(e))
            && a.Days(bs[i]).value == Span(a, e)
  {
    assert PlacedOn(a, d) && SizedOn(a, d);
    DaysAreTheSettlementSpan(a, bs[i]);
    ReadDate(a, d);
  }

  /** The first date that loses its days leaves the first of them to no charge. */
  lemma FirstDayIsMissed(a: Accrual, first: int, last: int, bs: seq<int>, d: int)
    requires PlacedOver(a, first, last) && Run(a, first, last, bs) && Chargeable(a, first, last, bs)
    requires Sized(a, first) && Sized(a, last)
    requires first <= d <= last && LosesItsDays(a, d)
    requires forall x :: first <= x < d ==> !LosesItsDays(a, x)
    ensures Sized(a, d)
    ensures FirstDay(a, first) <= FirstDay(a, d) < DayAfter(a, last)
    ensures !Charged(a, bs, FirstDay(a, d))
  {
    assert SizedOn(a, d);
    SettlesWithin(a, first, last, d);
    var ds := DatesOfRun(a, first, last, bs);
    forall i | 0 <= i < |bs|
      ensures !ChargedBy(a, bs, i, FirstDay(a, d))
    {
      assert Dated(a, first, last, bs, ds, i);
      ReadInRun(a, first, last, bs, i, ds[i]);
      assert ds[i] < d ==> !LosesItsDays(a, ds[i]);
      MissedBy(a, ds[i], d);
    }
  }

  lemma SettlesWithin(a: Accrual, first: int, last: int, d: int)
    requires first <= d <= last && a.HasCutoff(first) && a.HasCutoff(d) && a.HasCutoff(last)
    requires Sized(a, first) && Sized(a, d) && Sized(a, last)
    ensures FirstDay(a, first) <= FirstDay(a, d) < DayAfter(a, last)
  {
    SpanIsPositive(a, last);
    SettlesInOrder(a, first, d);
    SettlesInOrder(a, d, last);
  }

  lemma SettlesInOrder(a: Accrual, d: int, e: int)
    requires d <= e && a.HasCutoff(d) && a.HasCutoff(e) && Sized(a, d) && Sized(a, e)
    ensures FirstDay(a, d) <= FirstDay(a, e)
  {
    if d < e {
      CutoffDatesApart(a, d, e);
    }
  }

  /** Neither an earlier date that keeps its days, nor a later one, nor one that loses them. */
  lemma MissedBy(a: Accrual, e: int, d: int)
    requires a.HasCutoff(e) && a.CutoffOn(e).Some? && Sized(a, e)
    requires e <= a.LocalDate(a.CutoffOn(e).value) <= e + 1
    requires Sized(a, a.LocalDate(a.CutoffOn(e).value))
    requires a.HasCutoff(d) && Sized(a, d)
    requires e < d ==> KeepsItsDays(a, e)
    requires e == d ==> !KeepsItsDays(a, e)
    ensures !a.Charges(a.CutoffOn(e).value, FirstDay(a, d))
  {
    ReadDate(a, e);
    if e < d {
      CutoffDatesApart(a, e, d);
    } else if d < e {
      CutoffDatesApart(a, d, e);
    }
  }

  lemma {:induction false} FirstLost(a: Accrual, first: int, d: int) returns (e: int)
    requires first <= d && LosesItsDays(a, d)
    ensures first <= e <= d && LosesItsDays(a, e)
    ensures forall x :: first <= x < e ==> !LosesItsDays(a, x)
    decreases d - first
  {
    e := d;
    if x :| first <= x < d && LosesItsDays(a, x) {
      e := FirstLost(a, first, x);
    }
  }

  /**
   Two dates' cutoffs at one instant are one charge, for none of the days of the earlier, and no run
   over both charges each day once.
   */
  lemma SharedInstantLosesADate(a: Accrual, first: int, last: int, bs: seq<int>, d: int, t: int)
    requires PlacedOver(a, first, last) && Run(a, first, last, bs) && Chargeable(a, first, last, bs)
    requires first <= d < last && a.IsCutoffOn(d, t) && a.IsCutoffOn(d + 1, t)
    ensures Sized(a, first) && Sized(a, last) && Sized(a, d)
    ensures !EachDayOnce(a, first, last, bs)
    ensures forall day :: FirstDay(a, d) <= day < DayAfter(a, d) ==> !a.Charges(t, day)
  {
    SharingIsAdjacent(a, first, last, d, d + 1, t);
    assert SizedOn(a, d) && SizedOn(a, d + 1);
    EarlierIsLost(a, d, t);
    LossIsNotOnce(a, first, last, bs, d);
  }

  lemma EarlierIsLost(a: Accrual, d: int, t: int)
    requires a.HasCutoff(d) && a.HasCutoff(d + 1) && a.LocalDate(t) == d + 1
    requires Sized(a, d) && Sized(a, d + 1)
    ensures forall day :: FirstDay(a, d) <= day < DayAfter(a, d) ==> !a.Charges(t, day)
  {
    CutoffDatesApart(a, d, d + 1);
  }

  lemma LossIsNotOnce(a: Accrual, first: int, last: int, bs: seq<int>, d: int)
    requires PlacedOver(a, first, last) && Run(a, first, last, bs) && Chargeable(a, first, last, bs)
    requires first <= d <= last && LosesItsDays(a, d)
    ensures Sized(a, first) && Sized(a, last) && !EachDayOnce(a, first, last, bs)
  {
    EachDayIsChargedOnce(a, first, last, bs);
  }

  // ------------------------------------------------------------------------------ how many days

  function TotalDays(a: Accrual, bs: seq<int>): int
    requires forall i :: 0 <= i < |bs| ==> a.Days(bs[i]).Some?
  {
    if bs == [] then 0
    else TotalDays(a, bs[..|bs| - 1]) + a.Days(bs[|bs| - 1]).value
  }

  /** The two business days after `date` are as far apart as the first of them is from it. */
  predicate SpacedEvenly(open: int -> bool, last: int, date: int) {
    var next := NextBusinessDay(open, last, date);
    && next.Some? && NextBusinessDay(open, last, next.value).Some?
    && NextBusinessDay(open, last, next.value).value - next.value == next.value - date
  }

  /**
   `date`'s cutoff keeps its days, or is read on the next cutoff's date, and the business days after
   the day it settles are evenly spaced.
   */
  ghost predicate KeepsItsSpan(a: Accrual, date: int)
    requires a.CutoffOn(date).Some? && Sized(a, date)
  {
    || KeepsItsDays(a, date)
    || a.days.Calendar?
    || (a.days.open(date + 1) && SpacedEvenly(a.days.open, a.last, a.Settles(date).value))
  }

  /** A charge is for as many days as its cutoff is to charge exactly when the cutoff keeps its span. */
  lemma ChargeIsTheRightSpan(a: Accrual, d: int)
    requires a.CutoffOn(d).Some? && d <= a.LocalDate(a.CutoffOn(d).value) <= d + 1
    requires Sized(a, d) && Sized(a, a.LocalDate(a.CutoffOn(d).value))
    ensures Span(a, a.LocalDate(a.CutoffOn(d).value)) == Span(a, d) <==> KeepsItsSpan(a, d)
  {
    var e := a.LocalDate(a.CutoffOn(d).value);
    ReadDate(a, d);
    if d < e && a.days.Settlement? {
      var open, last, lag := a.days.open, a.last, a.days.lag;
      NextIsMonotone(open, last, d, e);
      LagCommutes(open, last, d, lag);
      LagCommutes(open, last, e, lag);
    }
  }

  /** If the `n`-th boundary is `date`'s cutoff, the charges to it add up to the days to `date`'s. */
  predicate ConservedAt(a: Accrual, first: int, bs: seq<int>, n: int, date: int)
    requires 0 < n <= |bs| && Sized(a, first)
    requires forall i :: 0 <= i < |bs| ==> a.Days(bs[i]).Some?
  {
    a.IsCutoffOn(date, bs[n - 1]) && Sized(a, date) ==>
      TotalDays(a, bs[..n]) == DayAfter(a, date) - FirstDay(a, first)
  }

  /** `date` has a cutoff, and a charge at it is not for as many days as it is to be. */
  ghost predicate LosesItsSpan(a: Accrual, date: int) {
    a.HasCutoff(date) && a.CutoffOn(date).Some? && Sized(a, date) && !KeepsItsSpan(a, date)
  }

  /** At the cutoff of every date of a run, the charges so far add up. */
  ghost predicate Conserved(a: Accrual, first: int, last: int, bs: seq<int>)
    requires Chargeable(a, first, last, bs) && Sized(a, first)
  {
    forall n, d :: 0 < n <= |bs| && first <= d <= last ==> ConservedAt(a, first, bs, n, d)
  }

  /**
   The days charged add up at every date of a run if and only if no two of its dates share an instant
   and the cutoff of every one keeps its span.
   */
  lemma DaysAreConserved(a: Accrual, first: int, last: int, bs: seq<int>)
    requires PlacedOver(a, first, last) && Run(a, first, last, bs) && Chargeable(a, first, last, bs)
    ensures Sized(a, first)
    ensures Conserved(a, first, last, bs)
            <==> Unshared(a, first, last) && forall d :: first <= d <= last ==> !LosesItsSpan(a, d)
  {
    assert SizedOn(a, first);
    var ds := DatesOfRun(a, first, last, bs);
    if Unshared(a, first, last) && forall d :: first <= d <= last ==> !LosesItsSpan(a, d) {
      DatesFollow(a, first, last, bs, ds);
      forall n, d | 0 < n <= |bs| && first <= d <= last
        ensures ConservedAt(a, first, bs, n, d)
      {
        KeptSpansAddUp(a, first, last, bs, ds, n);
        assert Dated(a, first, last, bs, ds, n - 1);
        if a.IsCutoffOn(d, bs[n - 1]) {
          DateIsUnique(a, first, last, d, ds[n - 1], bs[n - 1]);
        }
      }
    }
    if Conserved(a, first, last, bs) {
      ConservedIsUnshared(a, first, last, bs, ds);
      DatesFollow(a, first, last, bs, ds);
      forall d | first <= d <= last
        ensures !LosesItsSpan(a, d)
      {
        if a.HasCutoff(d) {
          ConservedKeepsSpan(a, first, last, bs, ds, d);
        }
      }
    }
  }

  lemma DateIsUnique(a: Accrual, first: int, last: int, d: int, e: int, t: int)
    requires PlacedOver(a, first, last) && Unshared(a, first, last)
    requires first <= d <= last && first <= e <= last && a.IsCutoffOn(d, t) && a.IsCutoffOn(e, t)
    ensures d == e
  {
    if d < e {
      SharingIsAdjacent(a, first, last, d, e, t);
    } else if e < d {
      SharingIsAdjacent(a, first, last, e, d, t);
    }
  }

  /** Every cutoff of the dates a run spans is one of its instants. */
  lemma CutoffIsReached(a: Accrual, first: int, last: int, bs: seq<int>, ds: seq<int>, d: int)
    returns (n: nat)
    requires PlacedOver(a, first, last) && Run(a, first, last, bs)
    requires Dates(a, first, last, bs, ds) && |ds| == |bs|
    requires first <= d <= last && a.HasCutoff(d)
    ensures 0 < n <= |bs| && a.IsCutoffOn(d, bs[n - 1]) && ds[n - 1] <= d
  {
    n := LastBefore(a, first, last, bs, ds, d, |ds|);
    var e := ds[n - 1];
    assert Dated(a, first, last, bs, ds, n - 1);
    if e < d && n < |ds| {
      assert Dated(a, first, last, bs, ds, n);
    } else if e < d {
      assert PlacedOn(a, d) && PlacedOn(a, last);
      assert InOrder(a, e, d);
      assert d == last || InOrder(a, d, last);
    }
  }

  lemma {:induction false} LastBefore(
    a: Accrual, first: int, last: int, bs: seq<int>, ds: seq<int>, d: int, m: nat)
    returns (n: nat)
    requires Dates(a, first, last, bs, ds) && first <= d && 0 < m <= |ds|
    requires m < |ds| ==> d < ds[m]
    ensures 0 < n <= |ds| && ds[n - 1] <= d && (n < |ds| ==> d < ds[n])
  {
    if ds[m - 1] <= d {
      n := m;
    } else {
      n := LastBefore(a, first, last, bs, ds, d, m - 1);
    }
  }

  lemma ConservedIsUnshared(a: Accrual, first: int, last: int, bs: seq<int>, ds: seq<int>)
    requires PlacedOver(a, first, last) && Run(a, first, last, bs) && Chargeable(a, first, last, bs)
    requires Dates(a, first, last, bs, ds) && |ds| == |bs| && Sized(a, first)
    requires Conserved(a, first, last, bs)
    ensures Unshared(a, first, last)
  {
    forall d | first <= d < last
      ensures ApartFromNext(a, d)
    {
      if !ApartFromNext(a, d) {
        var n := CutoffIsReached(a, first, last, bs, ds, d);
        assert SizedOn(a, d) && SizedOn(a, d + 1);
        assert ConservedAt(a, first, bs, n, d) && ConservedAt(a, first, bs, n, d + 1);
        SharingBreaksTotals(a, first, bs, n, d);
      }
    }
  }

  lemma SharingBreaksTotals(a: Accrual, first: int, bs: seq<int>, n: nat, d: int)
    requires 0 < n <= |bs| && Sized(a, first) && Sized(a, d) && Sized(a, d + 1)
    requires forall i :: 0 <= i < |bs| ==> a.Days(bs[i]).Some?
    requires d + 1 <= a.last && a.HasCutoff(d + 1)
    requires a.IsCutoffOn(d, bs[n - 1]) && a.CutoffOn(d) == a.CutoffOn(d + 1)
    ensures !(ConservedAt(a, first, bs, n, d) && ConservedAt(a, first, bs, n, d + 1))
  {
    CutoffDatesApart(a, d, d + 1);
    SpanIsPositive(a, d + 1);
  }

  lemma ConservedKeepsSpan(a: Accrual, first: int, last: int, bs: seq<int>, ds: seq<int>, d: int)
    requires PlacedOver(a, first, last) && Run(a, first, last, bs) && Chargeable(a, first, last, bs)
    requires Dates(a, first, last, bs, ds) && |ds| == |bs| && Sized(a, first)
    requires Unshared(a, first, last) && Conserved(a, first, last, bs)
    requires forall i :: 0 < i < |ds| ==> a.Following(ds[i - 1]) == Some(ds[i])
    requires first <= d <= last && a.HasCutoff(d)
    ensures !LosesItsSpan(a, d)
  {
    var n := CutoffIsReached(a, first, last, bs, ds, d);
    assert Dated(a, first, last, bs, ds, n - 1);
    DateIsUnique(a, first, last, d, ds[n - 1], bs[n - 1]);
    assert SizedOn(a, d);
    assert ConservedAt(a, first, bs, n, d);
    if n > 1 {
      assert Dated(a, first, last, bs, ds, n - 2);
      assert SizedOn(a, ds[n - 2]);
      assert ConservedAt(a, first, bs, n - 1, ds[n - 2]);
    }
    OneMoreCharge(a, first, last, bs, ds, n);
  }

  lemma OneMoreCharge(a: Accrual, first: int, last: int, bs: seq<int>, ds: seq<int>, n: nat)
    requires PlacedOver(a, first, last) && Chargeable(a, first, last, bs)
    requires Dates(a, first, last, bs, ds) && 0 < n <= |ds| && Sized(a, first)
    requires n > 1 ==> a.Following(ds[n - 2]) == Some(ds[n - 1])
    requires n > 1 ==> Sized(a, ds[n - 2]) && a.IsCutoffOn(ds[n - 2], bs[n - 2])
    requires n > 1 ==> ConservedAt(a, first, bs, n - 1, ds[n - 2])
    ensures Sized(a, ds[n - 1])
    ensures a.IsCutoffOn(ds[n - 1], bs[n - 1])
    ensures ConservedAt(a, first, bs, n, ds[n - 1]) <==> !LosesItsSpan(a, ds[n - 1])
  {
    var d, t := ds[n - 1], bs[n - 1];
    assert Dated(a, first, last, bs, ds, n - 1);
    TotalOneMore(a, bs, n);
    ReadInRun(a, first, last, bs, n - 1, d);
    ChargeIsTheRightSpan(a, d);
    assert !LosesItsSpan(a, d) <==> a.Days(t).value == Span(a, d);
    if n > 1 {
      assert a.SettlesNext(ds[n - 2]) == a.Settles(d);
    } else {
      assert TotalDays(a, bs[..0]) == 0;
    }
  }

  lemma TotalOneMore(a: Accrual, bs: seq<int>, n: nat)
    requires 0 < n <= |bs|
    requires forall i :: 0 <= i < |bs| ==> a.Days(bs[i]).Some?
    ensures TotalDays(a, bs[..n]) == TotalDays(a, bs[..n - 1]) + a.Days(bs[n - 1]).value
  {
    assert bs[..n][..n - 1] == bs[..n - 1];
  }

  lemma {:induction false} KeptSpansAddUp(
    a: Accrual, first: int, last: int, bs: seq<int>, ds: seq<int>, n: nat)
    requires PlacedOver(a, first, last) && Chargeable(a, first, last, bs)
    requires Dates(a, first, last, bs, ds) && 0 < n <= |ds| && Sized(a, first)
    requires forall i :: 0 < i < |ds| ==> a.Following(ds[i - 1]) == Some(ds[i])
    requires forall d :: first <= d <= last ==> !LosesItsSpan(a, d)
    ensures Sized(a, ds[n - 1]) && a.IsCutoffOn(ds[n - 1], bs[n - 1])
    ensures ConservedAt(a, first, bs, n, ds[n - 1])
  {
    if n > 1 {
      KeptSpansAddUp(a, first, last, bs, ds, n - 1);
    }
    assert Dated(a, first, last, bs, ds, n - 1);
    assert !LosesItsSpan(a, ds[n - 1]);
    OneMoreCharge(a, first, last, bs, ds, n);
  }

  /** In an orderly zone a run charges each day once, and its charges add up. */
  lemma OrderlyRunsChargeOnce(a: Accrual, first: int, last: int, bs: seq<int>)
    requires a.Orderly() && Run(a, first, last, bs)
    requires forall i :: 0 <= i < |bs| ==> a.Days(bs[i]).Some?
    ensures Sized(a, first) && Sized(a, last) && EachDayOnce(a, first, last, bs)
    ensures TotalDays(a, bs) == a.SettlesNext(last).value - a.Settles(first).value
  {
    assert PlacedOver(a, first, last);
    var ds := DatesOfRun(a, first, last, bs);
    forall d | first <= d <= last
      ensures SizedOn(a, d)
    {
      if a.HasCutoff(d) {
        var n := CutoffIsReached(a, first, last, bs, ds, d);
        DaysAreTheSettlementSpan(a, bs[n - 1]);
      }
    }
    EachDayIsChargedOnce(a, first, last, bs);
    KeptSpansTotal(a, first, last, bs);
  }

  lemma KeptSpansTotal(a: Accrual, first: int, last: int, bs: seq<int>)
    requires PlacedOver(a, first, last) && Run(a, first, last, bs) && Chargeable(a, first, last, bs)
    requires Unshared(a, first, last) && forall d :: first <= d <= last ==> !LosesItsSpan(a, d)
    ensures Sized(a, first) && Sized(a, last)
    ensures TotalDays(a, bs) == a.SettlesNext(last).value - a.Settles(first).value
  {
    assert SizedOn(a, first) && SizedOn(a, last);
    var ds := DatesOfRun(a, first, last, bs);
    DatesFollow(a, first, last, bs, ds);
    KeptSpansAddUp(a, first, last, bs, ds, |bs|);
    assert bs[..|bs|] == bs;
  }

  // ------------------------------------------------------------------------------ accruing

  /** The share of an annual amount for `days`, in a year taken as 360 or 365 of them. */
  function Accrue(annual: real, days: int, basis: int): real
    requires basis > 0
  {
    annual * days as real / basis as real
  }

  function TotalAccrued(a: Accrual, annual: real, basis: int, bs: seq<int>): real
    requires basis > 0
    requires forall i :: 0 <= i < |bs| ==> a.Days(bs[i]).Some?
  {
    if bs == [] then 0.0
    else TotalAccrued(a, annual, basis, bs[..|bs| - 1])
         + Accrue(annual, a.Days(bs[|bs| - 1]).value, basis)
  }

  /** A constant annual amount accrues, over any run, for the calendar days the run settles over. */
  lemma ConstantAmountAccruesByTheDay(
    a: Accrual, annual: real, basis: int, first: int, last: int, bs: seq<int>, days: int, amount: real)
    requires PlacedOver(a, first, last) && Run(a, first, last, bs) && Chargeable(a, first, last, bs)
    requires Unshared(a, first, last) && forall d :: first <= d <= last ==> !LosesItsSpan(a, d)
    requires basis > 0 && Sized(a, first) && Sized(a, last)
    requires days == a.SettlesNext(last).value - a.Settles(first).value
    requires amount == annual * days as real / basis as real
    ensures TotalAccrued(a, annual, basis, bs) == amount
  {
    KeptSpansTotal(a, first, last, bs);
    AccruedOver(a, annual, basis, bs, days);
    AccrueIs(annual, days, basis, amount);
  }

  lemma AccrueIs(annual: real, days: int, basis: int, amount: real)
    requires basis > 0 && amount == annual * days as real / basis as real
    ensures Accrue(annual, days, basis) == amount
  {
  }

  lemma AccruedOver(a: Accrual, annual: real, basis: int, bs: seq<int>, days: int)
    requires basis > 0
    requires forall i :: 0 <= i < |bs| ==> a.Days(bs[i]).Some?
    requires TotalDays(a, bs) == days
    ensures TotalAccrued(a, annual, basis, bs) == Accrue(annual, days, basis)
  {
    AccruedIsLinear(a, annual, basis, bs);
  }

  lemma {:induction false} AccruedIsLinear(a: Accrual, annual: real, basis: int, bs: seq<int>)
    requires basis > 0
    requires forall i :: 0 <= i < |bs| ==> a.Days(bs[i]).Some?
    ensures TotalAccrued(a, annual, basis, bs) == Accrue(annual, TotalDays(a, bs), basis)
  {
    if bs == [] {
    } else {
      var before := bs[..|bs| - 1];
      AccruedIsLinear(a, annual, basis, before);
      AccrueAdds(annual, TotalDays(a, before), a.Days(bs[|bs| - 1]).value, basis);
    }
  }

  lemma AccrueAdds(annual: real, m: int, n: int, basis: int)
    requires basis > 0
    ensures Accrue(annual, m, basis) + Accrue(annual, n, basis) == Accrue(annual, m + n, basis)
  {
    Distribute(m as real, n as real, annual);
    DivideSum(annual * m as real, annual * n as real, basis as real);
  }

  // ------------------------------------------------------------------------------ a gap past midnight

  /** Local clocks that skip from 23:30 on `date` to 00:30 on the next, an hour forward. */
  function SkipsMidnight(date: int): Zone {
    var gap, hour := (date + 1) * DAY - 30 * MINUTE, 60 * MINUTE;
    Zone(
      local => if local < gap then Some(local)
               else if local < gap + hour then None
               else Some(local - hour),
      instant => if instant < gap then instant else instant + hour)
  }

  /** That clock places every cutoff at 23:45, in date order; `date`'s alone is on another date. */
  lemma SkippingMidnightPlaces(a: Accrual, date: int)
    requires a.zone == SkipsMidnight(date) && a.cutoff == DAY - 15 * MINUTE
    ensures Consistent(a.zone) && Increasing(a.zone) && a.Placed()
    ensures forall d :: a.LocalDate(a.CutoffOn(d).value) == if d == date then d + 1 else d
    ensures a.CutoffOn(date) == Some((date + 1) * DAY - 30 * MINUTE)
    ensures a.LocalDate(date * DAY) == date
  {
    forall d
      ensures a.CutoffOn(d).Some? && ShowsBeforeNext(a, d)
      ensures a.LocalDate(a.CutoffOn(d).value) == if d == date then d + 1 else d
    {
      SkippedCutoff(a, date, d);
    }
    SkippedCutoff(a, date, date);
    SkippingIsConsistent(a.zone, date);
    WhenCutoffsArePlaced(a);
  }

  lemma SkippingIsConsistent(zone: Zone, date: int)
    requires zone == SkipsMidnight(date)
    ensures Consistent(zone) && Increasing(zone)
  {
  }

  lemma SkippedCutoff(a: Accrual, date: int, d: int)
    requires a.zone == SkipsMidnight(date) && a.cutoff == DAY - 15 * MINUTE
    ensures a.CutoffOn(d).Some? && ShowsBeforeNext(a, d)
    ensures a.LocalDate(a.CutoffOn(d).value) == if d == date then d + 1 else d
    ensures d == date ==> a.CutoffOn(d) == Some((d + 1) * DAY - 30 * MINUTE)
  {
    var minute := d * 1440 + if d == date then 45 else 0;
    assert a.Shows()(minute);
    FirstUnique(a.Shows(), d * 1440, d * 1440 + 1441, minute);
  }

  /**
   A daily 23:45 cutoff under that clock, on any calendar with cutoffs on both dates and any lag: two
   consecutive charges are for the same days, and none is for the days of `date`.
   */
  lemma AGapPastMidnightChargesADayTwice(a: Accrual, date: int)
    requires a.zone == SkipsMidnight(date) && a.cutoff == DAY - 15 * MINUTE
    requires a.HasCutoff(date) && a.HasCutoff(date + 1) && date + 1 <= a.last
    requires Sized(a, date) && Sized(a, date + 1)
    ensures Consistent(a.zone) && a.Placed()
    ensures var first, second := a.CutoffOn(date), a.CutoffOn(date + 1);
            && a.NextBoundary(date * DAY) == first
            && a.NextBoundary(first.value) == second
            && (forall day :: a.Charges(first.value, day) <==> a.Charges(second.value, day))
            && a.Charges(first.value, a.Settles(date + 1).value)
            && (forall day :: a.Settles(date).value <= day < a.SettlesNext(date).value ==>
                  !a.Charges(first.value, day) && !a.Charges(second.value, day))
  {
    SkippingMidnightPlaces(a, date);
    var t0, t1 := a.CutoffOn(date).value, a.CutoffOn(date + 1).value;
    assert a.LocalDate(t0) == date + 1 == a.LocalDate(t1);
    FirstUnique(a.EndsSearch(date * DAY), date, SearchEnd(date, a.last), date);
    FirstUnique(a.EndsSearch(t0), date + 1, SearchEnd(date + 1, a.last), date + 1);
    SpanIsPositive(a, date + 1);
    if a.days.Settlement? {
      FirstUnique(a.days.open, date + 1, SearchEnd(date + 1, a.last), date + 1);
    }
  }

  /**
   A cutoff half a minute earlier lands half a minute past the gap. Asked from the instant the gap
   ends, the next boundary is the next date's cutoff, and the one half a minute on is never reached.
   */
  lemma AGapCanHideACutoff(a: Accrual, date: int)
    requires a.zone == SkipsMidnight(date) && a.cutoff == DAY - 15 * MINUTE - MINUTE / 2
    requires a.HasCutoff(date) && a.HasCutoff(date + 1) && date + 1 <= a.last
    ensures var after := (date + 1) * DAY - 30 * MINUTE;
            && a.IsCutoffOn(date, after + MINUTE / 2)
            && a.NextBoundary(after) == Some(after + DAY - 45 * MINUTE - MINUTE / 2)
  {
    var after := (date + 1) * DAY - 30 * MINUTE;
    EarlierCutoffs(a, date);
    FirstUnique(a.EndsSearch(after), date + 1, SearchEnd(date + 1, a.last), date + 1);
  }

  lemma EarlierCutoffs(a: Accrual, date: int)
    requires a.zone == SkipsMidnight(date) && a.cutoff == DAY - 15 * MINUTE - MINUTE / 2
    ensures a.CutoffOn(date) == Some((date + 1) * DAY - 30 * MINUTE + MINUTE / 2)
    ensures a.CutoffOn(date + 1) == Some((date + 2) * DAY - 75 * MINUTE - MINUTE / 2)
    ensures a.LocalDate((date + 1) * DAY - 30 * MINUTE) == date + 1
  {
    assert a.Shows()(date * 1440 + 46) && a.Shows()((date + 1) * 1440);
    FirstUnique(a.Shows(), date * 1440, date * 1440 + 1441, date * 1440 + 46);
    FirstUnique(a.Shows(), (date + 1) * 1440, (date + 1) * 1440 + 1441, (date + 1) * 1440);
  }
}
