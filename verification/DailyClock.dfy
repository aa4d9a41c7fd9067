/** Which daily cutoffs a move of the venue's clock reaches, and what splitting a move changes. */
module DailyClock {
  import opened DailyAccrual
  import opened DailyCharges
  import opened Schedule
  import opened Search
  import opened Wrappers

  lemma NextBoundaryAdvances(a: Accrual)
    ensures Advances(a.Next())
  {
    forall s | a.NextBoundary(s).Some?
      ensures a.NextBoundary(s).value > s
    {
      var date := a.LocalDate(s);
      var stop := First(a.EndsSearch(s), date, SearchEnd(date, a.last));
      assert a.EndsSearch(s)(stop.value);
    }
  }

  // ------------------------------------------------------------------------------ one move

  /** The cutoff of a date from `from` on is at `t`, and `t` is in the interval. */
  ghost predicate Due(a: Accrual, from: int, after: int, through: int, t: int) {
    after < t <= through && exists date :: from <= date && a.IsCutoffOn(date, t)
  }

  ghost predicate Ascending(ts: seq<int>) {
    forall i, j :: 0 <= i < j < |ts| ==> ts[i] < ts[j]
  }

  /** A move reaches the cutoffs in its interval of the dates from the local one it starts on. */
  lemma {:induction false} WalkIsByDate(a: Accrual, after: int, through: int)
    requires a.Placed()
    requires Advances(a.Next()) && Completes(a.Next(), after, through)
    ensures var bs := BoundariesThrough(a.Next(), after, through);
            && (forall t :: t in bs <==> Due(a, a.LocalDate(after), after, through, t))
            && Ascending(bs)
    decreases through - after
  {
    var b := a.NextBoundary(after).value;
    if b <= through {
      WalkIsByDate(a, b, through);
      LaterDueIsDue(a, after, through);
      JoinedAscend([b], BoundariesThrough(a.Next(), b, through), b);
      assert BoundariesThrough(a.Next(), after, through)
          == [b] + BoundariesThrough(a.Next(), b, through);
    } else {
      NothingDue(a, after, through);
    }
  }

  lemma NothingDue(a: Accrual, after: int, through: int)
    requires a.Placed() && a.NextBoundary(after).Some? && a.NextBoundary(after).value > through
    ensures forall t :: !Due(a, a.LocalDate(after), after, through, t)
  {
    var stop := NextIsFirstByDate(a, after);
  }

  /** The next boundary is the least cutoff of the dates from the local one. */
  lemma NextIsFirstByDate(a: Accrual, after: int) returns (stop: int)
    requires a.Placed() && a.NextBoundary(after).Some?
    ensures stop >= a.LocalDate(after) && a.IsCutoffOn(stop, a.NextBoundary(after).value)
    ensures a.NextBoundary(after).value > after
    ensures forall d, t :: a.LocalDate(after) <= d && a.IsCutoffOn(d, t) && t > after ==> stop <= d
  {
    var date := a.LocalDate(after);
    stop := First(a.EndsSearch(after), date, SearchEnd(date, a.last)).value;
    assert a.EndsSearch(after)(stop);
    forall d, t | date <= d && a.IsCutoffOn(d, t) && t > after
      ensures stop <= d
    {
      assert a.EndsSearch(after)(d);
    }
  }

  lemma LaterDueIsDue(a: Accrual, after: int, through: int)
    requires a.Placed() && a.NextBoundary(after).Some? && a.NextBoundary(after).value <= through
    ensures var b := a.NextBoundary(after).value;
            forall t :: Due(a, a.LocalDate(after), after, through, t)
                        <==> t == b || Due(a, a.LocalDate(b), b, through, t)
  {
    var b := a.NextBoundary(after).value;
    var stop := NextIsFirstByDate(a, after);
    forall t
      ensures Due(a, a.LocalDate(after), after, through, t)
              <==> t == b || Due(a, a.LocalDate(b), b, through, t)
    {
      if Due(a, a.LocalDate(after), after, through, t) && t != b {
        var d :| a.LocalDate(after) <= d && a.IsCutoffOn(d, t);
        assert stop < d;
      }
      if Due(a, a.LocalDate(b), b, through, t) {
        var d :| a.LocalDate(b) <= d && a.IsCutoffOn(d, t);
        assert a.LocalDate(after) <= d;
      }
    }
  }

  /** No cutoff of a local date before the one `after` is on falls in the interval. */
  ghost predicate NoneHidden(a: Accrual, after: int, through: int)
    requires a.Placed()
  {
    forall d :: d < a.LocalDate(after) && d <= a.last && a.HasCutoff(d) ==>
      !(after < a.CutoffOn(d).value <= through)
  }

  /**
   A move that completes reaches cutoffs of its interval in order, each once, and all of them exactly
   when none of an earlier local date falls there; in an orderly zone, none does.
   */
  lemma ClockReachesTheCutoffs(a: Accrual, after: int, through: int)
    requires a.Placed()
    ensures Advances(a.Next())
    ensures Completes(a.Next(), after, through) ==>
              var bs := BoundariesThrough(a.Next(), after, through);
              && Ascending(bs)
              && (forall t :: t in bs ==> a.IsCutoff(t) && after < t <= through)
              && ((forall t :: a.IsCutoff(t) && after < t <= through ==> t in bs)
                  <==> NoneHidden(a, after, through))
    ensures a.Orderly() ==> NoneHidden(a, after, through)
  {
    NextBoundaryAdvances(a);
    if Completes(a.Next(), after, through) {
      WalkIsByDate(a, after, through);
      AllDueIsNoneHidden(a, after, through);
    }
  }

  lemma AllDueIsNoneHidden(a: Accrual, after: int, through: int)
    requires a.Placed()
    ensures (forall t :: a.IsCutoff(t) && after < t <= through
                         ==> Due(a, a.LocalDate(after), after, through, t))
            <==> NoneHidden(a, after, through)
  {
    if NoneHidden(a, after, through) {
      forall t | a.IsCutoff(t) && after < t <= through
        ensures Due(a, a.LocalDate(after), after, through, t)
      {
        var d :| a.IsCutoffOn(d, t);
        assert d >= a.LocalDate(after);
      }
    } else {
      var d :| d < a.LocalDate(after) && d <= a.last && a.HasCutoff(d)
               && after < a.CutoffOn(d).value <= through;
      var t := a.CutoffOn(d).value;
      assert a.IsCutoffOn(d, t);
      assert !Due(a, a.LocalDate(after), after, through, t) by {
        DateOfIs(a, d, t);
        assert forall e :: a.IsCutoffOn(e, t) ==> e == d;
      }
    }
  }

  // ------------------------------------------------------------------------------ splitting a move

  lemma {:induction false} AscendingIsItsMembers(xs: seq<int>, ys: seq<int>)
    requires Ascending(xs) && Ascending(ys)
    requires forall t :: t in xs <==> t in ys
    ensures xs == ys
  {
    if xs != [] {
      assert xs[0] in xs && xs[0] in ys;
    }
    if ys != [] {
      assert ys[0] in ys && ys[0] in xs;
      assert xs[0] == ys[0];
      forall t
        ensures t in xs[1..] <==> t in ys[1..]
      {
        assert t in xs[1..] <==> t in xs && t != xs[0];
        assert t in ys[1..] <==> t in ys && t != ys[0];
      }
      AscendingIsItsMembers(xs[1..], ys[1..]);
    }
  }

  lemma JoinedAscend(xs: seq<int>, ys: seq<int>, mid: int)
    requires Ascending(xs) && Ascending(ys)
    requires forall t :: t in xs ==> t <= mid
    requires forall t :: t in ys ==> mid < t
    ensures Ascending(xs + ys)
    ensures forall t :: t in xs + ys <==> t in xs || t in ys
  {
    assert forall i :: 0 <= i < |xs| ==> xs[i] in xs;
    assert forall i :: 0 <= i < |ys| ==> ys[i] in ys;
  }

  /** No cutoff of a date between the split's and the start's is still to come in the interval. */
  ghost predicate NoneBetween(a: Accrual, t1: int, t2: int, t3: int)
    requires a.Placed()
  {
    forall d :: d <= a.last && a.HasCutoff(d)
                && (a.LocalDate(t1) <= d < a.LocalDate(t2) || a.LocalDate(t2) <= d < a.LocalDate(t1)) ==>
      !(t2 < a.CutoffOn(d).value <= t3)
  }

  /**
   A move split in two reaches what the whole one does exactly when no cutoff of a local date between
   the one it starts on and the one it is split on is still to come.
   */
  lemma WhenSplittingChangesNothing(a: Accrual, t1: int, t2: int, t3: int)
    requires a.Placed() && t1 <= t2 <= t3
    requires Advances(a.Next()) && Completes(a.Next(), t1, t3)
    requires Completes(a.Next(), t1, t2) && Completes(a.Next(), t2, t3)
    ensures BoundariesThrough(a.Next(), t1, t3)
            == BoundariesThrough(a.Next(), t1, t2) + BoundariesThrough(a.Next(), t2, t3)
            <==> NoneBetween(a, t1, t2, t3)
  {
    var whole, first, second := BoundariesThrough(a.Next(), t1, t3),
                                BoundariesThrough(a.Next(), t1, t2),
                                BoundariesThrough(a.Next(), t2, t3);
    WalkIsByDate(a, t1, t3);
    WalkIsByDate(a, t1, t2);
    WalkIsByDate(a, t2, t3);
    JoinedAscend(first, second, t2);
    DueSplits(a, a.LocalDate(t1), t1, t2, t3);
    if NoneBetween(a, t1, t2, t3) {
      forall t
        ensures Due(a, a.LocalDate(t1), t2, t3, t) <==> Due(a, a.LocalDate(t2), t2, t3, t)
      {
        DueFromEither(a, t1, t2, t3, t);
      }
      AscendingIsItsMembers(whole, first + second);
    } else {
      var d := DateBetween(a, t1, t2, t3);
      var t := a.CutoffOn(d).value;
      DueByDate(a, a.LocalDate(t1), t2, t3, d);
      DueByDate(a, a.LocalDate(t2), t2, t3, d);
      assert t in whole <==> !(t in first + second);
    }
  }

  lemma DueSplits(a: Accrual, from: int, t1: int, t2: int, t3: int)
    requires t1 <= t2 <= t3
    ensures forall t :: Due(a, from, t1, t3, t) <==> Due(a, from, t1, t2, t) || Due(a, from, t2, t3, t)
  {
  }

  /** A cutoff in the interval is due from a date exactly when its own is not before it. */
  lemma DueByDate(a: Accrual, from: int, after: int, through: int, d: int)
    requires a.Placed() && d <= a.last && a.HasCutoff(d)
    requires after < a.CutoffOn(d).value <= through
    ensures Due(a, from, after, through, a.CutoffOn(d).value) <==> from <= d
  {
    var t := a.CutoffOn(d).value;
    assert a.IsCutoffOn(d, t);
    assert forall e :: a.IsCutoffOn(e, t) ==> e == d;
  }

  lemma DueFromEither(a: Accrual, t1: int, t2: int, t3: int, t: int)
    requires a.Placed() && NoneBetween(a, t1, t2, t3)
    ensures Due(a, a.LocalDate(t1), t2, t3, t) <==> Due(a, a.LocalDate(t2), t2, t3, t)
  {
    if t2 < t <= t3 && a.IsCutoff(t) {
      var d :| a.IsCutoffOn(d, t);
      DueByDate(a, a.LocalDate(t1), t2, t3, d);
      DueByDate(a, a.LocalDate(t2), t2, t3, d);
    }
  }

  lemma DateBetween(a: Accrual, t1: int, t2: int, t3: int) returns (d: int)
    requires a.Placed() && !NoneBetween(a, t1, t2, t3)
    ensures d <= a.last && a.HasCutoff(d) && t2 < a.CutoffOn(d).value <= t3
    ensures a.LocalDate(t1) <= d < a.LocalDate(t2) || a.LocalDate(t2) <= d < a.LocalDate(t1)
  {
    d :| d <= a.last && a.HasCutoff(d)
         && (a.LocalDate(t1) <= d < a.LocalDate(t2) || a.LocalDate(t2) <= d < a.LocalDate(t1))
         && t2 < a.CutoffOn(d).value <= t3;
  }

  /**
   In an orderly zone a clock move reaches what any two moves that make it up reach, and it panics
   exactly when one of them does.
   */
  lemma SplittingTheClockMove(a: Accrual, t1: int, t2: int, t3: int)
    requires a.Orderly() && t1 <= t2 <= t3
    ensures Advances(a.Next())
    ensures Completes(a.Next(), t1, t3)
            <==> Completes(a.Next(), t1, t2) && Completes(a.Next(), t2, t3)
    ensures Completes(a.Next(), t1, t3)
      ==> BoundariesThrough(a.Next(), t1, t3)
          == BoundariesThrough(a.Next(), t1, t2) + BoundariesThrough(a.Next(), t2, t3)
  {
    OrderlyIsStable(a);
    SplittingAWalk(a.Next(), t1, t2, t3);
  }

  lemma OrderlyIsStable(a: Accrual)
    requires a.Orderly()
    ensures Advances(a.Next()) && Stable(a.Next())
  {
    NextBoundaryAdvances(a);
    forall s, t | a.NextBoundary(s).Some? && s <= t < a.NextBoundary(s).value
      ensures a.NextBoundary(t) == a.NextBoundary(s)
    {
      NextBoundaryUnmoved(a, s, t);
    }
  }

  // ------------------------------------------------------------------------------ charging

  /** What a move reaches is a run, from the cutoff of one date to the cutoff of another. */
  lemma WalkIsARun(a: Accrual, after: int, through: int)
    requires a.Placed() && Advances(a.Next()) && BoundariesThrough(a.Next(), after, through) != []
    ensures exists first, last :: Run(a, first, last, BoundariesThrough(a.Next(), after, through))
  {
    var bs := BoundariesThrough(a.Next(), after, through);
    var n := |bs| - 1;
    forall i | 0 <= i < |bs|
      ensures i > 0 ==> Follows(a, bs, i)
      ensures a.IsCutoff(bs[i])
    {
      WalkIsConsecutive(a.Next(), after, through, i);
      NextBoundaryIsLeast(a, if i == 0 then after else bs[i - 1]);
    }
    var first :| a.IsCutoffOn(first, bs[0]);
    var last :| a.IsCutoffOn(last, bs[n]);
    WalkAscends(a, after, through, n);
    assert first <= last;
    assert Run(a, first, last, bs);
  }

  lemma {:induction false} WalkAscends(a: Accrual, after: int, through: int, n: nat)
    requires Advances(a.Next()) && n < |BoundariesThrough(a.Next(), after, through)|
    ensures var bs := BoundariesThrough(a.Next(), after, through); bs[0] <= bs[n]
  {
    if n > 0 {
      WalkAscends(a, after, through, n - 1);
      WalkIsConsecutive(a.Next(), after, through, n);
    }
  }

  /**
   However an orderly clock is moved, the charges on the way are a run, and charge each calendar day
   from its first settlement to its last exactly once.
   */
  lemma ClockMovesChargeEachDayOnce(a: Accrual, times: seq<int>)
    requires a.Orderly() && Advances(a.Next()) && Moves(a.Next(), times)
    requires ReachedBy(a.Next(), times) != []
    requires forall t :: t in ReachedBy(a.Next(), times) ==> a.Days(t).Some?
    ensures exists first, last ::
              && Run(a, first, last, ReachedBy(a.Next(), times))
              && Sized(a, first) && Sized(a, last)
              && EachDayOnce(a, first, last, ReachedBy(a.Next(), times))
  {
    var bs := ReachedBy(a.Next(), times);
    OrderlyIsStable(a);
    MovesAreOneMove(a.Next(), times);
    WalkIsARun(a, times[0], times[|times| - 1]);
    var first, last :| Run(a, first, last, bs);
    OrderlyRunsChargeOnce(a, first, last, bs);
  }
}
