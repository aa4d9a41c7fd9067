/** A driver's walk through a model's boundaries in time. */
module Schedule {
  import opened Wrappers

  /** No boundary is at or before the instant it was asked from: the venue panics on one. */
  ghost predicate Advances(next: int -> Option<int>) {
    forall s :: next(s).Some? ==> next(s).value > s
  }

  /** The boundaries a walk from `after` takes, asking from each for the next, until one is too late. */
  function BoundariesThrough(next: int -> Option<int>, after: int, through: int): seq<int>
    requires Advances(next)
    decreases through - after
  {
    match next(after)
    case None => []
    case Some(b) => if b > through then [] else [b] + BoundariesThrough(next, b, through)
  }

  /**
   Whether the walk gets an answer each time it asks. It asks once more than it yields: the
   iterator computes a boundary's successor as it takes the boundary, in or out of range.
   */
  predicate Completes(next: int -> Option<int>, after: int, through: int)
    requires Advances(next)
    decreases through - after
  {
    && next(after).Some?
    && next(next(after).value).Some?
    && (next(after).value <= through ==> Completes(next, next(after).value, through))
  }

  /**
   A walk completes exactly when there is a next boundary from its start and from each one it yields,
   and one more after each of those.
   */
  lemma {:induction false} CompletingIsAnswering(next: int -> Option<int>, after: int, through: int)
    requires Advances(next)
    ensures Completes(next, after, through)
            <==> forall s :: s in [after] + BoundariesThrough(next, after, through) ==>
                   next(s).Some? && next(next(s).value).Some?
    decreases through - after
  {
    if next(after).Some? && next(after).value <= through {
      var b := next(after).value;
      CompletingIsAnswering(next, b, through);
      var rest := [b] + BoundariesThrough(next, b, through);
      assert BoundariesThrough(next, after, through) == rest;
      assert forall s :: s in [after] + rest <==> s == after || s in rest;
    } else {
      assert forall s :: s in [after] <==> s == after;
      assert [after] + [] == [after];
    }
  }

  /** `next` answers, when it does, with the least instant strictly later at which `due` holds. */
  ghost predicate AnswersLeast(next: int -> Option<int>, due: int -> bool) {
    forall s :: next(s).Some? ==>
      && due(next(s).value) && next(s).value > s
      && forall t :: due(t) && t > s ==> next(s).value <= t
  }

  /** From `after` on, `next` is silent only when nothing is due any more. */
  ghost predicate SilentAtTheEnd(next: int -> Option<int>, due: int -> bool, after: int) {
    forall s, t :: s >= after && next(s).None? && due(t) ==> t <= s
  }

  /** Moving the clock short of the next boundary leaves it the next one. */
  ghost predicate Stable(next: int -> Option<int>) {
    forall s, t :: next(s).Some? && s <= t < next(s).value ==> next(t) == next(s)
  }

  /** An instant before all the others, put first, is one more of them and keeps their order. */
  lemma Prepended(b: int, rest: seq<int>)
    requires forall t :: t in rest ==> b < t
    requires forall i, j :: 0 <= i < j < |rest| ==> rest[i] < rest[j]
    ensures forall t :: t in [b] + rest <==> t == b || t in rest
    ensures forall i, j :: 0 <= i < j < |[b] + rest| ==> ([b] + rest)[i] < ([b] + rest)[j]
  {
    assert forall i :: 0 <= i < |rest| ==> rest[i] in rest;
  }

  /** A walk yields exactly the instants due in its interval, each once, in time order. */
  lemma {:induction false} WalkIsWhatIsDue(
    next: int -> Option<int>, due: int -> bool, after: int, through: int)
    requires Advances(next) && AnswersLeast(next, due)
    requires SilentAtTheEnd(next, due, after) || Completes(next, after, through)
    ensures var bs := BoundariesThrough(next, after, through);
            && (forall t :: t in bs <==> due(t) && after < t <= through)
            && (forall i, j :: 0 <= i < j < |bs| ==> bs[i] < bs[j])
    decreases through - after
  {
    if next(after).Some? && next(after).value <= through {
      var b := next(after).value;
      WalkIsWhatIsDue(next, due, b, through);
      Prepended(b, BoundariesThrough(next, b, through));
    }
  }

  /**
   However the clock is moved, the same boundaries fall: one move is any two that make it up, and
   it gets every answer it asks for exactly when both of them do.
   */
  lemma {:induction false} SplittingAWalk(next: int -> Option<int>, t1: int, t2: int, t3: int)
    requires Advances(next) && Stable(next) && t1 <= t2 <= t3
    ensures Completes(next, t1, t3) <==> Completes(next, t1, t2) && Completes(next, t2, t3)
    ensures Completes(next, t1, t3) || (forall s, t :: next(s).None? && s <= t ==> next(t).None?)
      ==> BoundariesThrough(next, t1, t3)
          == BoundariesThrough(next, t1, t2) + BoundariesThrough(next, t2, t3)
    decreases t3 - t1
  {
    if next(t1).Some? && next(t1).value <= t2 {
      SplittingAWalk(next, next(t1).value, t2, t3);
    }
  }

  /** The clock is never moved back, and each of its moves gets every answer it asks for. */
  ghost predicate Moves(next: int -> Option<int>, times: seq<int>)
    requires Advances(next)
  {
    times != [] && forall i :: 0 < i < |times| ==> Move(next, times, i)
  }

  predicate Move(next: int -> Option<int>, times: seq<int>, i: int)
    requires Advances(next) && 0 < i < |times|
  {
    times[i - 1] <= times[i] && Completes(next, times[i - 1], times[i])
  }

  /** Everything the moves of the clock to `times`, one after another, reach. */
  function ReachedBy(next: int -> Option<int>, times: seq<int>): seq<int>
    requires Advances(next)
  {
    if |times| <= 1 then []
    else
      var n := |times| - 1;
      ReachedBy(next, times[..n]) + BoundariesThrough(next, times[n - 1], times[n])
  }

  /** Any moves of the clock reach what one move over them all does. */
  lemma {:induction false} MovesAreOneMove(next: int -> Option<int>, times: seq<int>)
    requires Advances(next) && Stable(next) && Moves(next, times) && |times| > 1
    ensures times[0] <= times[|times| - 1]
    ensures Completes(next, times[0], times[|times| - 1])
    ensures ReachedBy(next, times) == BoundariesThrough(next, times[0], times[|times| - 1])
  {
    var n := |times| - 1;
    assert Move(next, times, n);
    if n == 1 {
      assert ReachedBy(next, times[..1]) == [];
    } else {
      var before := times[..n];
      forall i | 0 < i < n
        ensures Move(next, before, i)
      {
        assert Move(next, times, i);
      }
      MovesAreOneMove(next, before);
      SplittingAWalk(next, times[0], times[n - 1], times[n]);
    }
  }

  /** Each boundary a walk yields is the next one from the boundary before. */
  lemma {:induction false} WalkIsConsecutive(
    next: int -> Option<int>, after: int, through: int, i: nat)
    requires Advances(next)
    requires i < |BoundariesThrough(next, after, through)|
    ensures var bs := BoundariesThrough(next, after, through);
            next(if i == 0 then after else bs[i - 1]) == Some(bs[i])
    decreases i
  {
    var bs := BoundariesThrough(next, after, through);
    if i > 0 {
      WalkIsConsecutive(next, bs[0], through, i - 1);
      assert bs[1..] == BoundariesThrough(next, bs[0], through);
    }
  }
}
