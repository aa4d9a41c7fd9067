/** Half-open integer spans laid end to end. */
module Spans {

  /** Span `i` is `[starts[i], ends[i])`, none is empty, and each begins where the last ends. */
  ghost predicate Abutting(starts: seq<int>, ends: seq<int>) {
    && 0 < |starts| == |ends|
    && (forall i :: 0 <= i < |starts| ==> starts[i] < ends[i])
    && (forall i :: 0 < i < |starts| ==> starts[i] == ends[i - 1])
  }

  predicate Covers(starts: seq<int>, ends: seq<int>, i: int, x: int)
    requires |starts| == |ends|
  {
    0 <= i < |starts| && starts[i] <= x < ends[i]
  }

  lemma {:induction false} LaterSpansFollow(starts: seq<int>, ends: seq<int>, i: nat, j: nat)
    requires Abutting(starts, ends) && i < j < |starts|
    ensures ends[i] <= starts[j]
  {
    if i < j - 1 {
      LaterSpansFollow(starts, ends, i, j - 1);
    }
  }

  ghost predicate Covered(starts: seq<int>, ends: seq<int>, x: int)
    requires |starts| == |ends|
  {
    exists i :: Covers(starts, ends, i, x)
  }

  /** Each point of `[from, to)` lies in exactly one span, and no other point in any. */
  ghost predicate CoverOnce(starts: seq<int>, ends: seq<int>, from: int, to: int)
    requires |starts| == |ends|
  {
    && (forall x :: Covered(starts, ends, x) <==> from <= x < to)
    && (forall x, i, j :: Covers(starts, ends, i, x) && Covers(starts, ends, j, x) ==> i == j)
  }

  /** Spans end to end cover each point from the first start to the last end once, and no other. */
  lemma AbuttingCoverOnce(starts: seq<int>, ends: seq<int>)
    requires Abutting(starts, ends)
    ensures CoverOnce(starts, ends, starts[0], ends[|ends| - 1])
  {
    forall x
      ensures Covered(starts, ends, x) <==> starts[0] <= x < ends[|ends| - 1]
    {
      if i :| Covers(starts, ends, i, x) {
        WithinEnds(starts, ends, i);
      }
      if starts[0] <= x < ends[|ends| - 1] {
        var i := SpanOf(starts, ends, x, |ends| - 1);
      }
    }
    forall x, i, j | Covers(starts, ends, i, x) && Covers(starts, ends, j, x)
      ensures i == j
    {
      if i < j {
        LaterSpansFollow(starts, ends, i, j);
      } else if j < i {
        LaterSpansFollow(starts, ends, j, i);
      }
    }
  }

  lemma WithinEnds(starts: seq<int>, ends: seq<int>, i: nat)
    requires Abutting(starts, ends) && i < |starts|
    ensures starts[0] <= starts[i] && ends[i] <= ends[|ends| - 1]
  {
    if i > 0 {
      LaterSpansFollow(starts, ends, 0, i);
    }
    if i < |ends| - 1 {
      LaterSpansFollow(starts, ends, i, |ends| - 1);
    }
  }

  lemma {:induction false} SpanOf(starts: seq<int>, ends: seq<int>, x: int, n: nat) returns (i: nat)
    requires Abutting(starts, ends) && n < |starts| && starts[0] <= x < ends[n]
    ensures Covers(starts, ends, i, x)
  {
    i := n;
    if x < starts[n] {
      i := SpanOf(starts, ends, x, n - 1);
    }
  }
}
