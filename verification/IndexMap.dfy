/**
 A map that remembers the order its keys were inserted in, as a sequence of entries with distinct
 keys. Removing and updating are written to act on every entry of a key; there is at most one.
 */
module IndexMap {
  import opened Wrappers

  type Key = string

  datatype Entry<V> = Entry(key: Key, value: V)

  type Entries<V> = seq<Entry<V>>

  ghost predicate Distinct<V>(m: Entries<V>) {
    forall i, j :: 0 <= i < j < |m| ==> m[i].key != m[j].key
  }

  function Get<V>(m: Entries<V>, k: Key): Option<V> {
    if m == [] then None
    else if m[0].key == k then Some(m[0].value)
    else Get(m[1..], k)
  }

  predicate Has<V>(m: Entries<V>, k: Key) {
    Get(m, k).Some?
  }

  /** The entries `keep` accepts, in order. */
  function Filter<V>(m: Entries<V>, keep: Entry<V> -> bool): Entries<V> {
    if m == [] then []
    else if keep(m[0]) then [m[0]] + Filter(m[1..], keep)
    else Filter(m[1..], keep)
  }

  function IsNot<V>(k: Key): Entry<V> -> bool {
    (e: Entry<V>) => e.key != k
  }

  /** Removes `k`, keeping the order of the rest. */
  function Remove<V>(m: Entries<V>, k: Key): Entries<V> {
    Filter(m, IsNot(k))
  }

  /** Applies `f` to the value of `k` where it stands, if it stands anywhere. */
  function Update<V>(m: Entries<V>, k: Key, f: V -> V): (r: Entries<V>)
    ensures |r| == |m|
    ensures forall i :: 0 <= i < |m| ==>
              r[i] == if m[i].key == k then Entry(k, f(m[i].value)) else m[i]
  {
    seq(|m|, i requires 0 <= i < |m| =>
      if m[i].key == k then Entry(k, f(m[i].value)) else m[i])
  }

  /** Replaces the value of `k` where it stands, and appends it if it stands nowhere. */
  function Insert<V>(m: Entries<V>, k: Key, v: V): Entries<V> {
    if Has(m, k) then Update(m, k, _ => v) else m + [Entry(k, v)]
  }

  // ------------------------------------------------------------------------------ facts

  lemma {:induction false} HasIs<V>(m: Entries<V>, k: Key)
    ensures Has(m, k) <==> exists i :: 0 <= i < |m| && m[i].key == k
    ensures Has(m, k) ==> Entry(k, Get(m, k).value) in m
  {
    if m != [] {
      HasIs(m[1..], k);
      assert m == [m[0]] + m[1..];
      assert forall i :: 0 < i < |m| ==> m[i] == m[1..][i - 1];
    }
  }

  lemma {:induction false} GetIs<V>(m: Entries<V>, i: nat)
    requires Distinct(m) && i < |m|
    ensures Get(m, m[i].key) == Some(m[i].value)
  {
    if i > 0 {
      assert m[1..][i - 1] == m[i];
      GetIs(m[1..], i - 1);
    }
  }

  lemma {:induction false} FilterConcat<V>(a: Entries<V>, b: Entries<V>, keep: Entry<V> -> bool)
    ensures Filter(a + b, keep) == Filter(a, keep) + Filter(b, keep)
  {
    if a == [] {
      assert a + b == b;
    } else {
      FilterConcat(a[1..], b, keep);
      assert (a + b)[1..] == a[1..] + b;
      var x, y := Filter(a[1..], keep), Filter(b, keep);
      assert [a[0]] + (x + y) == [a[0]] + x + y;
    }
  }

  lemma {:induction false} FilterAll<V>(m: Entries<V>, keep: Entry<V> -> bool)
    requires forall e :: e in m ==> keep(e)
    ensures Filter(m, keep) == m
  {
    if m != [] {
      FilterAll(m[1..], keep);
    }
  }

  lemma {:induction false} FilterIn<V>(m: Entries<V>, keep: Entry<V> -> bool, e: Entry<V>)
    ensures e in Filter(m, keep) <==> e in m && keep(e)
  {
    if m != [] {
      FilterIn(m[1..], keep, e);
      assert m == [m[0]] + m[1..];
    }
  }

  lemma {:induction false} FilterDistinct<V>(m: Entries<V>, keep: Entry<V> -> bool)
    requires Distinct(m)
    ensures Distinct(Filter(m, keep)) && |Filter(m, keep)| <= |m|
  {
    if m != [] {
      FilterDistinct(m[1..], keep);
      var rest := Filter(m[1..], keep);
      forall i | 0 <= i < |rest|
        ensures rest[i].key != m[0].key
      {
        FilterIn(m[1..], keep, rest[i]);
        var j :| 0 <= j < |m[1..]| && m[1..][j] == rest[i];
        assert m[j + 1] == rest[i];
      }
    }
  }

  lemma {:induction false} FilterGet<V>(m: Entries<V>, keep: Entry<V> -> bool, k: Key)
    requires Distinct(m)
    ensures Get(Filter(m, keep), k)
         == if Has(m, k) && keep(Entry(k, Get(m, k).value)) then Get(m, k) else None
  {
    if m != [] {
      FilterGet(m[1..], keep, k);
      if m[0].key == k && !keep(m[0]) {
        HasIs(m[1..], k);
      }
    }
  }

  lemma RemoveAbsent<V>(m: Entries<V>, k: Key)
    requires !Has(m, k)
    ensures Remove(m, k) == m
  {
    HasIs(m, k);
    FilterAll(m, IsNot(k));
  }

  lemma {:induction false} GetConcat<V>(a: Entries<V>, b: Entries<V>, k: Key)
    ensures Get(a + b, k) == if Has(a, k) then Get(a, k) else Get(b, k)
  {
    if a == [] {
      assert a + b == b;
    } else {
      GetConcat(a[1..], b, k);
      assert (a + b)[1..] == a[1..] + b;
    }
  }

  lemma {:induction false} GetUpdate<V>(m: Entries<V>, k: Key, f: V -> V, other: Key)
    ensures Get(Update(m, k, f), other)
         == if other == k && Has(m, k) then Some(f(Get(m, k).value)) else Get(m, other)
  {
    if m != [] {
      assert Update(m, k, f)[1..] == Update(m[1..], k, f);
      GetUpdate(m[1..], k, f, other);
    }
  }

  lemma UpdateConcat<V>(a: Entries<V>, b: Entries<V>, k: Key, f: V -> V)
    ensures Update(a + b, k, f) == Update(a, k, f) + Update(b, k, f)
  {
  }

  lemma RemoveFacts<V>(m: Entries<V>, k: Key)
    requires Distinct(m)
    ensures Distinct(Remove(m, k)) && |Remove(m, k)| <= |m|
    ensures forall j :: Get(Remove(m, k), j) == if j == k then None else Get(m, j)
    ensures forall e :: e in Remove(m, k) <==> e in m && e.key != k
  {
    FilterDistinct(m, IsNot(k));
    forall j
      ensures Get(Remove(m, k), j) == if j == k then None else Get(m, j)
    {
      FilterGet(m, IsNot(k), j);
    }
    forall e
      ensures e in Remove(m, k) <==> e in m && e.key != k
    {
      FilterIn(m, IsNot(k), e);
    }
  }

  lemma AppendFacts<V>(m: Entries<V>, e: Entry<V>)
    requires Distinct(m) && !Has(m, e.key)
    ensures Distinct(m + [e])
    ensures forall j :: Get(m + [e], j) == if j == e.key then Some(e.value) else Get(m, j)
  {
    HasIs(m, e.key);
    forall j
      ensures Get(m + [e], j) == if j == e.key then Some(e.value) else Get(m, j)
    {
      GetConcat(m, [e], j);
    }
  }

  lemma TailFacts<V>(m: Entries<V>)
    requires Distinct(m) && m != []
    ensures Distinct(m[1..])
    ensures forall j :: Get(m[1..], j) == if j == m[0].key then None else Get(m, j)
  {
    HasIs(m[1..], m[0].key);
  }

  lemma UpdateFacts<V>(m: Entries<V>, k: Key, f: V -> V)
    requires Distinct(m)
    ensures Distinct(Update(m, k, f))
    ensures forall j :: Get(Update(m, k, f), j)
                     == if j == k && Has(m, k) then Some(f(Get(m, k).value)) else Get(m, j)
  {
    forall j
      ensures Get(Update(m, k, f), j)
           == if j == k && Has(m, k) then Some(f(Get(m, k).value)) else Get(m, j)
    {
      GetUpdate(m, k, f, j);
    }
  }
}
