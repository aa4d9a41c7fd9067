/**
 The names an exchange knows assets and instruments by, resolved as registered and, failing that,
 ignoring ASCII case.
 */
module NameMap {
  import opened Wrappers

  type Name = string
  type ExchangeId = string

  function Lower(c: char): char {
    if 'A' <= c <= 'Z' then c - 'A' + 'a' else c
  }

  /** `name` in ASCII lower case. */
  function Fold(name: Name): Name {
    seq(|name|, i requires 0 <= i < |name| => Lower(name[i]))
  }

  datatype Named = Named(name: Name, index: nat)

  /** The letters of one case and the other, and every other character as it is. */
  predicate AlikeButForCase(a: char, b: char) {
    || a == b
    || ('A' <= a <= 'Z' && b as int == a as int + 32)
    || ('A' <= b <= 'Z' && a as int == b as int + 32)
  }

  /** Two names fold alike exactly when they are alike but for the case of ASCII letters. */
  lemma FoldIgnoresCase(a: Name, b: Name)
    ensures Fold(a) == Fold(b)
            <==> |a| == |b| && forall i :: 0 <= i < |a| ==> AlikeButForCase(a[i], b[i])
  {
    assert forall i :: 0 <= i < |a| ==> Fold(a)[i] == Lower(a[i]);
    assert forall i :: 0 <= i < |b| ==> Fold(b)[i] == Lower(b[i]);
    if Fold(a) == Fold(b) {
      forall i | 0 <= i < |a|
        ensures AlikeButForCase(a[i], b[i])
      {
        assert Fold(a)[i] == Fold(b)[i];
        LowerIgnoresCase(a[i], b[i]);
      }
    } else if |a| == |b| {
      assert Fold(a) != Fold(b);
      var i :| 0 <= i < |a| && Fold(a)[i] != Fold(b)[i];
      LowerIgnoresCase(a[i], b[i]);
    }
  }

  lemma LowerIgnoresCase(a: char, b: char)
    ensures Lower(a) == Lower(b) <==> AlikeButForCase(a, b)
  {
  }

  // ------------------------------------------------------------------------------ folding

  predicate FoldsAt(names: seq<Named>, key: Name, i: int) {
    0 <= i < |names| && Fold(names[i].name) == key
  }

  /** The one and only name that folds to `key` is the `i`-th. */
  ghost predicate OnlyAt(names: seq<Named>, key: Name, i: int) {
    FoldsAt(names, key, i) && forall j :: FoldsAt(names, key, j) ==> j == i
  }

  /** Each folded key that one name alone folds to, with that name's index. */
  ghost function Folded(names: seq<Named>): (r: map<Name, nat>)
    ensures forall key :: key in r <==> exists i :: OnlyAt(names, key, i)
    ensures forall key, i :: OnlyAt(names, key, i) ==> key in r && r[key] == names[i].index
  {
    var keys := set i | 0 <= i < |names| :: Fold(names[i].name);
    assert forall key, i :: FoldsAt(names, key, i) ==> key in keys;
    map key | key in keys && (exists i :: OnlyAt(names, key, i)) ::
      var i :| OnlyAt(names, key, i); names[i].index
  }

  /** The program's loops: fill the map, note each clash, then drop every clashing key. */
  method FoldNames(names: seq<Named>) returns (folded: map<Name, nat>)
    ensures folded == Folded(names)
  {
    folded := map[];
    var shared: seq<Name> := [];
    for i := 0 to |names|
      invariant forall key :: key in folded <==> exists j :: 0 <= j < i && FoldsAt(names, key, j)
      invariant forall key :: key in folded ==>
                  exists j :: 0 <= j < i && FoldsAt(names, key, j) && folded[key] == names[j].index
      invariant forall key :: key in shared <==>
                  exists j, k :: 0 <= j < k < i && FoldsAt(names, key, j) && FoldsAt(names, key, k)
    {
      var key := Fold(names[i].name);
      assert FoldsAt(names, key, i);
      if key in folded {
        shared := shared + [key];
      }
      folded := folded[key := names[i].index];
    }
    ghost var full := folded;
    for i := 0 to |shared|
      invariant folded == full - (set k | k in shared[..i])
    {
      assert shared[..i + 1] == shared[..i] + [shared[i]];
      folded := folded - {shared[i]};
    }
    assert shared[..|shared|] == shared;
    forall key
      ensures key in folded <==> exists i :: OnlyAt(names, key, i)
    {
      if key in folded {
        var j :| 0 <= j < |names| && FoldsAt(names, key, j);
        assert OnlyAt(names, key, j);
      }
    }
  }

  lemma {:induction false} CountOfOne(names: seq<Named>, i: nat)
    requires i < |names| && forall j :: 0 <= j < |names| && j != i ==> names[j] != names[i]
    ensures multiset(names)[names[i]] == 1
  {
    assert names == names[..i] + [names[i]] + names[i + 1..];
    assert names[i] !in names[..i] && names[i] !in names[i + 1..];
  }

  lemma {:induction false} CountOfTwo(names: seq<Named>, i: nat, j: nat)
    requires i < j < |names| && names[i] == names[j]
    ensures multiset(names)[names[i]] >= 2
  {
    assert names == names[..i] + [names[i]] + names[i + 1..j] + [names[j]] + names[j + 1..];
  }

  lemma OnlyOneSurvivesShuffling(a: seq<Named>, b: seq<Named>, key: Name, i: int)
    requires multiset(a) == multiset(b) && OnlyAt(a, key, i)
    ensures exists j :: OnlyAt(b, key, j) && b[j] == a[i]
  {
    assert a[i] in multiset(b);
    var j :| 0 <= j < |b| && b[j] == a[i];
    forall k | FoldsAt(b, key, k)
      ensures k == j
    {
      assert b[k] in multiset(a);
      var h :| 0 <= h < |a| && a[h] == b[k];
      assert FoldsAt(a, key, h);
      forall x | 0 <= x < |a| && x != i
        ensures a[x] != a[i]
      {
        assert !FoldsAt(a, key, x);
      }
      CountOfOne(a, i);
      if k < j {
        CountOfTwo(b, k, j);
      } else if j < k {
        CountOfTwo(b, j, k);
      }
    }
    assert OnlyAt(b, key, j);
  }

  /** The folded map does not depend on the order a hash map is walked in. */
  lemma FoldingIgnoresOrder(a: seq<Named>, b: seq<Named>)
    requires multiset(a) == multiset(b)
    ensures Folded(a) == Folded(b)
  {
    forall key, i | OnlyAt(a, key, i)
      ensures exists j :: OnlyAt(b, key, j) && b[j] == a[i]
    {
      OnlyOneSurvivesShuffling(a, b, key, i);
    }
    forall key, j | OnlyAt(b, key, j)
      ensures exists i :: OnlyAt(a, key, i) && a[i] == b[j]
    {
      OnlyOneSurvivesShuffling(b, a, key, j);
    }
    forall key
      ensures key in Folded(a) <==> key in Folded(b)
      ensures key in Folded(a) ==> Folded(a)[key] == Folded(b)[key]
    {
      if key in Folded(a) {
        var i :| OnlyAt(a, key, i);
        var j :| OnlyAt(b, key, j) && b[j] == a[i];
      }
    }
  }

  // ------------------------------------------------------------------------------ the directory

  /** An asset or instrument registered for an exchange, under the exchange's own name for it. */
  datatype Listing = Listing(exchange: ExchangeId, name: Name, details: string)

  /** One exchange's own names, beside every listing there is. */
  datatype Directory = Directory(
    exchange: ExchangeId,
    listings: seq<Listing>,
    names: map<Name, nat>,
    folded: map<Name, nat>)
  {
    /** The index of what the exchange reports as `name`. */
    function Find(name: Name): Option<nat> {
      if name in names then Some(names[name])
      else if Fold(name) in folded then Some(folded[Fold(name)])
      else None
    }

    /** The name registered at `index`, whichever exchange it is on. */
    function NameOf(index: nat): Option<Name> {
      if index < |listings| then Some(listings[index].name) else None
    }

    /** The name this exchange knows `index` by, if it lists it. */
    function OwnNameOf(index: nat): Option<Name> {
      if index < |listings| && listings[index].exchange == exchange
      then Some(listings[index].name) else None
    }
  }

  /** The names `exchange` is given, each with the last index registered under it. */
  function CollectNames(listings: seq<Listing>, exchange: ExchangeId): map<Name, nat> {
    if listings == [] then map[]
    else
      var n := |listings| - 1;
      var rest := CollectNames(listings[..n], exchange);
      if listings[n].exchange == exchange then rest[listings[n].name := n] else rest
  }

  /** A set keeps the first of each listing, in order. */
  function Deduplicated(listings: seq<Listing>): seq<Listing> {
    if listings == [] then []
    else
      var n := |listings| - 1;
      var rest := Deduplicated(listings[..n]);
      if listings[n] in rest then rest else rest + [listings[n]]
  }

  /** `walk` visits each item of `names` once, in some order. */
  ghost predicate Walks(walk: seq<Named>, names: map<Name, nat>) {
    && (forall i :: 0 <= i < |walk| ==>
          walk[i].name in names && names[walk[i].name] == walk[i].index)
    && (forall i, j :: 0 <= i < j < |walk| ==> walk[i].name != walk[j].name)
    && (forall name :: name in names ==> Named(name, names[name]) in walk)
  }

  /** The directory of `exchange`, its names folded in the order `walk` visits them. */
  ghost function New(exchange: ExchangeId, listings: seq<Listing>, walk: seq<Named>): Directory
    requires Walks(walk, CollectNames(listings, exchange))
  {
    Directory(
      exchange, Deduplicated(listings), CollectNames(listings, exchange), Folded(walk))
  }

  /** No listing twice, as the builder of the indices leaves them. */
  ghost predicate NoDuplicates(listings: seq<Listing>) {
    forall i, j :: 0 <= i < j < |listings| ==> listings[i] != listings[j]
  }

  /** No two listings of one exchange have the same name. */
  ghost predicate UniqueNames(listings: seq<Listing>) {
    forall i, j :: 0 <= i < j < |listings| && listings[i].exchange == listings[j].exchange ==>
      listings[i].name != listings[j].name
  }

  /** No two listings of one exchange have names that differ only in case, if at all. */
  ghost predicate UniqueIgnoringCase(listings: seq<Listing>) {
    forall i, j :: 0 <= i < j < |listings| && listings[i].exchange == listings[j].exchange ==>
      Fold(listings[i].name) != Fold(listings[j].name)
  }

  lemma {:induction false} DeduplicatedIsAll(listings: seq<Listing>)
    requires NoDuplicates(listings)
    ensures Deduplicated(listings) == listings
  {
    if listings != [] {
      var n := |listings| - 1;
      DeduplicatedIsAll(listings[..n]);
      assert listings == listings[..n] + [listings[n]];
    }
  }

  /** A set holds each listing there is, once. */
  lemma {:induction false} DeduplicatedIsASet(listings: seq<Listing>)
    ensures NoDuplicates(Deduplicated(listings))
    ensures forall l :: l in Deduplicated(listings) <==> l in listings
  {
    if listings != [] {
      var n := |listings| - 1;
      DeduplicatedIsASet(listings[..n]);
      assert listings == listings[..n] + [listings[n]];
    }
  }

  /** A name is collected exactly when the exchange registers it, with the last index it does. */
  lemma {:induction false} CollectedNames(listings: seq<Listing>, exchange: ExchangeId, name: Name)
    ensures name in CollectNames(listings, exchange) <==>
            exists i :: 0 <= i < |listings|
              && listings[i].exchange == exchange && listings[i].name == name
    ensures name in CollectNames(listings, exchange) ==>
              var i := CollectNames(listings, exchange)[name];
              && i < |listings| && listings[i].exchange == exchange && listings[i].name == name
              && forall j :: i < j < |listings| ==>
                   !(listings[j].exchange == exchange && listings[j].name == name)
  {
    if listings != [] {
      var n := |listings| - 1;
      CollectedNames(listings[..n], exchange, name);
      assert listings[n] == listings[..n + 1][n];
    }
  }

  /** `name` is the one registered name that folds to `key`. */
  ghost predicate OnlyName(names: map<Name, nat>, key: Name, name: Name) {
    && name in names && Fold(name) == key
    && forall other :: other in names && Fold(other) == key ==> other == name
  }

  /** Whatever the walk, a key is folded exactly when one name alone folds to it, with its index. */
  lemma WalkFolds(walk: seq<Named>, names: map<Name, nat>, key: Name)
    requires Walks(walk, names)
    ensures key in Folded(walk) <==> exists name :: OnlyName(names, key, name)
    ensures forall name :: OnlyName(names, key, name) ==> Folded(walk)[key] == names[name]
  {
    if key in Folded(walk) {
      var i :| OnlyAt(walk, key, i);
      forall other | other in names && Fold(other) == key
        ensures other == walk[i].name
      {
        var j :| 0 <= j < |walk| && walk[j] == Named(other, names[other]);
        assert FoldsAt(walk, key, j);
      }
      assert OnlyName(names, key, walk[i].name);
    }
    forall name | OnlyName(names, key, name)
      ensures key in Folded(walk) && Folded(walk)[key] == names[name]
    {
      var i :| 0 <= i < |walk| && walk[i] == Named(name, names[name]);
      assert FoldsAt(walk, key, i);
      assert OnlyAt(walk, key, i);
    }
  }

  // ------------------------------------------------------------------------------ lookups

  /** `i` is where `exchange` last registers `name`, spelled just so. */
  ghost predicate Registers(listings: seq<Listing>, exchange: ExchangeId, name: Name, i: int) {
    && 0 <= i < |listings| && listings[i].exchange == exchange && listings[i].name == name
    && forall j :: i < j < |listings| ==>
         !(listings[j].exchange == exchange && listings[j].name == name)
  }

  /** `spelling` is the one spelling `exchange` registers that is `name` ignoring case. */
  ghost predicate OnlySpelling(
    listings: seq<Listing>, exchange: ExchangeId, name: Name, spelling: Name) {
    && Fold(spelling) == Fold(name)
    && (exists i :: Registers(listings, exchange, spelling, i))
    && forall other, i :: Registers(listings, exchange, other, i) && Fold(other) == Fold(name)
         ==> other == spelling
  }

  /**
   A name resolves to where the exchange last registers it as spelled and, failing that, to where it
   registers the only spelling that differs in case alone; to nothing if it registers none or several.
   */
  lemma FindResolves(
    exchange: ExchangeId, listings: seq<Listing>, walk: seq<Named>, name: Name, i: int)
    requires Walks(walk, CollectNames(listings, exchange))
    ensures New(exchange, listings, walk).Find(name) == Some(i)
            <==> || Registers(listings, exchange, name, i)
                 || (&& (forall j :: !Registers(listings, exchange, name, j))
                     && exists spelling :: OnlySpelling(listings, exchange, name, spelling)
                          && Registers(listings, exchange, spelling, i))
  {
    var names := CollectNames(listings, exchange);
    CollectedIsRegistered(exchange, listings, name);
    WalkFolds(walk, names, Fold(name));
    forall spelling
      ensures OnlySpelling(listings, exchange, name, spelling)
              <==> OnlyName(names, Fold(name), spelling)
      ensures spelling in names ==> Registers(listings, exchange, spelling, names[spelling])
      ensures forall j :: Registers(listings, exchange, spelling, j) ==>
                spelling in names && names[spelling] == j
    {
      OnlySpellingIsOnlyName(exchange, listings, name, spelling);
      CollectedIsRegistered(exchange, listings, spelling);
    }
  }

  lemma CollectedIsRegistered(exchange: ExchangeId, listings: seq<Listing>, name: Name)
    ensures var names := CollectNames(listings, exchange);
            && (name in names ==> Registers(listings, exchange, name, names[name]))
            && forall j :: Registers(listings, exchange, name, j) ==> name in names && names[name] == j
  {
    CollectedNames(listings, exchange, name);
  }

  lemma OnlySpellingIsOnlyName(
    exchange: ExchangeId, listings: seq<Listing>, name: Name, spelling: Name)
    ensures OnlySpelling(listings, exchange, name, spelling)
            <==> OnlyName(CollectNames(listings, exchange), Fold(name), spelling)
  {
    var names := CollectNames(listings, exchange);
    forall other
      ensures other in names ==> Registers(listings, exchange, other, names[other])
      ensures forall j :: Registers(listings, exchange, other, j) ==> other in names
    {
      CollectedIsRegistered(exchange, listings, other);
    }
  }

  /** A registered name resolves to its own index, and its index back to it. */
  lemma RegisteredNameResolves(
    exchange: ExchangeId, listings: seq<Listing>, walk: seq<Named>, i: nat)
    requires Walks(walk, CollectNames(listings, exchange))
    requires NoDuplicates(listings) && UniqueNames(listings)
    requires i < |listings| && listings[i].exchange == exchange
    ensures New(exchange, listings, walk).Find(listings[i].name) == Some(i)
    ensures New(exchange, listings, walk).OwnNameOf(i) == Some(listings[i].name)
  {
    assert Registers(listings, exchange, listings[i].name, i) by {
      forall j | i < j < |listings|
        ensures !(listings[j].exchange == exchange && listings[j].name == listings[i].name)
      {
      }
    }
    FindResolves(exchange, listings, walk, listings[i].name, i);
    DeduplicatedIsAll(listings);
  }

  /**
   Where no two of an exchange's names differ only in case, a name resolves exactly when one of them
   is it ignoring case, and to that one: two spellings that fold alike resolve alike.
   */
  lemma SpellingsResolveAlike(
    exchange: ExchangeId, listings: seq<Listing>, walk: seq<Named>, name: Name, i: int)
    requires Walks(walk, CollectNames(listings, exchange)) && UniqueIgnoringCase(listings)
    ensures New(exchange, listings, walk).Find(name) == Some(i)
            <==> 0 <= i < |listings| && listings[i].exchange == exchange
                 && Fold(listings[i].name) == Fold(name)
  {
    FindResolves(exchange, listings, walk, name, i);
    if 0 <= i < |listings| && listings[i].exchange == exchange
       && Fold(listings[i].name) == Fold(name)
    {
      forall j | 0 <= j < |listings| && listings[j].exchange == exchange
                 && Fold(listings[j].name) == Fold(name)
        ensures j == i
      {
      }
      assert Registers(listings, exchange, listings[i].name, i);
      if listings[i].name != name {
        assert OnlySpelling(listings, exchange, name, listings[i].name);
      }
    }
  }

  /**
   Whatever a name resolves to is this exchange's, under a name that folds alike, so going to the
   index and back can only change the case; no other exchange's listing is ever reached.
   */
  lemma ResolvingComesBack(
    exchange: ExchangeId, listings: seq<Listing>, walk: seq<Named>, name: Name)
    requires Walks(walk, CollectNames(listings, exchange)) && NoDuplicates(listings)
    ensures var d := New(exchange, listings, walk);
            d.Find(name).Some? ==>
              && d.Find(name).value < |listings|
              && listings[d.Find(name).value].exchange == exchange
              && d.OwnNameOf(d.Find(name).value) == d.NameOf(d.Find(name).value)
              && d.NameOf(d.Find(name).value).Some?
              && Fold(d.NameOf(d.Find(name).value).value) == Fold(name)
  {
    DeduplicatedIsAll(listings);
    var d := New(exchange, listings, walk);
    if d.Find(name).Some? {
      FindResolves(exchange, listings, walk, name, d.Find(name).value);
    }
  }

  /** An index has a name whichever exchange lists it, and a name of its own where this one does. */
  lemma NamesOfIndices(
    exchange: ExchangeId, listings: seq<Listing>, walk: seq<Named>, i: nat, name: Name)
    requires Walks(walk, CollectNames(listings, exchange)) && NoDuplicates(listings)
    ensures var d := New(exchange, listings, walk);
            && (d.NameOf(i) == Some(name) <==> i < |listings| && listings[i].name == name)
            && (d.OwnNameOf(i) == Some(name)
                <==> i < |listings| && listings[i].name == name && listings[i].exchange == exchange)
  {
    DeduplicatedIsAll(listings);
  }

  /** A directory does not depend on the order its names were folded in. */
  lemma DirectoryIgnoresOrder(
    exchange: ExchangeId, listings: seq<Listing>, walk: seq<Named>, other: seq<Named>)
    requires Walks(walk, CollectNames(listings, exchange))
    requires Walks(other, CollectNames(listings, exchange))
    ensures New(exchange, listings, walk) == New(exchange, listings, other)
  {
    FoldedIgnoresWalk(walk, other, CollectNames(listings, exchange));
  }

  lemma FoldedIgnoresWalk(walk: seq<Named>, other: seq<Named>, names: map<Name, nat>)
    requires Walks(walk, names) && Walks(other, names)
    ensures Folded(walk) == Folded(other)
  {
    forall key
      ensures key in Folded(walk) <==> key in Folded(other)
      ensures key in Folded(walk) ==> Folded(walk)[key] == Folded(other)[key]
    {
      WalkFolds(walk, names, key);
      WalkFolds(other, names, key);
      if name :| OnlyName(names, key, name) {
        assert Folded(walk)[key] == names[name] == Folded(other)[key];
      }
    }
  }
}
