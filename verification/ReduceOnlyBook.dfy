/**
 Which of an instrument's orders were sent reduce-only: the live ones, and the last 64 reduce-only
 ones that ended.
 */
module ReduceOnlyBook {
  import opened IndexMap
  import opened Wrappers

  type ClientOrderId = Key
  type OrderId = string

  datatype ReduceOnly = No | Position | PositionAndFreeBase {
    predicate IsReduceOnly() {
      !No?
    }
  }

  datatype SentOrder = SentOrder(reduceOnly: ReduceOnly, venueId: Option<OrderId>)

  type Orders = Entries<SentOrder>

  datatype Booked = Booked(cid: ClientOrderId, reduceOnly: ReduceOnly)

  const RETIRED_CAPACITY: nat := 64

  // ------------------------------------------------------------------------------ the book's state

  /** A book's live orders, its retired ones, and its cached count of live reduce-only orders. */
  datatype Book = Book(live: Orders, retired: Orders, liveReduceOnly: int) {

    ghost predicate Valid() {
      && Distinct(live) && Distinct(retired)
      && (forall k :: Has(live, k) ==> !Has(retired, k))
      && AllReduceOnly(retired)
      && |retired| <= 64
      && liveReduceOnly == CountReduceOnly(live)
    }
  }

  ghost predicate AllReduceOnly(orders: Orders) {
    forall e :: e in orders ==> e.value.reduceOnly != No
  }

  function Weight(order: SentOrder): nat {
    if order.reduceOnly.IsReduceOnly() then 1 else 0
  }

  function CountReduceOnly(orders: Orders): nat {
    if orders == [] then 0 else Weight(orders[0].value) + CountReduceOnly(orders[1..])
  }

  const EMPTY := Book([], [], 0)

  function Registered(b: Book, cid: ClientOrderId, reduceOnly: ReduceOnly): Book {
    var earlier := Get(b.live, cid);
    var order := SentOrder(reduceOnly, None);
    Book(
      Insert(Remove(b.live, cid), cid, order),
      Remove(b.retired, cid),
      b.liveReduceOnly - (if earlier.Some? then Weight(earlier.value) else 0) + Weight(order))
  }

  function WithVenueId(venueId: OrderId): SentOrder -> SentOrder {
    (order: SentOrder) => order.(venueId := Some(venueId))
  }

  function Acknowledged(b: Book, cid: ClientOrderId, venueId: OrderId): Book {
    if Has(b.live, cid) then b.(live := Update(b.live, cid, WithVenueId(venueId)))
    else b.(retired := Update(b.retired, cid, WithVenueId(venueId)))
  }

  function InsertRetired(retired: Orders, e: Entry<SentOrder>): Orders {
    var kept := if |retired| >= RETIRED_CAPACITY && !Has(retired, e.key) then retired[1..] else retired;
    Insert(kept, e.key, e.value)
  }

  function Retired(b: Book, cid: ClientOrderId): Book {
    match Get(b.live, cid)
    case None => b
    case Some(order) =>
      var live := Remove(b.live, cid);
      if order.reduceOnly.IsReduceOnly()
      then Book(live, InsertRetired(b.retired, Entry(cid, order)), b.liveReduceOnly - 1)
      else b.(live := live)
  }

  function IsTracked(tracked: ClientOrderId -> bool): Entry<SentOrder> -> bool {
    (e: Entry<SentOrder>) => tracked(e.key)
  }

  function IsEnded(tracked: ClientOrderId -> bool): Entry<SentOrder> -> bool {
    (e: Entry<SentOrder>) => !tracked(e.key) && e.value.reduceOnly.IsReduceOnly()
  }

  function InsertAll(retired: Orders, ended: Orders): Orders {
    if ended == [] then retired
    else InsertRetired(InsertAll(retired, ended[..|ended| - 1]), ended[|ended| - 1])
  }

  function RetiredUntracked(b: Book, tracked: ClientOrderId -> bool): Book {
    var ended := Filter(b.live, IsEnded(tracked));
    Book(Filter(b.live, IsTracked(tracked)), InsertAll(b.retired, ended), b.liveReduceOnly - |ended|)
  }

  function FindVenue(orders: Orders, venueId: OrderId): Option<Booked> {
    if orders == [] then None
    else if orders[0].value.venueId == Some(venueId)
    then Some(Booked(orders[0].key, orders[0].value.reduceOnly))
    else FindVenue(orders[1..], venueId)
  }

  /** The order a fill belongs to: by its client order id if it has one, else by its venue id. */
  function Lookup(b: Book, cid: Option<ClientOrderId>, venueId: OrderId): Option<Booked> {
    match cid
    case Some(id) =>
      var order := if Has(b.live, id) then Get(b.live, id) else Get(b.retired, id);
      if order.None? then None else Some(Booked(id, order.value.reduceOnly))
    case None =>
      var live := FindVenue(b.live, venueId);
      if live.Some? then live else FindVenue(b.retired, venueId)
  }

  /** What is serialised of a book, with its retired orders decoded. */
  datatype BookParts = BookParts(live: Orders, retired: Orders)

  /** Whether a retired order is one a book loaded beside `live` keeps, if it has room. */
  function IsLoadable(live: Orders): Entry<SentOrder> -> bool {
    (e: Entry<SentOrder>) => e.value.reduceOnly.IsReduceOnly() && !Has(live, e.key)
  }

  function FromParts(parts: BookParts): Book {
    var retired := Filter(parts.retired, IsLoadable(parts.live));
    var excess := if |retired| > RETIRED_CAPACITY then |retired| - RETIRED_CAPACITY else 0;
    Book(parts.live, retired[excess..], CountReduceOnly(parts.live))
  }

  // ------------------------------------------------------------------------------ counting

  lemma {:induction false} CountConcat(a: Orders, b: Orders)
    ensures CountReduceOnly(a + b) == CountReduceOnly(a) + CountReduceOnly(b)
  {
    if a == [] {
      assert a + b == b;
    } else {
      CountConcat(a[1..], b);
      assert (a + b)[1..] == a[1..] + b;
    }
  }

  lemma {:induction false} CountRemove(m: Orders, k: ClientOrderId)
    requires Distinct(m)
    ensures CountReduceOnly(m)
         == CountReduceOnly(Remove(m, k)) + if Has(m, k) then Weight(Get(m, k).value) else 0
  {
    if m != [] {
      if m[0].key == k {
        HasIs(m[1..], k);
        RemoveAbsent(m[1..], k);
      } else {
        CountRemove(m[1..], k);
      }
    }
  }

  /** The live reduce-only orders that ended are counted apart from those that did not. */
  lemma {:induction false} EndedIsCounted(live: Orders, tracked: ClientOrderId -> bool)
    ensures CountReduceOnly(live)
         == CountReduceOnly(Filter(live, IsTracked(tracked))) + |Filter(live, IsEnded(tracked))|
  {
    if live != [] {
      EndedIsCounted(live[1..], tracked);
    }
  }

  lemma {:induction false} CountIsPositive(m: Orders)
    ensures CountReduceOnly(m) > 0 <==> exists e :: e in m && e.value.reduceOnly != No
  {
    if m != [] {
      CountIsPositive(m[1..]);
      assert m == [m[0]] + m[1..];
    }
  }

  lemma {:induction false} CountUpdate(m: Orders, k: ClientOrderId, f: SentOrder -> SentOrder)
    requires forall o :: f(o).reduceOnly == o.reduceOnly
    ensures CountReduceOnly(Update(m, k, f)) == CountReduceOnly(m)
  {
    if m != [] {
      CountUpdate(m[1..], k, f);
      assert Update(m, k, f)[1..] == Update(m[1..], k, f);
    }
  }

  // ------------------------------------------------------------------------------ lookups

  /** Whether a fill with these ids is `e`'s: by client order id if it has one, else by venue id. */
  predicate Matches(e: Entry<SentOrder>, cid: Option<ClientOrderId>, venueId: OrderId) {
    if cid.Some? then e.key == cid.value else e.value.venueId == Some(venueId)
  }

  /** `found` is the first order that matches, or nothing where none does. */
  ghost predicate IsFirstMatch(
    orders: Orders, cid: Option<ClientOrderId>, venueId: OrderId, found: Option<Booked>)
  {
    match found
    case None => forall i :: 0 <= i < |orders| ==> !Matches(orders[i], cid, venueId)
    case Some(booked) =>
      exists i :: 0 <= i < |orders|
        && Matches(orders[i], cid, venueId)
        && booked == Booked(orders[i].key, orders[i].value.reduceOnly)
        && forall j :: 0 <= j < i ==> !Matches(orders[j], cid, venueId)
  }

  lemma {:induction false} GetIsFirstMatch(orders: Orders, cid: ClientOrderId, venueId: OrderId)
    ensures var order := Get(orders, cid);
            IsFirstMatch(orders, Some(cid), venueId,
                         if order.None? then None else Some(Booked(cid, order.value.reduceOnly)))
  {
    if orders != [] && orders[0].key != cid {
      GetIsFirstMatch(orders[1..], cid, venueId);
      var order := Get(orders, cid);
      MatchAfter([orders[0]], orders[1..], Some(cid), venueId,
                 if order.None? then None else Some(Booked(cid, order.value.reduceOnly)));
      assert [orders[0]] + orders[1..] == orders;
    }
  }

  lemma {:induction false} FindVenueIsFirstMatch(orders: Orders, venueId: OrderId)
    ensures IsFirstMatch(orders, None, venueId, FindVenue(orders, venueId))
  {
    if orders != [] && orders[0].value.venueId != Some(venueId) {
      FindVenueIsFirstMatch(orders[1..], venueId);
      MatchAfter([orders[0]], orders[1..], None, venueId, FindVenue(orders[1..], venueId));
      assert [orders[0]] + orders[1..] == orders;
    }
  }

  /** Orders that do not match, put first, change no answer. */
  lemma MatchAfter(
    before: Orders, orders: Orders, cid: Option<ClientOrderId>, venueId: OrderId,
    found: Option<Booked>)
    requires IsFirstMatch(before, cid, venueId, None)
    requires IsFirstMatch(orders, cid, venueId, found)
    ensures IsFirstMatch(before + orders, cid, venueId, found)
  {
    if found.Some? {
      var i :| 0 <= i < |orders|
               && Matches(orders[i], cid, venueId)
               && found.value == Booked(orders[i].key, orders[i].value.reduceOnly)
               && forall j :: 0 <= j < i ==> !Matches(orders[j], cid, venueId);
      var n := |before| + i;
      assert (before + orders)[n] == orders[i];
      forall j | 0 <= j < n
        ensures !Matches((before + orders)[j], cid, venueId)
      {
        assert (before + orders)[j] == if j < |before| then before[j] else orders[j - |before|];
      }
    }
  }

  /** Orders put last change no answer that is one. */
  lemma MatchBefore(
    orders: Orders, after: Orders, cid: Option<ClientOrderId>, venueId: OrderId,
    found: Option<Booked>)
    requires found.Some? && IsFirstMatch(orders, cid, venueId, found)
    ensures IsFirstMatch(orders + after, cid, venueId, found)
  {
    var i :| 0 <= i < |orders|
             && Matches(orders[i], cid, venueId)
             && found.value == Booked(orders[i].key, orders[i].value.reduceOnly)
             && forall j :: 0 <= j < i ==> !Matches(orders[j], cid, venueId);
    assert (orders + after)[i] == orders[i];
    assert forall j :: 0 <= j < i ==> (orders + after)[j] == orders[j];
  }

  /** A lookup finds the first matching order, the live ones before the retired; nothing if none. */
  lemma LookupFindsTheFirst(b: Book, cid: Option<ClientOrderId>, venueId: OrderId)
    ensures IsFirstMatch(b.live + b.retired, cid, venueId, Lookup(b, cid, venueId))
  {
    var found := Lookup(b, cid, venueId);
    if cid.Some? {
      GetIsFirstMatch(b.live, cid.value, venueId);
      GetIsFirstMatch(b.retired, cid.value, venueId);
      if Has(b.live, cid.value) {
        MatchBefore(b.live, b.retired, cid, venueId, found);
      } else {
        MatchAfter(b.live, b.retired, cid, venueId, found);
      }
    } else {
      FindVenueIsFirstMatch(b.live, venueId);
      FindVenueIsFirstMatch(b.retired, venueId);
      if FindVenue(b.live, venueId).Some? {
        MatchBefore(b.live, b.retired, cid, venueId, found);
      } else {
        MatchAfter(b.live, b.retired, cid, venueId, found);
      }
    }
  }

  /** Whatever a lookup finds is an order the book holds, and a client order id finds its own. */
  lemma LookupFindsHeld(b: Book, cid: Option<ClientOrderId>, venueId: OrderId)
    ensures var found := Lookup(b, cid, venueId);
            found.Some? ==>
              exists e :: e in b.live + b.retired
                && found.value == Booked(e.key, e.value.reduceOnly)
                && Matches(e, cid, venueId)
  {
    LookupFindsTheFirst(b, cid, venueId);
    if Lookup(b, cid, venueId).Some? {
      var orders := b.live + b.retired;
      var i :| 0 <= i < |orders|
               && Matches(orders[i], cid, venueId)
               && Lookup(b, cid, venueId).value == Booked(orders[i].key, orders[i].value.reduceOnly);
      assert orders[i] in orders;
    }
  }

  /** The constant-time answer is exact: true if and only if some lookup finds a reduce-only order. */
  lemma HasReduceOnlyIsExact(b: Book)
    requires b.Valid()
    ensures (b.liveReduceOnly > 0 || b.retired != []) <==>
            exists cid, venueId ::
              Lookup(b, cid, venueId).Some? && Lookup(b, cid, venueId).value.reduceOnly != No
  {
    CountIsPositive(b.live);
    if exists e :: e in b.live && e.value.reduceOnly != No {
      var i :| 0 <= i < |b.live| && b.live[i].value.reduceOnly != No;
      GetIs(b.live, i);
      assert Lookup(b, Some(b.live[i].key), "").value.reduceOnly != No;
    } else if b.retired != [] {
      var e := b.retired[0];
      GetIs(b.retired, 0);
      assert Lookup(b, Some(e.key), "").value.reduceOnly != No;
    }
    forall cid, venueId | Lookup(b, cid, venueId).Some?
      ensures Lookup(b, cid, venueId).value.reduceOnly != No
              ==> b.liveReduceOnly > 0 || b.retired != []
    {
      LookupFindsHeld(b, cid, venueId);
    }
  }

  // ------------------------------------------------------------------------------ the class

  class ReduceOnlyBook {
    var live: Orders
    var retired: Orders
    var liveReduceOnly: nat

    function State(): Book
      reads this
    {
      Book(live, retired, liveReduceOnly)
    }

    constructor ()
      ensures State() == EMPTY
    {
      live, retired, liveReduceOnly := [], [], 0;
    }

    /** Loads a book from its parts. */
    constructor From(parts: BookParts)
      ensures State() == FromParts(parts)
    {
      var loaded := Filter(parts.retired, IsLoadable(parts.live));
      var excess := if |loaded| > RETIRED_CAPACITY then |loaded| - RETIRED_CAPACITY else 0;
      live, retired := parts.live, loaded[excess..];
      liveReduceOnly := CountReduceOnly(parts.live);
    }

    method Register(cid: ClientOrderId, reduceOnly: ReduceOnly)
      requires State().Valid()
      modifies this
      ensures State() == Registered(old(State()), cid, reduceOnly)
    {
      CountRemove(live, cid);
      retired := Remove(retired, cid);
      var earlier := Get(live, cid);
      if earlier.Some? {
        live := Remove(live, cid);
        liveReduceOnly := liveReduceOnly - Weight(earlier.value);
      } else {
        RemoveAbsent(live, cid);
      }
      liveReduceOnly := liveReduceOnly + Weight(SentOrder(reduceOnly, None));
      live := Insert(live, cid, SentOrder(reduceOnly, None));
    }

    method Acknowledge(cid: ClientOrderId, venueId: OrderId)
      modifies this
      ensures State() == Acknowledged(old(State()), cid, venueId)
    {
      if Has(live, cid) {
        live := Update(live, cid, WithVenueId(venueId));
      } else {
        retired := Update(retired, cid, WithVenueId(venueId));
      }
    }

    method Retire(cid: ClientOrderId)
      requires State().Valid()
      modifies this
      ensures State() == Retired(old(State()), cid)
    {
      CountRemove(live, cid);
      var order := Get(live, cid);
      if order.Some? {
        live := Remove(live, cid);
        if order.value.reduceOnly.IsReduceOnly() {
          liveReduceOnly := liveReduceOnly - 1;
          AddRetired(Entry(cid, order.value));
        }
      }
    }

    method AddRetired(e: Entry<SentOrder>)
      modifies this`retired
      ensures retired == InsertRetired(old(retired), e)
    {
      if |retired| >= RETIRED_CAPACITY && !Has(retired, e.key) {
        retired := retired[1..];
      }
      retired := Insert(retired, e.key, e.value);
    }

    /** One pass over the live orders, then the insertions. */
    method RetireUntracked(tracked: ClientOrderId -> bool)
      requires State().Valid()
      modifies this
      ensures State() == RetiredUntracked(old(State()), tracked)
    {
      var kept, ended: Orders := [], [];
      for i := 0 to |live|
        invariant unchanged(this)
        invariant kept == Filter(live[..i], IsTracked(tracked))
        invariant ended == Filter(live[..i], IsEnded(tracked))
      {
        FilterConcat(live[..i], [live[i]], IsTracked(tracked));
        FilterConcat(live[..i], [live[i]], IsEnded(tracked));
        assert live[..i + 1] == live[..i] + [live[i]];
        if tracked(live[i].key) {
          kept := kept + [live[i]];
        } else if live[i].value.reduceOnly.IsReduceOnly() {
          ended := ended + [live[i]];
        }
      }
      assert live[..|live|] == live;
      EndedIsCounted(live, tracked);
      live := kept;
      liveReduceOnly := liveReduceOnly - |ended|;
      for i := 0 to |ended|
        invariant live == kept && liveReduceOnly == old(liveReduceOnly) - |ended|
        invariant retired == InsertAll(old(retired), ended[..i])
      {
        assert ended[..i + 1][..i] == ended[..i];
        AddRetired(ended[i]);
      }
      assert ended[..|ended|] == ended;
    }

    method Clear()
      modifies this
      ensures State() == EMPTY
    {
      live, retired, liveReduceOnly := [], [], 0;
    }

    /** The first order that the ids match: a live one if there is one, else a retired one. */
    method LookupIds(cid: Option<ClientOrderId>, venueId: OrderId) returns (r: Option<Booked>)
      ensures IsFirstMatch(live + retired, cid, venueId, r)
    {
      r := Lookup(State(), cid, venueId);
      LookupFindsTheFirst(State(), cid, venueId);
    }

    method HasReduceOnly() returns (r: bool)
      requires State().Valid()
      ensures r <==> exists cid, venueId ::
                       && Lookup(State(), cid, venueId).Some?
                       && Lookup(State(), cid, venueId).value.reduceOnly != No
    {
      r := liveReduceOnly > 0 || retired != [];
      HasReduceOnlyIsExact(State());
    }
  }
}
