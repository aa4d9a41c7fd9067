/**
 Replacing the exchange, asset and instrument names in an account event with this program's indices,
 telling a balance of an unregistered asset apart from an event that is lost.
 */
module Indexer {
  import opened NameMap
  import opened Wrappers

  // ------------------------------------------------------------------------------ events

  // Each is generic over what names an exchange, an asset and an instrument. Fields no lookup reads
  // are carried as one opaque string.

  datatype Balance<A> = Balance(asset: A, details: string)

  datatype Order<E, I> = Order(exchange: E, instrument: I, details: string)

  datatype Isolated<A> = Isolated(base: Balance<A>, quote: Balance<A>, risk: string)

  datatype InstrumentSnapshot<E, A, I> = InstrumentSnapshot(
    instrument: I,
    orders: seq<Order<E, I>>,
    ordersComplete: bool,
    position: string,
    isolated: Option<Isolated<A>>)

  datatype AccountSnapshot<E, A, I> = AccountSnapshot(
    exchange: E,
    balances: seq<Balance<A>>,
    instruments: seq<InstrumentSnapshot<E, A, I>>)

  datatype Trade<A, I> = Trade(
    instrument: I, price: real, feeAsset: A, fees: real, feesQuote: Option<real>, details: string)

  datatype Kind<E, A, I> =
    | Snapshot(snapshot: AccountSnapshot<E, A, I>)
    | BalanceSnapshot(balance: Balance<A>)
    | BalanceStreamUpdate(balance: Balance<A>)
    | InstrumentBalanceUpdate(pair: I, balance: Balance<A>)
    | InstrumentBalanceSnapshot(pair: I, balance: Balance<A>)
    | OrderSnapshot(order: Order<E, I>)
    | OrderCancelled(order: Order<E, I>)
    | TradeDone(trade: Trade<A, I>)
    | TradeAmended(amended: I, replacement: Option<Trade<A, I>>, details: string)
    | FillRecoveryGaveUp(gap: Option<seq<I>>, details: string)
    | CashFlow(flowAsset: A, about: Option<I>, details: string)
    | MarginDebt(flowAsset: A, about: Option<I>, details: string)
    | Notice(about: Option<I>, details: string)
    | Verbatim(details: string)

  datatype Event<E, A, I> = Event(exchange: E, kind: Kind<E, A, I>)

  datatype IndexError =
    | ExchangeUnknown(exchange: ExchangeId)
    | AssetUnknown(asset: Name)
    | InstrumentUnknown(instrument: Name)

  datatype AccountIndexError = UntrackedBalance(asset: Name) | Rejected(error: IndexError)

  type Outcome<T> = Result<T, IndexError>

  type Reported = AccountSnapshot<ExchangeId, Name, Name>
  type Indexed = AccountSnapshot<nat, nat, nat>

  datatype Partitioned = Partitioned(snapshot: Indexed, untracked: seq<Name>)

  // ------------------------------------------------------------------------------ lookups

  /** One exchange's map: its index, its directories, and each instrument's base and quote asset. */
  datatype ExecutionMap = ExecutionMap(
    id: ExchangeId,
    index: nat,
    assets: Directory,
    instruments: Directory,
    underlying: nat -> (nat, nat))
  {
    function FindExchange(exchange: ExchangeId): Outcome<nat> {
      if exchange == id then Ok(index) else Err(ExchangeUnknown(exchange))
    }

    function FindAsset(name: Name): Outcome<nat> {
      match assets.Find(name)
      case Some(i) => Ok(i)
      case None => Err(AssetUnknown(name))
    }

    function FindInstrument(name: Name): Outcome<nat> {
      match instruments.Find(name)
      case Some(i) => Ok(i)
      case None => Err(InstrumentUnknown(name))
    }
  }

  /** A fee in the base asset, at the price of the trade. */
  function InQuote(fees: real, price: real): real {
    fees * price
  }

  /** Every result, or the first error. */
  function MapAll<T, U>(f: T -> Outcome<U>, xs: seq<T>): Outcome<seq<U>> {
    if xs == [] then Ok([])
    else
      var y :- f(xs[0]);
      var ys :- MapAll(f, xs[1..]);
      Ok([y] + ys)
  }

  /** The result of the value, if there is one. */
  function Transpose<T, U>(f: T -> Outcome<U>, x: Option<T>): Outcome<Option<U>> {
    match x
    case None => Ok(None)
    case Some(v) => var y :- f(v); Ok(Some(y))
  }

  // ------------------------------------------------------------------------------ indexing

  datatype AccountEventIndexer = AccountEventIndexer(map_: ExecutionMap) {

    function AssetBalance(b: Balance<Name>): Outcome<Balance<nat>> {
      var asset :- map_.FindAsset(b.asset);
      Ok(Balance(asset, b.details))
    }

    function OrderOf(o: Order<ExchangeId, Name>): Outcome<Order<nat, nat>> {
      var exchange :- map_.FindExchange(o.exchange);
      var instrument :- map_.FindInstrument(o.instrument);
      Ok(Order(exchange, instrument, o.details))
    }

    function IsolatedOf(s: Isolated<Name>): Outcome<Isolated<nat>> {
      var base :- AssetBalance(s.base);
      var quote :- AssetBalance(s.quote);
      Ok(Isolated(base, quote, s.risk))
    }

    function InstrumentOf(s: InstrumentSnapshot<ExchangeId, Name, Name>)
      : Outcome<InstrumentSnapshot<nat, nat, nat>>
    {
      var instrument :- map_.FindInstrument(s.instrument);
      var orders :- MapAll(o => OrderOf(o), s.orders);
      var isolated :- Transpose(i => IsolatedOf(i), s.isolated);
      Ok(InstrumentSnapshot(instrument, orders, s.ordersComplete, s.position, isolated))
    }

    predicate Tracks(asset: Name) {
      map_.FindAsset(asset).Ok?
    }

    /** The balances of registered assets, in order. */
    function TrackedBalances(balances: seq<Balance<Name>>): seq<Balance<nat>> {
      if balances == [] then []
      else
        var n := |balances| - 1;
        TrackedBalances(balances[..n])
        + match map_.FindAsset(balances[n].asset)
          case Ok(i) => [Balance(i, balances[n].details)]
          case Err(_) => []
    }

    /** The assets of the other balances, in order. */
    function UntrackedAssets(balances: seq<Balance<Name>>): seq<Name> {
      if balances == [] then []
      else
        var n := |balances| - 1;
        UntrackedAssets(balances[..n])
        + if Tracks(balances[n].asset) then [] else [balances[n].asset]
    }

    function Partition(s: Reported): Outcome<Partitioned> {
      var exchange :- map_.FindExchange(s.exchange);
      var instruments :- MapAll(i => InstrumentOf(i), s.instruments);
      Ok(Partitioned(AccountSnapshot(exchange, TrackedBalances(s.balances), instruments),
                     UntrackedAssets(s.balances)))
    }

    /** The program's loop, pushing each balance onto one list or the other. */
    method SnapshotPartitioned(s: Reported) returns (r: Outcome<Partitioned>)
      ensures r == Partition(s)
    {
      var exchange := map_.FindExchange(s.exchange);
      if exchange.Err? {
        return Err(exchange.error);
      }
      var untracked: seq<Name> := [];
      var indexed: seq<Balance<nat>> := [];
      for i := 0 to |s.balances|
        invariant indexed == TrackedBalances(s.balances[..i])
        invariant untracked == UntrackedAssets(s.balances[..i])
      {
        assert s.balances[..i + 1][..i] == s.balances[..i];
        match map_.FindAsset(s.balances[i].asset) {
          case Ok(asset) => indexed := indexed + [Balance(asset, s.balances[i].details)];
          case Err(_) => untracked := untracked + [s.balances[i].asset];
        }
      }
      assert s.balances[..|s.balances|] == s.balances;
      var instruments := MapAll(i => InstrumentOf(i), s.instruments);
      if instruments.Err? {
        return Err(instruments.error);
      }
      return Ok(Partitioned(AccountSnapshot(exchange.value, indexed, instruments.value), untracked));
    }

    /** The strict form: any balance left out fails it. */
    function SnapshotOf(s: Reported): Outcome<Indexed> {
      var p :- Partition(s);
      if p.untracked == [] then Ok(p.snapshot)
      else
        match map_.FindAsset(p.untracked[0])
        case Err(e) => Err(e)
        case Ok(_) => Err(AssetUnknown(p.untracked[0]))
    }

    /** A trade whose fee asset is not registered is kept, its fee zeroed. */
    function TradeOf(t: Trade<Name, Name>): Outcome<Trade<nat, nat>> {
      var i :- map_.FindInstrument(t.instrument);
      if i >= |map_.instruments.listings| then Err(InstrumentUnknown(t.instrument))
      else
        var (base, quote) := map_.underlying(i);
        match map_.FindAsset(t.feeAsset)
        case Ok(fee) =>
          var inQuote := if fee == quote then Some(t.fees)
                         else if fee == base then Some(InQuote(t.fees, t.price))
                         else None;
          Ok(Trade(i, t.price, fee, t.fees, inQuote, t.details))
        case Err(_) => Ok(Trade(i, t.price, quote, 0.0, None, t.details))
    }

    function KindOf(k: Kind<ExchangeId, Name, Name>): Outcome<Kind<nat, nat, nat>> {
      match k
      case Snapshot(s) => var x :- SnapshotOf(s); Ok(Snapshot(x))
      case BalanceSnapshot(b) => var x :- AssetBalance(b); Ok(BalanceSnapshot(x))
      case BalanceStreamUpdate(b) => var x :- AssetBalance(b); Ok(BalanceStreamUpdate(x))
      case InstrumentBalanceUpdate(p, b) =>
        var i :- map_.FindInstrument(p);
        var x :- AssetBalance(b);
        Ok(InstrumentBalanceUpdate(i, x))
      case InstrumentBalanceSnapshot(p, b) =>
        var i :- map_.FindInstrument(p);
        var x :- AssetBalance(b);
        Ok(InstrumentBalanceSnapshot(i, x))
      case OrderSnapshot(o) => var x :- OrderOf(o); Ok(OrderSnapshot(x))
      case OrderCancelled(o) => var x :- OrderOf(o); Ok(OrderCancelled(x))
      case TradeDone(t) => var x :- TradeOf(t); Ok(TradeDone(x))
      case TradeAmended(p, t, d) =>
        var i :- map_.FindInstrument(p);
        var x :- Transpose(r => TradeOf(r), t);
        Ok(TradeAmended(i, x, d))
      case FillRecoveryGaveUp(g, d) =>
        var x :- Transpose(names => MapAll(n => map_.FindInstrument(n), names), g);
        Ok(FillRecoveryGaveUp(x, d))
      case CashFlow(a, p, d) =>
        var x :- map_.FindAsset(a);
        var i :- Transpose(n => map_.FindInstrument(n), p);
        Ok(CashFlow(x, i, d))
      case MarginDebt(a, p, d) =>
        var x :- map_.FindAsset(a);
        var i :- Transpose(n => map_.FindInstrument(n), p);
        Ok(MarginDebt(x, i, d))
      case Notice(p, d) =>
        Ok(Notice(if p.None? then None else map_.instruments.Find(p.value), d))
      case Verbatim(d) => Ok(Verbatim(d))
    }

    function AccountEvent(e: Event<ExchangeId, Name, Name>): Outcome<Event<nat, nat, nat>> {
      var exchange :- map_.FindExchange(e.exchange);
      var kind :- KindOf(e.kind);
      Ok(Event(exchange, kind))
    }

    function IndexAccountEvent(e: Event<ExchangeId, Name, Name>)
      : Result<Event<nat, nat, nat>, AccountIndexError>
    {
      var balanceAsset :=
        if e.kind.BalanceSnapshot? || e.kind.BalanceStreamUpdate? then Some(e.kind.balance.asset)
        else None;
      match AccountEvent(e)
      case Ok(x) => Ok(x)
      case Err(error) =>
        if error.AssetUnknown? && balanceAsset.Some? then Err(UntrackedBalance(balanceAsset.value))
        else Err(Rejected(error))
    }
  }

  // ------------------------------------------------------------------------------ the partition

  /** How many of `balances` are of registered assets. */
  function Tracked(ix: AccountEventIndexer, balances: seq<Balance<Name>>): (r: nat)
    ensures r <= |balances|
  {
    if balances == [] then 0
    else
      var n := |balances| - 1;
      Tracked(ix, balances[..n]) + if ix.Tracks(balances[n].asset) then 1 else 0
  }

  lemma {:induction false} PartitionSizes(ix: AccountEventIndexer, balances: seq<Balance<Name>>)
    ensures |ix.TrackedBalances(balances)| == Tracked(ix, balances) <= |balances|
    ensures |ix.UntrackedAssets(balances)| == |balances| - Tracked(ix, balances)
  {
    if balances != [] {
      PartitionSizes(ix, balances[..|balances| - 1]);
    }
  }

  /**
   Each reported balance is in exactly one list, in the place the order it was reported in gives it,
   and the two lists hold nothing else.
   */
  lemma {:induction false} EachBalanceIsInOneList(
    ix: AccountEventIndexer, balances: seq<Balance<Name>>, i: nat)
    requires i < |balances|
    ensures |ix.TrackedBalances(balances)| + |ix.UntrackedAssets(balances)| == |balances|
    ensures var place, b := Tracked(ix, balances[..i]), balances[i];
            if ix.Tracks(b.asset)
            then place < |ix.TrackedBalances(balances)|
                 && ix.TrackedBalances(balances)[place]
                    == Balance(ix.map_.FindAsset(b.asset).value, b.details)
            else i - place < |ix.UntrackedAssets(balances)|
                 && ix.UntrackedAssets(balances)[i - place] == b.asset
  {
    PartitionSizes(ix, balances);
    var n := |balances| - 1;
    if i < n {
      EachBalanceIsInOneList(ix, balances[..n], i);
      assert balances[..n][..i] == balances[..i] && balances[..n][i] == balances[i];
    } else {
      PartitionSizes(ix, balances[..n]);
    }
  }

  lemma {:induction false} UntrackedAreUnknown(
    ix: AccountEventIndexer, balances: seq<Balance<Name>>, k: nat)
    requires k < |ix.UntrackedAssets(balances)|
    ensures ix.map_.FindAsset(ix.UntrackedAssets(balances)[k])
         == Err(AssetUnknown(ix.UntrackedAssets(balances)[k]))
  {
    var n := |balances| - 1;
    if k < |ix.UntrackedAssets(balances[..n])| {
      UntrackedAreUnknown(ix, balances[..n], k);
    }
  }

  /** The strict form succeeds exactly when nothing is left out, and then with the same snapshot. */
  lemma StrictIsNothingUntracked(ix: AccountEventIndexer, s: Reported)
    ensures ix.SnapshotOf(s).Ok? <==> ix.Partition(s).Ok? && ix.Partition(s).value.untracked == []
    ensures ix.SnapshotOf(s).Ok? ==> ix.SnapshotOf(s).value == ix.Partition(s).value.snapshot
    ensures ix.SnapshotOf(s).Ok? ==> |ix.SnapshotOf(s).value.balances| == |s.balances|
    ensures ix.SnapshotOf(s).Err? ==>
              ix.SnapshotOf(s).error == if ix.Partition(s).Err? then ix.Partition(s).error
                                        else AssetUnknown(ix.Partition(s).value.untracked[0])
  {
    PartitionSizes(ix, s.balances);
    if ix.Partition(s).Ok? && ix.Partition(s).value.untracked != [] {
      UntrackedAreUnknown(ix, s.balances, 0);
    }
  }

  /** Skipping balances hides no other failure: the rest of a snapshot fails just as it would alone. */
  lemma SkippingHidesNothing(ix: AccountEventIndexer, s: Reported)
    ensures ix.Partition(s).Err? <==> ix.Partition(s.(balances := [])).Err?
    ensures ix.Partition(s).Err? ==>
              && ix.Partition(s).error == ix.Partition(s.(balances := [])).error
              && ix.SnapshotOf(s) == Err(ix.Partition(s).error)
  {
  }

  // ------------------------------------------------------------------------------ what an event needs

  datatype Key = ExchangeKey(exchange: ExchangeId) | AssetKey(asset: Name) | InstrumentKey(name: Name)

  /** The error of a key that is not registered. */
  function Miss(ix: AccountEventIndexer, key: Key): Option<IndexError> {
    match key
    case ExchangeKey(x) => if x == ix.map_.id then None else Some(ExchangeUnknown(x))
    case AssetKey(x) => if ix.map_.assets.Find(x).Some? then None else Some(AssetUnknown(x))
    case InstrumentKey(x) =>
      if ix.map_.instruments.Find(x).Some? then None else Some(InstrumentUnknown(x))
  }

  function Failure<T>(r: Outcome<T>): Option<IndexError> {
    if r.Ok? then None else Some(r.error)
  }

  /** The first of `keys` that is not registered. */
  function FirstMiss(ix: AccountEventIndexer, keys: seq<Key>): Option<IndexError> {
    if keys == [] then None
    else if Miss(ix, keys[0]).Some? then Miss(ix, keys[0])
    else FirstMiss(ix, keys[1..])
  }

  lemma {:induction false} FirstMissConcat(ix: AccountEventIndexer, a: seq<Key>, b: seq<Key>)
    ensures FirstMiss(ix, a + b) == if FirstMiss(ix, a).Some? then FirstMiss(ix, a)
                                    else FirstMiss(ix, b)
  {
    if a == [] {
      assert a + b == b;
    } else {
      FirstMissConcat(ix, a[1..], b);
      assert (a + b)[1..] == a[1..] + b;
    }
  }

  function Each<T>(needs: T -> seq<Key>, xs: seq<T>): seq<Key> {
    if xs == [] then [] else needs(xs[0]) + Each(needs, xs[1..])
  }

  function OrderNeeds(o: Order<ExchangeId, Name>): seq<Key> {
    [ExchangeKey(o.exchange), InstrumentKey(o.instrument)]
  }

  function InstrumentNeeds(s: InstrumentSnapshot<ExchangeId, Name, Name>): seq<Key> {
    [InstrumentKey(s.instrument)]
    + Each(o => OrderNeeds(o), s.orders)
    + if s.isolated.None? then []
      else [AssetKey(s.isolated.value.base.asset), AssetKey(s.isolated.value.quote.asset)]
  }

  /** A snapshot's top-level balances are looked up last, whatever order they were reported in. */
  function SnapshotNeeds(s: Reported): seq<Key> {
    [ExchangeKey(s.exchange)]
    + Each(i => InstrumentNeeds(i), s.instruments)
    + Each((b: Balance<Name>) => [AssetKey(b.asset)], s.balances)
  }

  function About(p: Option<Name>): seq<Key> {
    if p.None? then [] else [InstrumentKey(p.value)]
  }

  /** Every name that must be registered for an event to be indexed, in the order they are read. */
  function KindNeeds(k: Kind<ExchangeId, Name, Name>): seq<Key> {
    match k
    case Snapshot(s) => SnapshotNeeds(s)
    case BalanceSnapshot(b) => [AssetKey(b.asset)]
    case BalanceStreamUpdate(b) => [AssetKey(b.asset)]
    case InstrumentBalanceUpdate(p, b) => [InstrumentKey(p), AssetKey(b.asset)]
    case InstrumentBalanceSnapshot(p, b) => [InstrumentKey(p), AssetKey(b.asset)]
    case OrderSnapshot(o) => OrderNeeds(o)
    case OrderCancelled(o) => OrderNeeds(o)
    case TradeDone(t) => [InstrumentKey(t.instrument)]
    case TradeAmended(p, t, _) =>
      [InstrumentKey(p)] + if t.None? then [] else [InstrumentKey(t.value.instrument)]
    case FillRecoveryGaveUp(g, _) =>
      if g.None? then [] else Each((n: Name) => [InstrumentKey(n)], g.value)
    case CashFlow(a, p, _) => [AssetKey(a)] + About(p)
    case MarginDebt(a, p, _) => [AssetKey(a)] + About(p)
    case Notice(_, _) => []
    case Verbatim(_) => []
  }

  /** What a directory resolves a name to is always one of its listings. */
  ghost predicate InRange(d: Directory) {
    forall name :: d.Find(name).Some? ==> d.Find(name).value < |d.listings|
  }

  lemma {:induction false} MapAllMisses<T, U>(
    ix: AccountEventIndexer, f: T -> Outcome<U>, needs: T -> seq<Key>, xs: seq<T>)
    requires forall x :: x in xs ==> Failure(f(x)) == FirstMiss(ix, needs(x))
    ensures Failure(MapAll(f, xs)) == FirstMiss(ix, Each(needs, xs))
  {
    if xs != [] {
      MapAllMisses(ix, f, needs, xs[1..]);
      FirstMissConcat(ix, needs(xs[0]), Each(needs, xs[1..]));
    }
  }

  lemma TwoMisses(ix: AccountEventIndexer, a: Key, b: Key)
    ensures FirstMiss(ix, [a]) == Miss(ix, a)
    ensures FirstMiss(ix, [a, b]) == if Miss(ix, a).Some? then Miss(ix, a) else Miss(ix, b)
  {
    assert [a, b][1..] == [b];
    assert FirstMiss(ix, [b]) == Miss(ix, b) by {
      assert [b][1..] == [];
    }
    assert [a][1..] == [];
  }

  lemma InstrumentMisses(ix: AccountEventIndexer, s: InstrumentSnapshot<ExchangeId, Name, Name>)
    ensures Failure(ix.InstrumentOf(s)) == FirstMiss(ix, InstrumentNeeds(s))
  {
    var key := InstrumentKey(s.instrument);
    forall o | o in s.orders
      ensures Failure(ix.OrderOf(o)) == FirstMiss(ix, OrderNeeds(o))
    {
      TwoMisses(ix, ExchangeKey(o.exchange), InstrumentKey(o.instrument));
    }
    MapAllMisses(ix, o => ix.OrderOf(o), o => OrderNeeds(o), s.orders);
    TwoMisses(ix, key, key);
    FirstMissConcat(ix, [key], Each(o => OrderNeeds(o), s.orders));
    var isolated := if s.isolated.None? then [] else
      [AssetKey(s.isolated.value.base.asset), AssetKey(s.isolated.value.quote.asset)];
    FirstMissConcat(ix, [key] + Each(o => OrderNeeds(o), s.orders), isolated);
    if s.isolated.Some? {
      TwoMisses(ix, isolated[0], isolated[1]);
    }
  }

  lemma {:induction false} BalancesMiss(ix: AccountEventIndexer, balances: seq<Balance<Name>>)
    ensures FirstMiss(ix, Each((b: Balance<Name>) => [AssetKey(b.asset)], balances))
         == if ix.UntrackedAssets(balances) == [] then None
            else Some(AssetUnknown(ix.UntrackedAssets(balances)[0]))
  {
    var needs := (b: Balance<Name>) => [AssetKey(b.asset)];
    if balances != [] {
      var n := |balances| - 1;
      BalancesMiss(ix, balances[..n]);
      EachConcat(needs, balances[..n], [balances[n]]);
      assert balances == balances[..n] + [balances[n]];
      FirstMissConcat(ix, Each(needs, balances[..n]), Each(needs, [balances[n]]));
      var key := AssetKey(balances[n].asset);
      TwoMisses(ix, key, key);
      assert Each(needs, [balances[n]]) == [key] + Each(needs, []) == [key];
    }
  }

  lemma {:induction false} EachConcat<T>(needs: T -> seq<Key>, a: seq<T>, b: seq<T>)
    ensures Each(needs, a + b) == Each(needs, a) + Each(needs, b)
  {
    if a == [] {
      assert a + b == b;
    } else {
      EachConcat(needs, a[1..], b);
      assert (a + b)[1..] == a[1..] + b;
      assert needs(a[0]) + (Each(needs, a[1..]) + Each(needs, b))
          == needs(a[0]) + Each(needs, a[1..]) + Each(needs, b);
    }
  }

  lemma SnapshotMisses(ix: AccountEventIndexer, s: Reported)
    ensures Failure(ix.SnapshotOf(s)) == FirstMiss(ix, SnapshotNeeds(s))
  {
    var key := ExchangeKey(s.exchange);
    forall i | i in s.instruments
      ensures Failure(ix.InstrumentOf(i)) == FirstMiss(ix, InstrumentNeeds(i))
    {
      InstrumentMisses(ix, i);
    }
    MapAllMisses(ix, i => ix.InstrumentOf(i), i => InstrumentNeeds(i), s.instruments);
    TwoMisses(ix, key, key);
    FirstMissConcat(ix, [key], Each(i => InstrumentNeeds(i), s.instruments));
    FirstMissConcat(ix, [key] + Each(i => InstrumentNeeds(i), s.instruments),
                    Each((b: Balance<Name>) => [AssetKey(b.asset)], s.balances));
    BalancesMiss(ix, s.balances);
    StrictIsNothingUntracked(ix, s);
  }

  lemma TradeMisses(ix: AccountEventIndexer, t: Trade<Name, Name>)
    requires InRange(ix.map_.instruments)
    ensures Failure(ix.TradeOf(t)) == Miss(ix, InstrumentKey(t.instrument))
  {
  }

  lemma AboutMisses(ix: AccountEventIndexer, p: Option<Name>)
    ensures Failure(Transpose(n => ix.map_.FindInstrument(n), p)) == FirstMiss(ix, About(p))
  {
    if p.Some? {
      TwoMisses(ix, InstrumentKey(p.value), InstrumentKey(p.value));
    }
  }

  lemma AmendmentMisses(
    ix: AccountEventIndexer, p: Name, t: Option<Trade<Name, Name>>, d: string)
    requires InRange(ix.map_.instruments)
    ensures Failure(ix.KindOf(TradeAmended(p, t, d))) == FirstMiss(ix, KindNeeds(TradeAmended(p, t, d)))
  {
    var key := InstrumentKey(p);
    TwoMisses(ix, key, key);
    if t.Some? {
      TradeMisses(ix, t.value);
      TwoMisses(ix, key, InstrumentKey(t.value.instrument));
    }
  }

  lemma GapMisses(ix: AccountEventIndexer, names: seq<Name>)
    ensures Failure(MapAll(n => ix.map_.FindInstrument(n), names))
         == FirstMiss(ix, Each((n: Name) => [InstrumentKey(n)], names))
  {
    forall n | n in names
      ensures Failure(ix.map_.FindInstrument(n)) == FirstMiss(ix, [InstrumentKey(n)])
    {
      TwoMisses(ix, InstrumentKey(n), InstrumentKey(n));
    }
    MapAllMisses(ix, n => ix.map_.FindInstrument(n), (n: Name) => [InstrumentKey(n)], names);
  }

  lemma KindMisses(ix: AccountEventIndexer, k: Kind<ExchangeId, Name, Name>)
    requires InRange(ix.map_.instruments)
    ensures Failure(ix.KindOf(k)) == FirstMiss(ix, KindNeeds(k))
  {
    match k
    case Snapshot(s) => SnapshotMisses(ix, s);
    case BalanceSnapshot(b) => TwoMisses(ix, AssetKey(b.asset), AssetKey(b.asset));
    case BalanceStreamUpdate(b) => TwoMisses(ix, AssetKey(b.asset), AssetKey(b.asset));
    case InstrumentBalanceUpdate(p, b) => TwoMisses(ix, InstrumentKey(p), AssetKey(b.asset));
    case InstrumentBalanceSnapshot(p, b) => TwoMisses(ix, InstrumentKey(p), AssetKey(b.asset));
    case OrderSnapshot(o) => TwoMisses(ix, ExchangeKey(o.exchange), InstrumentKey(o.instrument));
    case OrderCancelled(o) => TwoMisses(ix, ExchangeKey(o.exchange), InstrumentKey(o.instrument));
    case TradeDone(t) =>
      TradeMisses(ix, t);
      TwoMisses(ix, InstrumentKey(t.instrument), InstrumentKey(t.instrument));
    case TradeAmended(p, t, d) => AmendmentMisses(ix, p, t, d);
    case FillRecoveryGaveUp(g, _) =>
      if g.Some? {
        GapMisses(ix, g.value);
      }
    case CashFlow(a, p, _) => FlowMisses(ix, a, p);
    case MarginDebt(a, p, _) => FlowMisses(ix, a, p);
    case Notice(_, _) =>
    case Verbatim(_) =>
  }

  lemma FlowMisses(ix: AccountEventIndexer, a: Name, p: Option<Name>)
    ensures FirstMiss(ix, [AssetKey(a)] + About(p))
         == if Miss(ix, AssetKey(a)).Some? then Miss(ix, AssetKey(a))
            else Failure(Transpose(n => ix.map_.FindInstrument(n), p))
  {
    FirstMissConcat(ix, [AssetKey(a)], About(p));
    TwoMisses(ix, AssetKey(a), AssetKey(a));
    AboutMisses(ix, p);
  }

  /** An event is indexed exactly when every name it needs is registered, and fails on the first not. */
  lemma EventFailsOnItsFirstMiss(ix: AccountEventIndexer, e: Event<ExchangeId, Name, Name>)
    requires InRange(ix.map_.instruments)
    ensures Failure(ix.AccountEvent(e)) == FirstMiss(ix, [ExchangeKey(e.exchange)] + KindNeeds(e.kind))
  {
    KindMisses(ix, e.kind);
    FirstMissConcat(ix, [ExchangeKey(e.exchange)], KindNeeds(e.kind));
    TwoMisses(ix, ExchangeKey(e.exchange), ExchangeKey(e.exchange));
  }

  /**
   An untracked balance is reported exactly for a balance event of this exchange whose own asset is
   not registered. Every other failure is a lost event, with the first name it misses.
   */
  lemma UntrackedIsABalanceAlone(
    ix: AccountEventIndexer, e: Event<ExchangeId, Name, Name>, asset: Name)
    requires InRange(ix.map_.instruments)
    ensures ix.IndexAccountEvent(e) == Err(UntrackedBalance(asset)) <==>
            && e.exchange == ix.map_.id
            && (e.kind.BalanceSnapshot? || e.kind.BalanceStreamUpdate?)
            && e.kind.balance.asset == asset
            && ix.map_.assets.Find(asset).None?
    ensures ix.IndexAccountEvent(e).Err? && ix.IndexAccountEvent(e).error.Rejected? ==>
              FirstMiss(ix, [ExchangeKey(e.exchange)] + KindNeeds(e.kind))
              == Some(ix.IndexAccountEvent(e).error.error)
    ensures ix.IndexAccountEvent(e).Ok? ==> ix.AccountEvent(e) == Ok(ix.IndexAccountEvent(e).value)
    ensures ix.IndexAccountEvent(e).Ok?
            <==> FirstMiss(ix, [ExchangeKey(e.exchange)] + KindNeeds(e.kind)) == None
  {
    EventFailsOnItsFirstMiss(ix, e);
  }

  /** A fill is never lost over its fee: only its instrument has to be registered. */
  lemma FeesNeverLoseATrade(ix: AccountEventIndexer, t: Trade<Name, Name>)
    requires InRange(ix.map_.instruments)
    ensures ix.TradeOf(t).Ok? <==> ix.map_.FindInstrument(t.instrument).Ok?
    ensures ix.TradeOf(t).Ok? ==>
              var x := ix.TradeOf(t).value;
              && x.price == t.price && x.details == t.details
              && x.instrument == ix.map_.FindInstrument(t.instrument).value
              && (if ix.Tracks(t.feeAsset)
                  then x.fees == t.fees && x.feeAsset == ix.map_.FindAsset(t.feeAsset).value
                  else x.fees == 0.0 && x.feesQuote == None
                       && x.feeAsset == ix.map_.underlying(x.instrument).1)
    ensures ix.TradeOf(t).Ok? && ix.Tracks(t.feeAsset) ==>
              var x, (base, quote) := ix.TradeOf(t).value,
                                      ix.map_.underlying(ix.TradeOf(t).value.instrument);
              && (x.feeAsset == quote ==> x.feesQuote == Some(t.fees))
              && (x.feeAsset == base != quote ==> x.feesQuote == Some(InQuote(t.fees, t.price)))
              && (x.feeAsset != quote && x.feeAsset != base ==> x.feesQuote == None)
  {
  }

  /** Every directory built from the builder's listings resolves only to listings. */
  lemma BuiltDirectoriesAreInRange(
    exchange: ExchangeId, listings: seq<Listing>, walk: seq<Named>)
    requires Walks(walk, CollectNames(listings, exchange)) && NoDuplicates(listings)
    ensures InRange(New(exchange, listings, walk))
  {
    DeduplicatedIsAll(listings);
    forall name | New(exchange, listings, walk).Find(name).Some?
      ensures New(exchange, listings, walk).Find(name).value < |listings|
    {
      ResolvingComesBack(exchange, listings, walk, name);
    }
  }

  // ------------------------------------------------------------------------------ what is indexed

  // Each says what an output holds of its input: every name its directory's index, all else as it was.

  predicate BalanceIsIndexed(ix: AccountEventIndexer, b: Balance<Name>, x: Balance<nat>) {
    ix.map_.assets.Find(b.asset) == Some(x.asset) && x.details == b.details
  }

  predicate OrderIsIndexed(ix: AccountEventIndexer, o: Order<ExchangeId, Name>, x: Order<nat, nat>) {
    && o.exchange == ix.map_.id && x.exchange == ix.map_.index
    && ix.map_.instruments.Find(o.instrument) == Some(x.instrument)
    && x.details == o.details
  }

  predicate InstrumentIsIndexed(
    ix: AccountEventIndexer, s: InstrumentSnapshot<ExchangeId, Name, Name>,
    x: InstrumentSnapshot<nat, nat, nat>)
  {
    && ix.map_.instruments.Find(s.instrument) == Some(x.instrument)
    && |x.orders| == |s.orders|
    && (forall i :: 0 <= i < |s.orders| ==> OrderIsIndexed(ix, s.orders[i], x.orders[i]))
    && x.ordersComplete == s.ordersComplete && x.position == s.position
    && (s.isolated.None? <==> x.isolated.None?)
    && (s.isolated.Some? ==>
          && BalanceIsIndexed(ix, s.isolated.value.base, x.isolated.value.base)
          && BalanceIsIndexed(ix, s.isolated.value.quote, x.isolated.value.quote)
          && x.isolated.value.risk == s.isolated.value.risk)
  }

  predicate SnapshotIsIndexed(ix: AccountEventIndexer, s: Reported, x: Indexed) {
    && s.exchange == ix.map_.id && x.exchange == ix.map_.index
    && |x.instruments| == |s.instruments|
    && (forall i :: 0 <= i < |s.instruments| ==>
          InstrumentIsIndexed(ix, s.instruments[i], x.instruments[i]))
  }

  predicate NameIsIndexed(ix: AccountEventIndexer, name: Name, i: nat) {
    ix.map_.instruments.Find(name) == Some(i)
  }

  predicate NamesAreIndexed(ix: AccountEventIndexer, names: seq<Name>, xs: seq<nat>) {
    |xs| == |names| && forall i :: 0 <= i < |names| ==> NameIsIndexed(ix, names[i], xs[i])
  }

  predicate AboutIsIndexed(ix: AccountEventIndexer, p: Option<Name>, x: Option<nat>) {
    (p.None? <==> x.None?) && (p.Some? ==> NameIsIndexed(ix, p.value, x.value))
  }

  predicate TradeIsIndexed(ix: AccountEventIndexer, t: Trade<Name, Name>, x: Trade<nat, nat>) {
    var (base, quote) := ix.map_.underlying(x.instrument);
    && NameIsIndexed(ix, t.instrument, x.instrument)
    && x.price == t.price && x.details == t.details
    && match ix.map_.assets.Find(t.feeAsset)
       case None => x.feeAsset == quote && x.fees == 0.0 && x.feesQuote == None
       case Some(fee) =>
         && x.feeAsset == fee && x.fees == t.fees
         && (fee == quote ==> x.feesQuote == Some(t.fees))
         && (fee == base && fee != quote ==> x.feesQuote == Some(InQuote(t.fees, t.price)))
         && (fee != base && fee != quote ==> x.feesQuote == None)
  }

  predicate KindIsIndexed(
    ix: AccountEventIndexer, k: Kind<ExchangeId, Name, Name>, x: Kind<nat, nat, nat>)
  {
    match (k, x)
    case (Snapshot(s), Snapshot(y)) =>
      && SnapshotIsIndexed(ix, s, y)
      && |y.balances| == |s.balances|
      && (forall i :: 0 <= i < |s.balances| ==> BalanceIsIndexed(ix, s.balances[i], y.balances[i]))
    case (BalanceSnapshot(b), BalanceSnapshot(y)) => BalanceIsIndexed(ix, b, y)
    case (BalanceStreamUpdate(b), BalanceStreamUpdate(y)) => BalanceIsIndexed(ix, b, y)
    case (InstrumentBalanceUpdate(p, b), InstrumentBalanceUpdate(i, y)) =>
      NameIsIndexed(ix, p, i) && BalanceIsIndexed(ix, b, y)
    case (InstrumentBalanceSnapshot(p, b), InstrumentBalanceSnapshot(i, y)) =>
      NameIsIndexed(ix, p, i) && BalanceIsIndexed(ix, b, y)
    case (OrderSnapshot(o), OrderSnapshot(y)) => OrderIsIndexed(ix, o, y)
    case (OrderCancelled(o), OrderCancelled(y)) => OrderIsIndexed(ix, o, y)
    case (TradeDone(t), TradeDone(y)) => TradeIsIndexed(ix, t, y)
    case (TradeAmended(p, t, d), TradeAmended(i, y, e)) =>
      && NameIsIndexed(ix, p, i) && d == e && (t.None? <==> y.None?)
      && (t.Some? ==> TradeIsIndexed(ix, t.value, y.value))
    case (FillRecoveryGaveUp(g, d), FillRecoveryGaveUp(y, e)) =>
      && d == e && (g.None? <==> y.None?)
      && (g.Some? ==> NamesAreIndexed(ix, g.value, y.value))
    case (CashFlow(a, p, d), CashFlow(i, y, e)) =>
      ix.map_.assets.Find(a) == Some(i) && AboutIsIndexed(ix, p, y) && d == e
    case (MarginDebt(a, p, d), MarginDebt(i, y, e)) =>
      ix.map_.assets.Find(a) == Some(i) && AboutIsIndexed(ix, p, y) && d == e
    case (Notice(p, d), Notice(y, e)) =>
      d == e && y == if p.Some? then ix.map_.instruments.Find(p.value) else None
    case (Verbatim(d), Verbatim(e)) => d == e
    case _ => false
  }

  lemma {:induction false} MapAllKeeps<T, U>(f: T -> Outcome<U>, xs: seq<T>)
    requires MapAll(f, xs).Ok?
    ensures var ys := MapAll(f, xs).value;
            |ys| == |xs| && forall i :: 0 <= i < |xs| ==> f(xs[i]) == Ok(ys[i])
  {
    if xs != [] {
      MapAllKeeps(f, xs[1..]);
      var ys, rest := MapAll(f, xs).value, MapAll(f, xs[1..]).value;
      forall i | 0 <= i < |xs|
        ensures f(xs[i]) == Ok(ys[i])
      {
        assert i > 0 ==> xs[i] == xs[1..][i - 1] && ys[i] == rest[i - 1];
      }
    }
  }

  lemma InstrumentIsKept(ix: AccountEventIndexer, s: InstrumentSnapshot<ExchangeId, Name, Name>)
    requires ix.InstrumentOf(s).Ok?
    ensures InstrumentIsIndexed(ix, s, ix.InstrumentOf(s).value)
  {
    MapAllKeeps(o => ix.OrderOf(o), s.orders);
    var x := ix.InstrumentOf(s).value;
    forall i | 0 <= i < |s.orders|
      ensures OrderIsIndexed(ix, s.orders[i], x.orders[i])
    {
      assert ix.OrderOf(s.orders[i]) == Ok(x.orders[i]);
    }
  }

  /** A snapshot that is split keeps each instrument, in order, with everything it holds. */
  lemma PartitionIsIndexed(ix: AccountEventIndexer, s: Reported)
    requires ix.Partition(s).Ok?
    ensures SnapshotIsIndexed(ix, s, ix.Partition(s).value.snapshot)
  {
    var f := i => ix.InstrumentOf(i);
    MapAllKeeps(f, s.instruments);
    var xs := MapAll(f, s.instruments).value;
    forall i | 0 <= i < |s.instruments|
      ensures InstrumentIsIndexed(ix, s.instruments[i], xs[i])
    {
      assert f(s.instruments[i]) == Ok(xs[i]);
      InstrumentIsKept(ix, s.instruments[i]);
    }
  }

  /** With nothing untracked, each balance is indexed where it stands. */
  lemma {:induction false} AllTracked(ix: AccountEventIndexer, balances: seq<Balance<Name>>)
    requires ix.UntrackedAssets(balances) == []
    ensures var xs := ix.TrackedBalances(balances);
            && |xs| == |balances|
            && forall i :: 0 <= i < |balances| ==> BalanceIsIndexed(ix, balances[i], xs[i])
  {
    if balances != [] {
      AllTracked(ix, balances[..|balances| - 1]);
    }
  }

  lemma SnapshotIsKept(ix: AccountEventIndexer, s: Reported)
    requires ix.SnapshotOf(s).Ok?
    ensures KindIsIndexed(ix, Snapshot(s), Snapshot(ix.SnapshotOf(s).value))
  {
    StrictIsNothingUntracked(ix, s);
    PartitionIsIndexed(ix, s);
    AllTracked(ix, s.balances);
  }

  lemma GapIsKept(ix: AccountEventIndexer, names: seq<Name>)
    requires MapAll(n => ix.map_.FindInstrument(n), names).Ok?
    ensures NamesAreIndexed(ix, names, MapAll(n => ix.map_.FindInstrument(n), names).value)
  {
    var f := n => ix.map_.FindInstrument(n);
    MapAllKeeps(f, names);
    var xs := MapAll(f, names).value;
    forall i | 0 <= i < |names|
      ensures NameIsIndexed(ix, names[i], xs[i])
    {
      assert f(names[i]) == Ok(xs[i]);
    }
  }

  /**
   An indexed event is the event it came from, of the same kind, with the same details and lists in
   the same order, each name replaced by the index its directory finds for it.
   */
  lemma EventIsIndexed(ix: AccountEventIndexer, e: Event<ExchangeId, Name, Name>)
    requires ix.AccountEvent(e).Ok?
    ensures e.exchange == ix.map_.id && ix.AccountEvent(e).value.exchange == ix.map_.index
    ensures KindIsIndexed(ix, e.kind, ix.AccountEvent(e).value.kind)
  {
    match e.kind
    case Snapshot(s) => SnapshotIsKept(ix, s);
    case FillRecoveryGaveUp(g, _) =>
      if g.Some? {
        GapIsKept(ix, g.value);
      }
    case _ =>
  }
}
