/**
 What a reduce-only book promises over every run of its operations: its own consistency, agreement
 with an unbounded log of what was sent, and how long a retired order stays findable.
 */
module ReduceOnlyRuns {
  import opened IndexMap
  import opened ReduceOnlyBook
  import opened Wrappers

  datatype Op =
    | Register(cid: ClientOrderId, reduceOnly: ReduceOnly)
    | Acknowledge(cid: ClientOrderId, venueId: OrderId)
    | Retire(cid: ClientOrderId)
    | RetireUntracked(tracked: ClientOrderId -> bool)
    | Clear

  function Step(b: Book, op: Op): Book {
    match op
    case Register(cid, reduceOnly) => Registered(b, cid, reduceOnly)
    case Acknowledge(cid, venueId) => Acknowledged(b, cid, venueId)
    case Retire(cid) => Retired(b, cid)
    case RetireUntracked(tracked) => RetiredUntracked(b, tracked)
    case Clear => EMPTY
  }

  function Run(b: Book, ops: seq<Op>): Book {
    if ops == [] then b else Step(Run(b, ops[..|ops| - 1]), ops[|ops| - 1])
  }

  // ------------------------------------------------------------------------------ consistency

  /** A retired reduce-only order joins the end, and at capacity the oldest leaves. */
  lemma InsertRetiredFacts(retired: Orders, e: Entry<SentOrder>)
    requires Distinct(retired) && AllReduceOnly(retired) && |retired| <= 64
    requires !Has(retired, e.key) && e.value.reduceOnly != No
    ensures var r := InsertRetired(retired, e);
            && Distinct(r) && AllReduceOnly(r) && |r| <= 64
            && (forall k :: Has(r, k) ==> k == e.key || Has(retired, k))
            && r == (if |retired| == 64 then retired[1..] else retired) + [e]
  {
    if |retired| == 64 {
      TailFacts(retired);
      AppendFacts(retired[1..], e);
    } else {
      AppendFacts(retired, e);
    }
  }

  lemma RegisteredKeepsValid(b: Book, cid: ClientOrderId, reduceOnly: ReduceOnly)
    requires b.Valid()
    ensures Registered(b, cid, reduceOnly).Valid()
    ensures Registered(b, cid, reduceOnly).live
         == Remove(b.live, cid) + [Entry(cid, SentOrder(reduceOnly, None))]
  {
    var e := Entry(cid, SentOrder(reduceOnly, None));
    RemoveFacts(b.live, cid);
    RemoveFacts(b.retired, cid);
    AppendFacts(Remove(b.live, cid), e);
    CountRemove(b.live, cid);
    CountConcat(Remove(b.live, cid), [e]);
    var r := Registered(b, cid, reduceOnly);
    assert r.live == Remove(b.live, cid) + [e];
    forall k | Has(r.live, k)
      ensures !Has(r.retired, k)
    {
      assert Get(r.live, k).Some?;
      assert k == cid || Has(b.live, k);
      assert Get(r.retired, k) == if k == cid then None else Get(b.retired, k);
    }
  }

  lemma AcknowledgedKeepsValid(b: Book, cid: ClientOrderId, venueId: OrderId)
    requires b.Valid()
    ensures Acknowledged(b, cid, venueId).Valid()
  {
    UpdateFacts(b.live, cid, WithVenueId(venueId));
    UpdateFacts(b.retired, cid, WithVenueId(venueId));
    CountUpdate(b.live, cid, WithVenueId(venueId));
  }

  lemma RetiredKeepsValid(b: Book, cid: ClientOrderId)
    requires b.Valid()
    ensures Retired(b, cid).Valid()
  {
    if Has(b.live, cid) {
      RemoveFacts(b.live, cid);
      CountRemove(b.live, cid);
      var order := Get(b.live, cid).value;
      if order.reduceOnly != No {
        InsertRetiredFacts(b.retired, Entry(cid, order));
      }
    }
  }

  // ------------------------------------------------------------------------------ the bulk operation

  function RetireEach(b: Book, cids: seq<ClientOrderId>): Book
    decreases |cids|
  {
    if cids == [] then b else RetireEach(Retired(b, cids[0]), cids[1..])
  }

  /** The live orders `tracked` does not keep, in registration order. */
  function Untracked(live: Orders, tracked: ClientOrderId -> bool): seq<ClientOrderId> {
    if live == [] then []
    else if tracked(live[0].key) then Untracked(live[1..], tracked)
    else [live[0].key] + Untracked(live[1..], tracked)
  }

  lemma {:induction false} InsertAllFront(retired: Orders, e: Entry<SentOrder>, rest: Orders)
    ensures InsertAll(retired, [e] + rest) == InsertAll(InsertRetired(retired, e), rest)
  {
    if rest == [] {
      assert [e] + rest == [] + [e];
      InsertAllLast(retired, [], e);
    } else {
      var front, last := rest[..|rest| - 1], rest[|rest| - 1];
      InsertAllFront(retired, e, front);
      assert front + [last] == rest && [e] + front + [last] == [e] + rest;
      InsertAllLast(retired, [e] + front, last);
      InsertAllLast(InsertRetired(retired, e), front, last);
    }
  }

  /** Retiring the first untracked order leaves the rest of the pass as it would have gone. */
  lemma {:induction false} RemoveUntracked(
    live: Orders, tracked: ClientOrderId -> bool, cid: ClientOrderId)
    requires Distinct(live)
    requires Untracked(live, tracked) != [] && Untracked(live, tracked)[0] == cid
    ensures Has(live, cid)
    ensures Untracked(Remove(live, cid), tracked) == Untracked(live, tracked)[1..]
    ensures Filter(Remove(live, cid), IsTracked(tracked)) == Filter(live, IsTracked(tracked))
    ensures Filter(live, IsEnded(tracked))
         == (if Get(live, cid).value.reduceOnly != No
             then [Entry(cid, Get(live, cid).value)] else [])
            + Filter(Remove(live, cid), IsEnded(tracked))
  {
    if tracked(live[0].key) {
      RemoveUntracked(live[1..], tracked, cid);
      HasIs(live[1..], cid);
    } else {
      HasIs(live[1..], cid);
      RemoveAbsent(live[1..], cid);
    }
  }

  /**
   One bulk pass leaves what retiring each untracked order by itself does, in registration order,
   evictions part-way through included.
   */
  lemma {:induction false} BulkRetirementIsOneByOne(b: Book, tracked: ClientOrderId -> bool)
    requires b.Valid()
    ensures RetiredUntracked(b, tracked) == RetireEach(b, Untracked(b.live, tracked))
    ensures RetiredUntracked(b, tracked).Valid()
    decreases |Untracked(b.live, tracked)|
  {
    var cids := Untracked(b.live, tracked);
    if cids == [] {
      NothingUntracked(b.live, tracked);
    } else {
      RetiredKeepsValid(b, cids[0]);
      OneStepOfThePass(b, tracked);
      BulkRetirementIsOneByOne(Retired(b, cids[0]), tracked);
    }
  }

  lemma OneStepOfThePass(b: Book, tracked: ClientOrderId -> bool)
    requires b.Valid() && Untracked(b.live, tracked) != []
    ensures var cids := Untracked(b.live, tracked);
            && Untracked(Retired(b, cids[0]).live, tracked) == cids[1..]
            && RetiredUntracked(Retired(b, cids[0]), tracked) == RetiredUntracked(b, tracked)
  {
    var cid := Untracked(b.live, tracked)[0];
    RemoveUntracked(b.live, tracked, cid);
    var order := Get(b.live, cid).value;
    var rest := Filter(Remove(b.live, cid), IsEnded(tracked));
    if order.reduceOnly != No {
      InsertAllFront(b.retired, Entry(cid, order), rest);
    } else {
      assert Filter(b.live, IsEnded(tracked)) == rest;
    }
  }

  lemma {:induction false} NothingUntracked(live: Orders, tracked: ClientOrderId -> bool)
    requires Untracked(live, tracked) == []
    ensures Filter(live, IsTracked(tracked)) == live && Filter(live, IsEnded(tracked)) == []
  {
    if live != [] {
      NothingUntracked(live[1..], tracked);
    }
  }

  /** Every operation keeps a book consistent, its counter exact. */
  lemma StepKeepsValid(b: Book, op: Op)
    requires b.Valid()
    ensures Step(b, op).Valid()
  {
    match op
    case Register(cid, reduceOnly) => RegisteredKeepsValid(b, cid, reduceOnly);
    case Acknowledge(cid, venueId) => AcknowledgedKeepsValid(b, cid, venueId);
    case Retire(cid) => RetiredKeepsValid(b, cid);
    case RetireUntracked(tracked) => BulkRetirementIsOneByOne(b, tracked);
    case Clear =>
  }

  lemma {:induction false} RunKeepsValid(b: Book, ops: seq<Op>)
    requires b.Valid()
    ensures Run(b, ops).Valid()
  {
    if ops != [] {
      RunKeepsValid(b, ops[..|ops| - 1]);
      StepKeepsValid(Run(b, ops[..|ops| - 1]), ops[|ops| - 1]);
    }
  }

  /** A book loaded from any parts is consistent, and keeps the latest retired orders it may keep. */
  lemma LoadingMakesValid(parts: BookParts)
    requires Distinct(parts.live) && Distinct(parts.retired)
    ensures FromParts(parts).Valid()
    ensures FromParts(parts).live == parts.live
    ensures forall e :: e in FromParts(parts).retired ==>
              e in parts.retired && e.value.reduceOnly != No && !Has(parts.live, e.key)
    ensures IsSuffix(FromParts(parts).retired, Filter(parts.retired, IsLoadable(parts.live)))
    ensures |FromParts(parts).retired| < 64
            ==> FromParts(parts).retired == Filter(parts.retired, IsLoadable(parts.live))
  {
    var keep := IsLoadable(parts.live);
    var loaded, retired := Filter(parts.retired, keep), FromParts(parts).retired;
    FilterDistinct(parts.retired, keep);
    assert loaded[..|loaded| - |retired|] + retired == loaded;
    forall e | e in retired
      ensures e in parts.retired && keep(e)
    {
      assert e in loaded;
      FilterIn(parts.retired, keep, e);
    }
    forall k | Has(retired, k)
      ensures !Has(parts.live, k)
    {
      HasIs(retired, k);
      assert keep(Entry(k, Get(retired, k).value));
    }
  }

  /** Saving and loading a consistent book, as every run leaves it, gives the same book. */
  lemma LoadingWhatWasSaved(b: Book)
    requires b.Valid()
    ensures FromParts(BookParts(b.live, b.retired)) == b
  {
    forall e | e in b.retired
      ensures IsLoadable(b.live)(e)
    {
      HasIs(b.retired, e.key);
    }
    FilterAll(b.retired, IsLoadable(b.live));
  }

  // ------------------------------------------------------------------------------ the unbounded log

  /** What a book would hold with no bound on the retired orders it keeps. */
  datatype Log = Log(live: Orders, retired: Orders)

  function LogStep(l: Log, op: Op): Log {
    match op
    case Register(cid, reduceOnly) =>
      Log(Remove(l.live, cid) + [Entry(cid, SentOrder(reduceOnly, None))], Remove(l.retired, cid))
    case Acknowledge(cid, venueId) =>
      if Has(l.live, cid) then l.(live := Update(l.live, cid, WithVenueId(venueId)))
      else l.(retired := Update(l.retired, cid, WithVenueId(venueId)))
    case Retire(cid) =>
      Log(Remove(l.live, cid),
          l.retired + if Has(l.live, cid) && Get(l.live, cid).value.reduceOnly != No
                      then [Entry(cid, Get(l.live, cid).value)] else [])
    case RetireUntracked(tracked) =>
      Log(Filter(l.live, IsTracked(tracked)), l.retired + Filter(l.live, IsEnded(tracked)))
    case Clear => Log([], [])
  }

  function LogRun(ops: seq<Op>): Log {
    if ops == [] then Log([], []) else LogStep(LogRun(ops[..|ops| - 1]), ops[|ops| - 1])
  }

  ghost predicate IsSuffix(orders: Orders, log: Orders) {
    exists older: Orders :: older + orders == log
  }

  lemma {:induction false} InsertAllFacts(retired: Orders, ended: Orders)
    requires Distinct(retired) && AllReduceOnly(retired) && |retired| <= 64
    requires Distinct(ended) && AllReduceOnly(ended)
    requires forall e :: e in ended ==> !Has(retired, e.key)
    ensures var r := InsertAll(retired, ended);
            && Distinct(r) && AllReduceOnly(r) && |r| <= 64
            && forall k :: Has(r, k) ==> Has(retired, k) || Has(ended, k)
  {
    if ended != [] {
      var n := |ended| - 1;
      var before, e := ended[..n], ended[n];
      assert ended == before + [e];
      InsertAllFacts(retired, before);
      HasIs(before, e.key);
      AppendFacts(before, e);
      InsertRetiredFacts(InsertAll(retired, before), e);
    }
  }

  /** The retired orders a pass leaves are the latest of the old ones and the new ones together. */
  lemma {:induction false} InsertAllIsSuffix(retired: Orders, ended: Orders)
    requires Distinct(retired) && AllReduceOnly(retired) && |retired| <= 64
    requires Distinct(ended) && AllReduceOnly(ended)
    requires forall e :: e in ended ==> !Has(retired, e.key)
    ensures IsSuffix(InsertAll(retired, ended), retired + ended)
  {
    if ended == [] {
      assert [] + retired == retired + ended;
    } else {
      var n := |ended| - 1;
      var before, e := ended[..n], ended[n];
      InsertAllIsSuffix(retired, before);
      InsertAllFacts(retired, before);
      HasIs(before, e.key);
      InsertIsSuffix(InsertAll(retired, before), retired + before, e);
      assert retired + before + [e] == retired + ended;
    }
  }

  lemma InsertIsSuffix(retired: Orders, log: Orders, e: Entry<SentOrder>)
    requires IsSuffix(retired, log) && !Has(retired, e.key) && |retired| <= 64
    ensures IsSuffix(InsertRetired(retired, e), log + [e])
  {
    var older :| older + retired == log;
    if |retired| == 64 {
      GetConcat([retired[0]], retired[1..], e.key);
      assert retired == [retired[0]] + retired[1..];
      assert older + [retired[0]] + (retired[1..] + [e]) == log + [e];
    } else {
      assert older + (retired + [e]) == log + [e];
    }
  }

  lemma EndedFacts(live: Orders, tracked: ClientOrderId -> bool)
    requires Distinct(live)
    ensures Distinct(Filter(live, IsEnded(tracked))) && AllReduceOnly(Filter(live, IsEnded(tracked)))
    ensures forall e :: e in Filter(live, IsEnded(tracked)) ==> Has(live, e.key)
  {
    FilterDistinct(live, IsEnded(tracked));
    forall e | e in Filter(live, IsEnded(tracked))
      ensures e.value.reduceOnly != No && Has(live, e.key)
    {
      FilterIn(live, IsEnded(tracked), e);
      HasIs(live, e.key);
    }
  }

  lemma SuffixGrows(orders: Orders, log: Orders, more: Orders)
    requires IsSuffix(orders, log)
    ensures IsSuffix(orders + more, log + more)
  {
    var older :| older + orders == log;
    assert older + (orders + more) == log + more;
  }

  lemma SuffixChains(a: Orders, b: Orders, c: Orders)
    requires IsSuffix(a, b) && IsSuffix(b, c)
    ensures IsSuffix(a, c)
  {
    var x :| x + a == b;
    var y :| y + b == c;
    assert (y + x) + a == c;
  }

  /** The book keeps in step with the log: the same live orders, and a suffix of the retired ones. */
  lemma StepRefinesLog(b: Book, l: Log, op: Op)
    requires b.Valid() && b.live == l.live && IsSuffix(b.retired, l.retired)
    ensures Step(b, op).live == LogStep(l, op).live
    ensures IsSuffix(Step(b, op).retired, LogStep(l, op).retired)
  {
    var older :| older + b.retired == l.retired;
    match op
    case Register(cid, reduceOnly) =>
      RegisteredKeepsValid(b, cid, reduceOnly);
      FilterConcat(older, b.retired, IsNot(cid));
    case Acknowledge(cid, venueId) =>
      UpdateConcat(older, b.retired, cid, WithVenueId(venueId));
    case Retire(cid) =>
      RemoveFacts(b.live, cid);
      if Has(b.live, cid) {
        var e := Entry(cid, Get(b.live, cid).value);
        if e.value.reduceOnly != No {
          assert InsertAll(b.retired, [e]) == InsertRetired(b.retired, e) by {
            assert [e][..0] == [];
          }
          InsertAllIsSuffix(b.retired, [e]);
          SuffixGrows(b.retired, l.retired, [e]);
          SuffixChains(Step(b, op).retired, b.retired + [e], l.retired + [e]);
        } else {
          assert l.retired + [] == l.retired;
        }
      } else {
        RemoveAbsent(b.live, cid);
        assert l.retired + [] == l.retired;
      }
    case RetireUntracked(tracked) =>
      EndedFacts(b.live, tracked);
      var ended := Filter(b.live, IsEnded(tracked));
      InsertAllIsSuffix(b.retired, ended);
      SuffixGrows(b.retired, l.retired, ended);
      SuffixChains(Step(b, op).retired, b.retired + ended, l.retired + ended);
    case Clear =>
      assert [] + Step(b, op).retired == LogStep(l, op).retired;
  }

  /** Over every run the book holds the log's live orders and the latest of its retired ones. */
  lemma {:induction false} BookRefinesLog(ops: seq<Op>)
    ensures Run(EMPTY, ops).Valid()
    ensures Run(EMPTY, ops).live == LogRun(ops).live
    ensures IsSuffix(Run(EMPTY, ops).retired, LogRun(ops).retired)
  {
    RunKeepsValid(EMPTY, ops);
    if ops == [] {
      assert [] + Run(EMPTY, ops).retired == LogRun(ops).retired;
    } else {
      var before := ops[..|ops| - 1];
      BookRefinesLog(before);
      StepRefinesLog(Run(EMPTY, before), LogRun(before), ops[|ops| - 1]);
    }
  }

  // ------------------------------------------------------------------------------ what was sent

  /** The last order sent under `cid`, with the venue id it was last acknowledged with. */
  function LastSent(ops: seq<Op>, cid: ClientOrderId): Option<SentOrder> {
    if ops == [] then None
    else
      var earlier := LastSent(ops[..|ops| - 1], cid);
      match ops[|ops| - 1]
      case Register(c, reduceOnly) => if c == cid then Some(SentOrder(reduceOnly, None)) else earlier
      case Acknowledge(c, venueId) =>
        if c == cid && earlier.Some? then Some(earlier.value.(venueId := Some(venueId))) else earlier
      case _ => earlier
  }

  /** Whether `cid` was registered and has not been retired or dropped since. */
  predicate Open(ops: seq<Op>, cid: ClientOrderId) {
    if ops == [] then false
    else
      var earlier := Open(ops[..|ops| - 1], cid);
      match ops[|ops| - 1]
      case Register(c, _) => c == cid || earlier
      case Acknowledge(_, _) => earlier
      case Retire(c) => c != cid && earlier
      case RetireUntracked(tracked) => earlier && tracked(cid)
      case Clear => false
  }

  /** An order newly held was held before, just as it is, or is the one the operation names. */
  lemma StepHolds(b: Book, op: Op, cid: ClientOrderId)
    requires b.Valid()
    ensures var held, after := Held(b, cid), Held(Step(b, op), cid);
            match op
            case Register(c, ro) => after == if c == cid then Some(SentOrder(ro, None)) else held
            case Acknowledge(c, v) =>
              after == if c == cid && held.Some? then Some(WithVenueId(v)(held.value)) else held
            case _ => after == held || after == None
    ensures Has(Step(b, op).live, cid) <==>
            match op
            case Register(c, _) => c == cid || Has(b.live, cid)
            case Acknowledge(_, _) => Has(b.live, cid)
            case Retire(c) => c != cid && Has(b.live, cid)
            case RetireUntracked(tracked) => Has(b.live, cid) && tracked(cid)
            case Clear => false
  {
    match op
    case Register(c, ro) =>
      RegisteredKeepsValid(b, c, ro);
      RemoveFacts(b.live, c);
      RemoveFacts(b.retired, c);
      AppendFacts(Remove(b.live, c), Entry(c, SentOrder(ro, None)));
    case Acknowledge(c, v) =>
      UpdateFacts(b.live, c, WithVenueId(v));
      UpdateFacts(b.retired, c, WithVenueId(v));
    case Retire(c) =>
      RemoveFacts(b.live, c);
      RetiredHolds(b, c, cid);
    case RetireUntracked(tracked) =>
      FilterGet(b.live, IsTracked(tracked), cid);
      BulkRetirementIsOneByOne(b, tracked);
      RetireEachHolds(b, Untracked(b.live, tracked), cid);
    case Clear =>
  }

  /** The order the book holds under `cid`, live or retired. */
  function Held(b: Book, cid: ClientOrderId): Option<SentOrder> {
    if Has(b.live, cid) then Get(b.live, cid) else Get(b.retired, cid)
  }

  lemma RetiredHolds(b: Book, c: ClientOrderId, cid: ClientOrderId)
    requires b.Valid()
    ensures Held(Retired(b, c), cid) == Held(b, cid) || Held(Retired(b, c), cid) == None
  {
    if Has(b.live, c) {
      RemoveFacts(b.live, c);
      var e := Entry(c, Get(b.live, c).value);
      if e.value.reduceOnly != No {
        if |b.retired| == 64 {
          TailFacts(b.retired);
          AppendFacts(b.retired[1..], e);
        } else {
          AppendFacts(b.retired, e);
        }
      }
    }
  }

  lemma {:induction false} RetireEachHolds(b: Book, cids: seq<ClientOrderId>, cid: ClientOrderId)
    requires b.Valid()
    ensures Held(RetireEach(b, cids), cid) == Held(b, cid) || Held(RetireEach(b, cids), cid) == None
    decreases |cids|
  {
    if cids != [] {
      RetiredHolds(b, cids[0], cid);
      RetiredKeepsValid(b, cids[0]);
      RetireEachHolds(Retired(b, cids[0]), cids[1..], cid);
    }
  }

  /** After any run, whatever the book holds it holds as it was last sent and acknowledged. */
  lemma {:induction false} HeldAsSent(ops: seq<Op>, cid: ClientOrderId)
    ensures Run(EMPTY, ops).Valid()
    ensures var held := Held(Run(EMPTY, ops), cid);
            held.Some? ==> held == LastSent(ops, cid)
    ensures Has(Run(EMPTY, ops).live, cid) <==> Open(ops, cid)
  {
    RunKeepsValid(EMPTY, ops);
    if ops != [] {
      var before := ops[..|ops| - 1];
      HeldAsSent(before, cid);
      StepHolds(Run(EMPTY, before), ops[|ops| - 1], cid);
    }
  }

  /**
   After any run, a lookup finds every open order under its client order id, and whatever it finds,
   by either id, it finds with the flag it was last sent with.
   */
  lemma LookupsAnswerAsSent(ops: seq<Op>, cid: Option<ClientOrderId>, venueId: OrderId)
    ensures var found := Lookup(Run(EMPTY, ops), cid, venueId);
            && (cid.Some? && Open(ops, cid.value) ==> found.Some?)
            && (found.Some? ==>
                  && LastSent(ops, found.value.cid).Some?
                  && LastSent(ops, found.value.cid).value.reduceOnly == found.value.reduceOnly
                  && if cid.Some? then found.value.cid == cid.value
                     else LastSent(ops, found.value.cid).value.venueId == Some(venueId))
  {
    var b := Run(EMPTY, ops);
    var found := Lookup(b, cid, venueId);
    if cid.Some? {
      HeldAsSent(ops, cid.value);
    } else if found.Some? {
      HeldAsSent(ops, found.value.cid);
      LookupFindsHeld(b, cid, venueId);
      var e :| e in b.live + b.retired && found.value == Booked(e.key, e.value.reduceOnly)
               && e.value.venueId == Some(venueId);
      if e in b.live {
        var i :| 0 <= i < |b.live| && b.live[i] == e;
        GetIs(b.live, i);
      } else {
        var i :| 0 <= i < |b.retired| && b.retired[i] == e;
        GetIs(b.retired, i);
        assert Has(b.retired, e.key);
      }
    }
  }

  // ------------------------------------------------------------------------------ recent retirements

  /** How many orders were retired after `cid` and are still held. */
  function After(retired: Orders, cid: ClientOrderId): nat {
    if retired == [] then 0
    else if retired[0].key == cid then |retired| - 1
    else After(retired[1..], cid)
  }

  /** How many reduce-only orders `op` retires. */
  function RetiredBy(b: Book, op: Op): nat {
    match op
    case Retire(cid) => if Has(b.live, cid) then Weight(Get(b.live, cid).value) else 0
    case RetireUntracked(tracked) => |Filter(b.live, IsEnded(tracked))|
    case _ => 0
  }

  function RetiredOver(b: Book, ops: seq<Op>): nat
    decreases |ops|
  {
    if ops == [] then 0 else RetiredBy(b, ops[0]) + RetiredOver(Step(b, ops[0]), ops[1..])
  }

  function RunOn(b: Book, ops: seq<Op>): Book
    decreases |ops|
  {
    if ops == [] then b else RunOn(Step(b, ops[0]), ops[1..])
  }

  /** `cid` is still retired, with its flag, and at most `more` orders were retired after it. */
  ghost predicate StillRetired(before: Orders, after: Orders, cid: ClientOrderId, more: nat) {
    && Has(before, cid) && Has(after, cid)
    && Get(after, cid).value.reduceOnly == Get(before, cid).value.reduceOnly
    && After(after, cid) <= After(before, cid) + more
  }

  lemma {:induction false} AfterRemove(m: Orders, k: ClientOrderId, cid: ClientOrderId)
    requires Distinct(m) && k != cid
    ensures After(Remove(m, k), cid) <= After(m, cid)
  {
    if m != [] {
      FilterDistinct(m[1..], IsNot(k));
      AfterRemove(m[1..], k, cid);
    }
  }

  lemma {:induction false} AfterUpdate(
    m: Orders, k: ClientOrderId, f: SentOrder -> SentOrder, cid: ClientOrderId)
    ensures After(Update(m, k, f), cid) == After(m, cid)
  {
    if m != [] {
      AfterUpdate(m[1..], k, f, cid);
      assert Update(m, k, f)[1..] == Update(m[1..], k, f);
    }
  }

  lemma {:induction false} AfterAppend(m: Orders, e: Entry<SentOrder>, cid: ClientOrderId)
    requires Has(m, cid)
    ensures After(m + [e], cid) == After(m, cid) + 1
  {
    if m[0].key != cid {
      AfterAppend(m[1..], e, cid);
      assert (m + [e])[1..] == m[1..] + [e];
    }
  }

  /** One more retirement evicts only an order with 63 retired after it. */
  lemma InsertKeepsRecent(retired: Orders, e: Entry<SentOrder>, cid: ClientOrderId)
    requires Distinct(retired) && AllReduceOnly(retired) && |retired| <= 64
    requires !Has(retired, e.key) && e.value.reduceOnly != No
    requires Has(retired, cid) && After(retired, cid) + 1 < 64
    ensures StillRetired(retired, InsertRetired(retired, e), cid, 1)
  {
    InsertRetiredFacts(retired, e);
    if |retired| == 64 {
      TailFacts(retired);
      AppendFacts(retired[1..], e);
      AfterAppend(retired[1..], e, cid);
    } else {
      AppendFacts(retired, e);
      AfterAppend(retired, e, cid);
    }
  }

  lemma {:induction false} InsertAllKeepsRecent(retired: Orders, ended: Orders, cid: ClientOrderId)
    requires Distinct(retired) && AllReduceOnly(retired) && |retired| <= 64
    requires Distinct(ended) && AllReduceOnly(ended)
    requires forall e :: e in ended ==> !Has(retired, e.key)
    requires Has(retired, cid) && After(retired, cid) + |ended| < 64
    ensures StillRetired(retired, InsertAll(retired, ended), cid, |ended|)
  {
    if ended != [] {
      var n := |ended| - 1;
      var before, e := ended[..n], ended[n];
      InsertAllKeepsRecent(retired, before, cid);
      InsertAllFacts(retired, before);
      HasIs(before, e.key);
      InsertKeepsRecent(InsertAll(retired, before), e, cid);
    }
  }

  lemma StepKeepsRecent(b: Book, op: Op, cid: ClientOrderId)
    requires b.Valid() && Has(b.retired, cid)
    requires !(op.Register? && op.cid == cid) && !op.Clear?
    requires After(b.retired, cid) + RetiredBy(b, op) < 64
    ensures StillRetired(b.retired, Step(b, op).retired, cid, RetiredBy(b, op))
  {
    match op
    case Register(c, _) =>
      RemoveFacts(b.retired, c);
      AfterRemove(b.retired, c, cid);
    case Acknowledge(c, v) =>
      UpdateFacts(b.retired, c, WithVenueId(v));
      AfterUpdate(b.retired, c, WithVenueId(v), cid);
    case Retire(c) =>
      if RetiredBy(b, op) == 1 {
        InsertKeepsRecent(b.retired, Entry(c, Get(b.live, c).value), cid);
      }
    case RetireUntracked(tracked) =>
      EndedFacts(b.live, tracked);
      InsertAllKeepsRecent(b.retired, Filter(b.live, IsEnded(tracked)), cid);
  }

  lemma {:induction false} RecentStaysRetired(b: Book, ops: seq<Op>, cid: ClientOrderId)
    requires b.Valid() && Has(b.retired, cid)
    requires forall op :: op in ops ==> !(op.Register? && op.cid == cid) && !op.Clear?
    requires After(b.retired, cid) + RetiredOver(b, ops) < 64
    ensures Has(RunOn(b, ops).retired, cid) && !Has(RunOn(b, ops).live, cid)
    ensures Get(RunOn(b, ops).retired, cid).value.reduceOnly
         == Get(b.retired, cid).value.reduceOnly
    decreases |ops|
  {
    if ops != [] {
      StepKeepsRecent(b, ops[0], cid);
      StepKeepsValid(b, ops[0]);
      RecentStaysRetired(Step(b, ops[0]), ops[1..], cid);
    }
  }

  /** `op` retires the live order `cid`. */
  predicate Ends(op: Op, cid: ClientOrderId) {
    || (op.Retire? && op.cid == cid)
    || (op.RetireUntracked? && !op.tracked(cid))
  }

  /** How many reduce-only orders the operation that retires `cid` retires after it. */
  function RetiredWithAfter(b: Book, op: Op, cid: ClientOrderId): nat {
    if op.RetireUntracked? then After(Filter(b.live, IsEnded(op.tracked)), cid) else 0
  }

  /**
   A reduce-only order that ended, by itself or in a bulk pass, is found with the flag it was sent
   with, whatever comes after, as long as fewer than 64 reduce-only orders end after it, in that pass
   or later, and its client order id is not reused: no number of ordinary orders pushes it out.
   */
  lemma RecentRetirementIsFound(
    b: Book, op: Op, cid: ClientOrderId, ops: seq<Op>, venueId: OrderId)
    requires b.Valid() && Has(b.live, cid) && Get(b.live, cid).value.reduceOnly != No
    requires Ends(op, cid)
    requires forall later :: later in ops ==> !(later.Register? && later.cid == cid) && !later.Clear?
    requires RetiredWithAfter(b, op, cid) + RetiredOver(Step(b, op), ops) < 64
    ensures Lookup(RunOn(Step(b, op), ops), Some(cid), venueId)
         == Some(Booked(cid, Get(b.live, cid).value.reduceOnly))
  {
    StepKeepsValid(b, op);
    match op
    case Retire(_) =>
      var e := Entry(cid, Get(b.live, cid).value);
      RetiredKeepsValid(b, cid);
      InsertRetiredFacts(b.retired, e);
      LastIsFound(Step(b, op).retired, e);
      RecentStaysRetired(Step(b, op), ops, cid);
    case RetireUntracked(tracked) =>
      EndedInPassIsRetired(b, tracked, cid);
      RecentStaysRetired(Step(b, op), ops, cid);
  }

  /** An order a bulk pass ends is retired by it, but for 64 that the pass ends after it. */
  lemma EndedInPassIsRetired(b: Book, tracked: ClientOrderId -> bool, cid: ClientOrderId)
    requires b.Valid() && Has(b.live, cid) && Get(b.live, cid).value.reduceOnly != No
    requires !tracked(cid)
    requires After(Filter(b.live, IsEnded(tracked)), cid) < 64
    ensures var ended, retired := Filter(b.live, IsEnded(tracked)),
                                  RetiredUntracked(b, tracked).retired;
            && Has(retired, cid)
            && Get(retired, cid).value.reduceOnly == Get(b.live, cid).value.reduceOnly
            && After(retired, cid) <= After(ended, cid)
  {
    var ended := Filter(b.live, IsEnded(tracked));
    EndedFacts(b.live, tracked);
    FilterGet(b.live, IsEnded(tracked), cid);
    var i := WhereHeld(ended, cid);
    InsertedInPassIsKept(b.retired, ended, i);
  }

  lemma InsertedInPassIsKept(retired: Orders, ended: Orders, i: nat)
    requires Distinct(retired) && AllReduceOnly(retired) && |retired| <= 64
    requires Distinct(ended) && AllReduceOnly(ended)
    requires forall x :: x in ended ==> !Has(retired, x.key)
    requires i < |ended| && |ended| - 1 - i < 64
    ensures var e, r := ended[i], InsertAll(retired, ended);
            && Has(r, e.key) && Get(r, e.key).value.reduceOnly == e.value.reduceOnly
            && After(r, e.key) <= |ended| - 1 - i
  {
    var before, e, later := ended[..i], ended[i], ended[i + 1..];
    assert ended == before + ([e] + later);
    PassSplits(retired, ended, i);
    InsertAllConcat(retired, before, [e] + later);
    InsertAllFront(InsertAll(retired, before), e, later);
    LaterInsertionsKeep(retired, before, e, later);
  }

  lemma {:induction false} InsertAllConcat(retired: Orders, a: Orders, b: Orders)
    ensures InsertAll(retired, a + b) == InsertAll(InsertAll(retired, a), b)
  {
    if b == [] {
      assert a + b == a;
    } else {
      var front, e := b[..|b| - 1], b[|b| - 1];
      InsertAllConcat(retired, a, front);
      assert front + [e] == b && a + front + [e] == a + b;
      InsertAllLast(retired, a + front, e);
      InsertAllLast(InsertAll(retired, a), front, e);
    }
  }

  lemma InsertAllLast(retired: Orders, ended: Orders, e: Entry<SentOrder>)
    ensures InsertAll(retired, ended + [e]) == InsertRetired(InsertAll(retired, ended), e)
  {
    assert (ended + [e])[..|ended + [e]| - 1] == ended;
  }

  /** Where `cid` is held, and how many orders come after it. */
  lemma {:induction false} WhereHeld(m: Orders, cid: ClientOrderId) returns (i: nat)
    requires Has(m, cid)
    ensures i < |m| && m[i] == Entry(cid, Get(m, cid).value)
    ensures After(m, cid) == |m| - 1 - i
  {
    if m[0].key == cid {
      i := 0;
    } else {
      i := WhereHeld(m[1..], cid);
      i := i + 1;
    }
  }

  /** The orders of one pass: none is held before it, and no two are the same. */
  ghost predicate PassParts(
    retired: Orders, before: Orders, e: Entry<SentOrder>, later: Orders)
  {
    && Distinct(before) && Distinct(later)
    && AllReduceOnly(before) && e.value.reduceOnly != No && AllReduceOnly(later)
    && !Has(before, e.key) && !Has(retired, e.key)
    && (forall x :: x in before ==> !Has(retired, x.key))
    && (forall x :: x in later ==> !Has(retired, x.key) && !Has(before, x.key) && x.key != e.key)
  }

  lemma PassSplits(retired: Orders, ended: Orders, i: nat)
    requires Distinct(ended) && AllReduceOnly(ended) && i < |ended|
    requires forall x :: x in ended ==> !Has(retired, x.key)
    ensures PassParts(retired, ended[..i], ended[i], ended[i + 1..])
  {
    var before, later := ended[..i], ended[i + 1..];
    HasIs(before, ended[i].key);
    forall x | x in later
      ensures !Has(retired, x.key) && !Has(before, x.key) && x.key != ended[i].key
    {
      HasIs(before, x.key);
      var j :| i < j < |ended| && ended[j] == x;
    }
  }

  /** Orders retired after one in a pass leave it retired while there is room for them all. */
  lemma LaterInsertionsKeep(
    retired: Orders, before: Orders, e: Entry<SentOrder>, later: Orders)
    requires Distinct(retired) && AllReduceOnly(retired) && |retired| <= 64
    requires PassParts(retired, before, e, later)
    requires |later| < 64
    ensures var r := InsertAll(InsertRetired(InsertAll(retired, before), e), later);
            && Has(r, e.key) && Get(r, e.key).value.reduceOnly == e.value.reduceOnly
            && After(r, e.key) <= |later|
  {
    InsertAllFacts(retired, before);
    var held := InsertRetired(InsertAll(retired, before), e);
    InsertRetiredFacts(InsertAll(retired, before), e);
    LastIsFound(held, e);
    InsertAllKeepsRecent(held, later, e.key);
  }

  lemma {:induction false} LastIsFound(m: Orders, e: Entry<SentOrder>)
    requires Distinct(m) && m != [] && m[|m| - 1] == e
    ensures Get(m, e.key) == Some(e.value) && After(m, e.key) == 0
  {
    if |m| > 1 {
      LastIsFound(m[1..], e);
    }
  }
}
