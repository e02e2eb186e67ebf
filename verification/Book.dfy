/**
Order books (ironsbe-marketdata/src/book.rs): price levels per side, absolute updates, snapshots.
*/
module Book {
  import opened Bytes

  datatype Side = Bid | Ask

  datatype PriceLevel = PriceLevel(price: int, quantity: nat, orderCount: nat)

  /** One side of a book, keyed by price. */
  type Levels = map<int, PriceLevel>

  datatype BookUpdate = BookUpdate(
    instrument: nat, seqNum: nat, side: Side, price: int, quantity: nat, orderCount: nat)

  datatype BookSnapshot = BookSnapshot(
    instrument: nat, seqNum: nat, bids: seq<PriceLevel>, asks: seq<PriceLevel>)

  /** The contents of a book: what an `OrderBook` holds at one moment. */
  datatype Contents = Contents(bids: Levels, asks: Levels, lastSeq: nat)

  const Empty := Contents(map[], map[], 0)

  /** `BookSide::update`: set a level, or delete it when the quantity is zero. */
  function SetLevel(levels: Levels, price: int, quantity: nat, orderCount: nat): Levels {
    if quantity == 0 then levels - {price}
    else levels[price := PriceLevel(price, quantity, orderCount)]
  }

  function ApplyUpdate(b: Contents, u: BookUpdate): Contents {
    match u.side
    case Bid => b.(bids := SetLevel(b.bids, u.price, u.quantity, u.orderCount), lastSeq := u.seqNum)
    case Ask => b.(asks := SetLevel(b.asks, u.price, u.quantity, u.orderCount), lastSeq := u.seqNum)
  }

  /** Applying updates one after the other. */
  function ApplyAll(b: Contents, us: seq<BookUpdate>): Contents {
    if us == [] then b else ApplyUpdate(ApplyAll(b, us[..|us| - 1]), us[|us| - 1])
  }

  lemma ApplyAllSnoc(b: Contents, us: seq<BookUpdate>, u: BookUpdate)
    ensures ApplyAll(b, us + [u]) == ApplyUpdate(ApplyAll(b, us), u)
  {
    assert (us + [u])[..|us|] == us;
  }

  /** The side that a list of snapshot levels describes. */
  function LevelsOf(ls: seq<PriceLevel>): Levels {
    if ls == [] then map[]
    else
      var l := ls[|ls| - 1];
      SetLevel(LevelsOf(ls[..|ls| - 1]), l.price, l.quantity, l.orderCount)
  }

  function SnapshotContents(s: BookSnapshot): Contents {
    Contents(LevelsOf(s.bids), LevelsOf(s.asks), s.seqNum)
  }

  // ----- Reading a book level by level -----

  /** What is at one price of one side. */
  function Lookup(b: Contents, side: Side, price: int): Option<PriceLevel> {
    var levels := if side == Bid then b.bids else b.asks;
    if price in levels then Some(levels[price]) else None
  }

  predicate Touches(u: BookUpdate, side: Side, price: int) {
    u.side == side && u.price == price
  }

  /** What an update leaves at the price it touches, whatever was there before. */
  function Effect(u: BookUpdate): Option<PriceLevel> {
    if u.quantity == 0 then None else Some(PriceLevel(u.price, u.quantity, u.orderCount))
  }

  /** Updates are absolute: the last one to touch a price decides what is there. */
  lemma LookupAfter(b: Contents, u: BookUpdate, side: Side, price: int)
    ensures Lookup(ApplyUpdate(b, u), side, price)
            == if Touches(u, side, price) then Effect(u) else Lookup(b, side, price)
  {
  }

  /** Books that agree at every price, and on the sequence number, are equal. */
  lemma SameContents(a: Contents, b: Contents)
    requires a.lastSeq == b.lastSeq
    requires forall side, price :: Lookup(a, side, price) == Lookup(b, side, price)
    ensures a == b
  {
    SameLevels(a, b, Bid);
    SameLevels(a, b, Ask);
  }

  lemma SameLevels(a: Contents, b: Contents, side: Side)
    requires forall price :: Lookup(a, side, price) == Lookup(b, side, price)
    ensures if side == Bid then a.bids == b.bids else a.asks == b.asks
  {
    var x := if side == Bid then a.bids else a.asks;
    var y := if side == Bid then b.bids else b.asks;
    forall p: int
      ensures p in x <==> p in y
      ensures p in x ==> x[p] == y[p]
    {
      assert Lookup(a, side, p) == Lookup(b, side, p);
    }
    assert x == y;
  }

  /** A key always names the level's own price, and no stored level is empty. */
  predicate WellFormed(levels: Levels) {
    forall p :: p in levels ==> levels[p].price == p && levels[p].quantity > 0
  }

  /** A snapshot leaves no empty level and files every level under its own price, whatever it lists. */
  lemma SnapshotWellFormed(s: BookSnapshot)
    ensures WellFormed(SnapshotContents(s).bids) && WellFormed(SnapshotContents(s).asks)
  {
    LevelsOfWellFormed(s.bids);
    LevelsOfWellFormed(s.asks);
  }

  lemma {:induction false} LevelsOfWellFormed(ls: seq<PriceLevel>)
    ensures WellFormed(LevelsOf(ls))
  {
    if ls != [] {
      LevelsOfWellFormed(ls[..|ls| - 1]);
    }
  }

  lemma UpdateWellFormed(b: Contents, u: BookUpdate)
    requires WellFormed(b.bids) && WellFormed(b.asks)
    ensures WellFormed(ApplyUpdate(b, u).bids) && WellFormed(ApplyUpdate(b, u).asks)
  {
  }

  lemma {:induction false} ApplyAllWellFormed(b: Contents, us: seq<BookUpdate>)
    requires WellFormed(b.bids) && WellFormed(b.asks)
    ensures WellFormed(ApplyAll(b, us).bids) && WellFormed(ApplyAll(b, us).asks)
  {
    if us != [] {
      ApplyAllWellFormed(b, us[..|us| - 1]);
    }
  }

  // ----- The best price -----

  predicate IsBest(levels: Levels, isBid: bool, p: int) {
    p in levels && forall q :: q in levels ==> AsGood(isBid, p, q)
  }

  /** The price at the top of a side. */
  ghost function BestPrice(levels: Levels, isBid: bool): (best: Option<int>)
    ensures best.None? <==> levels == map[]
    ensures best.Some? ==> IsBest(levels, isBid, best.value)
  {
    if levels == map[] then None
    else
      BestExists(levels, isBid);
      var p :| IsBest(levels, isBid, p);
      Some(p)
  }

  lemma BestExists(levels: Levels, isBid: bool)
    requires levels != map[]
    ensures exists p :: IsBest(levels, isBid, p)
  {
    var p := ExtremeExists(levels.Keys, isBid);
    assert IsBest(levels, isBid, p);
  }

  /** `p` is at least as good a price as `q`. */
  predicate AsGood(isBid: bool, p: int, q: int) {
    if isBid then q <= p else p <= q
  }

  lemma {:induction false} ExtremeExists(prices: set<int>, isBid: bool) returns (p: int)
    requires prices != {}
    ensures p in prices && forall q :: q in prices ==> AsGood(isBid, p, q)
  {
    var x := Member(prices);
    var rest := prices - {x};
    p := x;
    if rest != {} {
      var y := ExtremeExists(rest, isBid);
      p := if AsGood(isBid, x, y) then x else y;
    }
    forall q | q in prices
      ensures AsGood(isBid, p, q)
    {
      assert q == x || q in rest;
    }
  }

  /** `OrderBook`. */
  class OrderBook {
    const instrument: nat
    var bids: Levels
    var asks: Levels
    var lastSeq: nat

    constructor (id: nat)
      ensures instrument == id && Value() == Empty
    {
      instrument := id;
      bids, asks, lastSeq := map[], map[], 0;
    }

    ghost function Value(): Contents
      reads this
    {
      Contents(bids, asks, lastSeq)
    }

    /** `BookSide::top` on either side. */
    method Top(isBid: bool) returns (best: Option<int>)
      ensures best == BestPrice(if isBid then bids else asks, isBid)
    {
      var levels := if isBid then bids else asks;
      var todo := levels.Keys;
      best := None;
      while todo != {}
        invariant todo <= levels.Keys
        invariant best.None? <==> todo == levels.Keys
        invariant best.Some? ==> best.value in levels
        invariant best.Some? ==>
                    forall q :: q in levels && q !in todo ==> AsGood(isBid, best.value, q)
        decreases todo
      {
        ghost var w := Member(todo);
        var p :| p in todo;
        todo := todo - {p};
        if best.None? || (if isBid then best.value < p else p < best.value) {
          best := Some(p);
        }
      }
      assert best.Some? ==> IsBest(levels, isBid, best.value);
    }

    method Apply(u: BookUpdate)
      modifies this
      ensures Value() == ApplyUpdate(old(Value()), u)
    {
      match u.side {
        case Bid => bids := SetLevel(bids, u.price, u.quantity, u.orderCount);
        case Ask => asks := SetLevel(asks, u.price, u.quantity, u.orderCount);
      }
      lastSeq := u.seqNum;
    }

    /** Replaces the whole book: nothing of the old contents survives. */
    method ApplySnapshot(s: BookSnapshot)
      modifies this
      ensures Value() == SnapshotContents(s)
    {
      bids, asks := map[], map[];
      for i := 0 to |s.bids|
        invariant bids == LevelsOf(s.bids[..i]) && asks == map[]
      {
        assert s.bids[..i + 1][..i] == s.bids[..i];
        bids := SetLevel(bids, s.bids[i].price, s.bids[i].quantity, s.bids[i].orderCount);
      }
      assert s.bids[..|s.bids|] == s.bids;
      for i := 0 to |s.asks|
        invariant bids == LevelsOf(s.bids) && asks == LevelsOf(s.asks[..i])
      {
        assert s.asks[..i + 1][..i] == s.asks[..i];
        asks := SetLevel(asks, s.asks[i].price, s.asks[i].quantity, s.asks[i].orderCount);
      }
      assert s.asks[..|s.asks|] == s.asks;
      lastSeq := s.seqNum;
    }
  }
}
