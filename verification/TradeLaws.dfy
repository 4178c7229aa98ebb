/** What one order does to the book and to the tape of trades, read off the state
    before it (`Book::execute` in demo/gateway/src/lighter_sim.rs:114-240). */
module TradeLaws {
  import opened Wrappers
  import opened OrderBook
  import opened BookLaws

  /** The trade is with the maker, at the maker's price, for the taker's order. */
  predicate TradeWith(t: Trade, maker: Order, taker: Account, tx: Tx, at: Place)
    requires tx.Create?
  {
    && t.price == maker.price && t.maker == maker.account && t.makerCoi == maker.coi
    && t.taker == taker && t.takerCoi == tx.coi && t.takerSide == tx.side
    && t.tick == at.tick && t.pos == at.pos && t.block == at.block
  }

  /** A price the taker asked for: any for a market order, otherwise no worse than its
      limit. */
  predicate WithinLimit(tx: Tx, price: nat)
    requires tx.Create?
  {
    tx.kind != Market ==> if tx.side == Bid then price <= tx.price else price >= tx.price
  }

  lemma CrossesIsWithinLimit(tx: Tx, price: nat)
    requires tx.Create?
    ensures Crosses(tx.side, tx.kind, tx.price, price) <==> WithinLimit(tx, price)
  {}

  /** An accepted order trades with the opposite orders one after the other from the
      best, at their prices and within its limit, taking all of each but possibly the
      last; the last price is remembered. */
  lemma TradesTakeTheBest(b: BookState, account: Account, tx: Tx, at: Place)
    requires Inv(b) && tx.Create? && Execute(b, account, tx, at).1.Applied?
    ensures var (b', r) := Execute(b, account, tx, at);
            var makers := OppositeOrders(b, tx.side);
            && |r.trades| <= |makers|
            && (forall k | 0 <= k < |r.trades| ::
                  && TradeWith(r.trades[k], makers[k], account, tx, at) && WithinLimit(tx, r.trades[k].price)
                  && 0 < r.trades[k].size <= makers[k].size
                  && (k < |r.trades| - 1 ==> r.trades[k].size == makers[k].size))
            && b'.lastTradePrice
               == if r.trades == [] then b.lastTradePrice else Some(r.trades[|r.trades| - 1].price)
  {
    SidePositive(b, tx.side);
    TradesOfFills(b, account, tx, at);
    hide Inv;
    hide Execute;
    hide Match;
    var makers, fills := OppositeOrders(b, tx.side), MatchOf(b, tx, tx.size).fills;
    MatchIsPriorityFill(makers, tx.side, tx.kind, tx.price, tx.size);
    FillsTakeTheBest(makers, tx, fills);
    hide PriorityFill;
  }

  lemma TradesOfFills(b: BookState, account: Account, tx: Tx, at: Place)
    requires tx.Create? && Execute(b, account, tx, at).1.Applied?
    ensures var (b', r) := Execute(b, account, tx, at);
            var fills := MatchOf(b, tx, tx.size).fills;
            r.trades == TradesOf(fills, account, tx, at) && b'.lastTradePrice == LastPrice(fills, b.lastTradePrice)
  {
    hide Match;
    hide Insert;
  }

  lemma FillsTakeTheBest(makers: seq<Order>, tx: Tx, fills: seq<Fill>)
    requires tx.Create? && TakesPrefix(makers, tx.side, tx.kind, tx.price, fills)
    ensures |fills| <= |makers|
    ensures forall k | 0 <= k < |fills| ::
              && fills[k].maker == makers[k] && WithinLimit(tx, makers[k].price)
              && 0 < fills[k].size <= makers[k].size && (k < |fills| - 1 ==> fills[k].size == makers[k].size)
  {
    forall k | 0 <= k < |fills|
      ensures fills[k].maker == makers[k] && WithinLimit(tx, makers[k].price)
      ensures 0 < fills[k].size <= makers[k].size && (k < |fills| - 1 ==> fills[k].size == makers[k].size)
    {
      assert FillAt(makers, tx.side, tx.kind, tx.price, fills, k);
      CrossesIsWithinLimit(tx, makers[k].price);
    }
  }

  lemma SidePositive(b: BookState, side: Side)
    requires Inv(b)
    ensures Positive(OppositeOrders(b, side))
  {}

  /** What the trades leave of the opposite side: the orders behind them untouched,
      and the last maker reduced if it was not used up. */
  function AfterTrades(makers: seq<Order>, trades: seq<Trade>): seq<Order>
    requires |trades| <= |makers|
  {
    var k := |trades|;
    if k > 0 && trades[k - 1].size < makers[k - 1].size then
      [makers[k - 1].(size := makers[k - 1].size - trades[k - 1].size)] + makers[k..]
    else makers[k..]
  }

  function OwnOrders(b: BookState, side: Side): seq<Order> {
    OppositeOrders(b, Opposite(side))
  }

  /** The whole effect of an accepted order: the opposite side is what the trades
      leave, the own side gains exactly the remainder of a limit order, one nonce is
      used, and a remainder means that nothing is left within the limit. */
  lemma OrderEffect(b: BookState, account: Account, tx: Tx, at: Place)
    requires Inv(b) && tx.Create? && Execute(b, account, tx, at).1.Applied?
    ensures var (b', r) := Execute(b, account, tx, at);
            var makers, rest, nonce := OppositeOrders(b, tx.side), tx.size - TradedSize(r.trades), OwnNonce(b, tx.side);
            && |r.trades| <= |makers| && OppositeOrders(b', tx.side) == AfterTrades(makers, r.trades)
            && 0 <= rest && r.orderNonce == Some(nonce)
            && OwnNonce(b', tx.side) == nonce + 1
            && OwnNonce(b', Opposite(tx.side)) == OwnNonce(b, Opposite(tx.side))
            && r.rested == (if rest > 0 && tx.kind == Limit
                            then Some(Order(account, tx.coi, tx.side, tx.price, rest, nonce)) else None)
            && (forall o :: o in OwnOrders(b', tx.side) <==> o in OwnOrders(b, tx.side) || r.rested == Some(o))
            && (r.rested == None ==> OwnOrders(b', tx.side) == OwnOrders(b, tx.side))
            && (rest > 0 ==> var left := OppositeOrders(b', tx.side); left == [] || !WithinLimit(tx, left[0].price))
  {
    hide Inv;
    hide Match;
    hide Insert;
    hide Volume;
    hide TradedSize;
    hide PriorityFill;
    TradesTakeTheBest(b, account, tx, at);
    RemainingAfter(b, account, tx, at);
    OppositeAfter(b, account, tx, at);
    OwnAfter(b, account, tx, at);
  }

  lemma RemainingAfter(b: BookState, account: Account, tx: Tx, at: Place)
    requires Inv(b) && tx.Create? && Execute(b, account, tx, at).1.Applied?
    ensures var m, trades := MatchOf(b, tx, tx.size), Execute(b, account, tx, at).1.trades;
            && tx.size == TradedSize(trades) + m.remaining
            && trades == TradesOf(m.fills, account, tx, at)
            && (m.remaining > 0 ==> m.left == [] || !WithinLimit(tx, m.left[0].price))
  {
    hide Inv;
    hide Insert;
    hide Match;
    var m := MatchOf(b, tx, tx.size);
    TradedIsFilled(m.fills, account, tx, at);
    VolumeConserved(OppositeOrders(b, tx.side), tx.side, tx.kind, tx.price, tx.size);
    if m.remaining > 0 {
      RemainderDoesNotCross(b, tx);
      if m.left != [] {
        CrossesIsWithinLimit(tx, m.left[0].price);
      }
    }
  }

  lemma OppositeAfter(b: BookState, account: Account, tx: Tx, at: Place)
    requires Inv(b) && tx.Create? && Execute(b, account, tx, at).1.Applied?
    ensures var (b', r) := Execute(b, account, tx, at);
            var makers := OppositeOrders(b, tx.side);
            && |r.trades| <= |makers|
            && OppositeOrders(b', tx.side) == MatchOf(b, tx, tx.size).left == AfterTrades(makers, r.trades)
            && OwnNonce(b', Opposite(tx.side)) == OwnNonce(b, Opposite(tx.side))
  {
    hide Inv;
    hide Insert;
    hide Match;
    SidePositive(b, tx.side);
    MatchIsPriorityFill(OppositeOrders(b, tx.side), tx.side, tx.kind, tx.price, tx.size);
    hide TakesPrefix;
    hide Filled;
    assert TakesPrefix(OppositeOrders(b, tx.side), tx.side, tx.kind, tx.price, MatchOf(b, tx, tx.size).fills);
    FillsWithin(OppositeOrders(b, tx.side), tx.side, tx.kind, tx.price, MatchOf(b, tx, tx.size).fills);
  }

  lemma FillsWithin(opposite: seq<Order>, side: Side, kind: OrderKind, price: nat, fills: seq<Fill>)
    requires TakesPrefix(opposite, side, kind, price, fills)
    ensures |fills| <= |opposite|
  {}

  lemma OwnAfter(b: BookState, account: Account, tx: Tx, at: Place)
    requires Inv(b) && tx.Create? && Execute(b, account, tx, at).1.Applied?
    ensures var (b', r) := Execute(b, account, tx, at);
            var rest, nonce := MatchOf(b, tx, tx.size).remaining, OwnNonce(b, tx.side);
            && r.orderNonce == Some(nonce) && OwnNonce(b', tx.side) == nonce + 1
            && r.rested == (if rest > 0 && tx.kind == Limit
                            then Some(Order(account, tx.coi, tx.side, tx.price, rest, nonce)) else None)
            && (forall o :: o in OwnOrders(b', tx.side) <==> o in OwnOrders(b, tx.side) || r.rested == Some(o))
            && (r.rested == None ==> OwnOrders(b', tx.side) == OwnOrders(b, tx.side))
  {
    hide Inv;
    hide Match;
    var rest, nonce := MatchOf(b, tx, tx.size).remaining, OwnNonce(b, tx.side);
    if rest > 0 && tx.kind == Limit {
      OwnSideOk(b, tx.side);
      InsertKeepsSide(tx.side, Order(account, tx.coi, tx.side, tx.price, rest, nonce), OwnOrders(b, tx.side), nonce);
    }
    hide Insert;
    hide SideOk;
  }

  lemma OwnSideOk(b: BookState, side: Side)
    requires Inv(b)
    ensures SideOk(side, OwnOrders(b, side), OwnNonce(b, side))
  {}

  /** A cancel takes its order off the book, draws no nonce and trades nothing. */
  lemma CancelEffect(b: BookState, account: Account, market: nat, coi: nat, at: Place) returns (o: Order)
    requires Inv(b) && Execute(b, account, Cancel(market, coi), at).1.Applied?
    ensures Resting(b, o) && o.account == account && o.coi == coi
    ensures var (b', r) := Execute(b, account, Cancel(market, coi), at);
            && r == Applied([], None, Some(o.nonce)) && b'.lastTradePrice == b.lastTradePrice
            && b'.nextAskNonce == b.nextAskNonce && b'.nextBidNonce == b.nextBidNonce
            && forall x :: Resting(b', x) <==> Resting(b, x) && x != o
  {
    o := CancelRemovesOne(b, account, market, coi, at);
  }

  /** A client key is taken exactly while its order rests: a new order under it is
      refused as in use, and a cancel finds it. */
  lemma KeyInUseIff(b: BookState, account: Account, market: nat, coi: nat, tx: Tx, at: Place)
    requires Inv(b) && tx.Create? && tx.coi == coi && tx.size > 0 && (tx.kind == Limit ==> tx.price > 0)
    ensures var used := exists o :: Resting(b, o) && o.account == account && o.coi == coi;
            && (used <==> Execute(b, account, Cancel(market, coi), at).1.Applied?)
            && (used <==> Execute(b, account, tx, at).1 == Failed("client order index in use"))
            && (!used <==> Execute(b, account, tx, at).1.Applied?)
  {
    if o :| Resting(b, o) && o.account == account && o.coi == coi {
      assert ClientKeyOf(o) in b.index;
    }
    if (account, coi) in b.index {
      var o :| Resting(b, o) && ClientKeyOf(o) == (account, coi);
    }
  }

  /** A failure names its cause, the first that applies. */
  lemma FailureNamesItsCause(b: BookState, account: Account, tx: Tx, at: Place)
    requires Execute(b, account, tx, at).1.Failed?
    ensures var reason := Execute(b, account, tx, at).1.reason;
            && (reason == "unknown or inactive order" <==> tx.Cancel?)
            && (reason == "zero size" <==> tx.Create? && tx.size == 0)
            && (reason == "zero price on limit" <==> tx.Create? && tx.size > 0 && tx.kind == Limit && tx.price == 0)
            && (reason == "client order index in use"
                <==> tx.Create? && tx.size > 0 && (tx.kind == Limit ==> tx.price > 0) && (account, tx.coi) in b.index)
  {
    assert |"zero size"| == 9 && |"zero price on limit"| == 19;
    assert |"client order index in use"| == 25 && |"unknown or inactive order"| == 25;
    assert "client order index in use"[0] != "unknown or inactive order"[0];
  }

  /** Makers stand in price and then time order: a better price first, and among equal
      prices the older nonce. */
  lemma MakersInPriceTimeOrder(b: BookState, i: nat, j: nat)
    requires Inv(b)
    ensures i < j < |b.asks| ==>
              b.asks[i].price < b.asks[j].price
              || (b.asks[i].price == b.asks[j].price && b.asks[i].nonce < b.asks[j].nonce)
    ensures i < j < |b.bids| ==>
              b.bids[i].price > b.bids[j].price
              || (b.bids[i].price == b.bids[j].price && b.bids[i].nonce < b.bids[j].nonce)
  {}

  /** Nonces are handed out in order, so among resting orders of a side the older nonce
      is the older order: a new one rests with a nonce above all. */
  lemma NewestHasLargestNonce(b: BookState, account: Account, tx: Tx, at: Place)
    requires Inv(b) && tx.Create? && Execute(b, account, tx, at).1.Applied?
    requires Execute(b, account, tx, at).1.rested.Some?
    ensures forall o | o in OwnOrders(b, tx.side) :: o.nonce < Execute(b, account, tx, at).1.rested.value.nonce
  {
    OrderEffect(b, account, tx, at);
    OwnSideOk(b, tx.side);
    hide Execute;
    hide Inv;
  }
}
