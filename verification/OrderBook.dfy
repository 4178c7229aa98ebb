/** The price-time order book of the simulator
    (`Book` in demo/gateway/src/lighter_sim.rs). Each side is an ordered map; it
    is kept here as the sequence of its entries in key order. */
module OrderBook {
  import opened Wrappers

  type Account = nat

  datatype Side = Bid | Ask

  datatype OrderKind = Limit | Market | Ioc

  datatype Tx =
    | Create(market: nat, side: Side, kind: OrderKind, price: nat, size: nat, coi: nat)
    | Cancel(market: nat, coi: nat)

  datatype Order = Order(account: Account, coi: nat, side: Side, price: nat, size: nat, nonce: nat)

  datatype Trade = Trade(tick: nat, pos: nat, price: nat, size: nat, maker: Account, taker: Account,
                         makerCoi: nat, takerCoi: nat, takerSide: Side, block: nat)

  datatype ExecResult =
    | Applied(trades: seq<Trade>, rested: Option<Order>, orderNonce: Option<nat>)
    | Failed(reason: string)

  /** Where an executed transaction stands on the tape. */
  datatype Place = Place(tick: nat, pos: nat, block: nat)

  type ClientKey = (Account, nat)

  datatype BookState = BookState(
    asks: seq<Order>, bids: seq<Order>, nextAskNonce: nat, nextBidNonce: nat,
    index: map<ClientKey, (Side, nat, nat)>, lastTradePrice: Option<nat>)

  const EMPTY: BookState := BookState([], [], 0, 0, map[], None)

  function ClientKeyOf(o: Order): ClientKey { (o.account, o.coi) }

  function Opposite(side: Side): Side { if side.Bid? then Ask else Bid }

  // ----- ordered maps

  /** Key order: asks by rising price, bids by falling price, then by nonce. */
  predicate Before(side: Side, a: Order, b: Order) {
    || (if side.Ask? then a.price < b.price else a.price > b.price)
    || (a.price == b.price && a.nonce < b.nonce)
  }

  predicate SameKey(o: Order, price: nat, nonce: nat) {
    o.price == price && o.nonce == nonce
  }

  function Insert(side: Side, o: Order, s: seq<Order>): seq<Order> {
    if s == [] then [o]
    else if SameKey(s[0], o.price, o.nonce) then [o] + s[1..]
    else if Before(side, o, s[0]) then [o] + s
    else [s[0]] + Insert(side, o, s[1..])
  }

  function Remove(price: nat, nonce: nat, s: seq<Order>): seq<Order> {
    if s == [] then []
    else if SameKey(s[0], price, nonce) then s[1..]
    else [s[0]] + Remove(price, nonce, s[1..])
  }

  // ----- matching

  predicate Crosses(side: Side, kind: OrderKind, price: nat, makerPrice: nat) {
    kind.Market? || (if side.Bid? then makerPrice <= price else makerPrice >= price)
  }

  /** A maker, as it stood before the fill, and the size taken from it. */
  datatype Fill = Fill(maker: Order, size: nat)

  datatype MatchResult = MatchResult(fills: seq<Fill>, left: seq<Order>, remaining: nat)

  function Min(a: nat, b: nat): nat { if a <= b then a else b }

  /** What the matching loop computes. */
  function Match(opposite: seq<Order>, side: Side, kind: OrderKind, price: nat, remaining: nat): MatchResult {
    if remaining == 0 || opposite == [] || !Crosses(side, kind, price, opposite[0].price)
    then MatchResult([], opposite, remaining)
    else
      var maker := opposite[0];
      var fill := Min(remaining, maker.size);
      if fill == maker.size then
        var rest := Match(opposite[1..], side, kind, price, remaining - fill);
        MatchResult([Fill(maker, fill)] + rest.fills, rest.left, rest.remaining)
      else
        MatchResult([Fill(maker, fill)], [maker.(size := maker.size - fill)] + opposite[1..], 0)
  }

  /** The client keys of the makers a match consumed entirely. */
  function DoneKeys(fills: seq<Fill>): set<ClientKey> {
    set f | f in fills && f.size == f.maker.size :: ClientKeyOf(f.maker)
  }

  function LastPrice(fills: seq<Fill>, before: Option<nat>): Option<nat> {
    if fills == [] then before else Some(fills[|fills| - 1].maker.price)
  }

  function TradeOf(f: Fill, taker: Account, tx: Tx, at: Place): Trade
    requires tx.Create?
  {
    Trade(at.tick, at.pos, f.maker.price, f.size, f.maker.account, taker, f.maker.coi, tx.coi, tx.side, at.block)
  }

  function TradesOf(fills: seq<Fill>, taker: Account, tx: Tx, at: Place): (trades: seq<Trade>)
    requires tx.Create?
    ensures |trades| == |fills|
  {
    seq(|fills|, i requires 0 <= i < |fills| => TradeOf(fills[i], taker, tx, at))
  }

  // ----- one transaction

  function OppositeOrders(b: BookState, side: Side): seq<Order> {
    if side.Bid? then b.asks else b.bids
  }

  function OwnNonce(b: BookState, side: Side): nat {
    if side.Bid? then b.nextBidNonce else b.nextAskNonce
  }

  function TakeNonce(b: BookState, side: Side): BookState {
    if side.Bid? then b.(nextBidNonce := b.nextBidNonce + 1) else b.(nextAskNonce := b.nextAskNonce + 1)
  }

  function AfterMatch(b: BookState, side: Side, m: MatchResult): BookState {
    var b' := b.(index := b.index - DoneKeys(m.fills), lastTradePrice := LastPrice(m.fills, b.lastTradePrice));
    if side.Bid? then b'.(asks := m.left) else b'.(bids := m.left)
  }

  function Rest(b: BookState, o: Order): BookState {
    var b' := b.(index := b.index[ClientKeyOf(o) := (o.side, o.price, o.nonce)]);
    if o.side.Ask? then b'.(asks := Insert(Ask, o, b.asks)) else b'.(bids := Insert(Bid, o, b.bids))
  }

  /** The reason a creation is refused, if it is. */
  function Refusal(b: BookState, account: Account, tx: Tx): Option<string>
    requires tx.Create?
  {
    if tx.size == 0 then Some("zero size")
    else if tx.kind.Limit? && tx.price == 0 then Some("zero price on limit")
    else if (account, tx.coi) in b.index then Some("client order index in use")
    else None
  }

  function Execute(b: BookState, account: Account, tx: Tx, at: Place): (BookState, ExecResult) {
    match tx
    case Cancel(_, coi) =>
      if (account, coi) !in b.index then (b, Failed("unknown or inactive order"))
      else
        var (side, price, nonce) := b.index[(account, coi)];
        var b' := b.(index := b.index - {(account, coi)});
        (if side.Ask? then b'.(asks := Remove(price, nonce, b.asks)) else b'.(bids := Remove(price, nonce, b.bids)),
         Applied([], None, Some(nonce)))
    case Create(_, side, kind, price, size, coi) =>
      var refusal := Refusal(b, account, tx);
      if refusal.Some? then (b, Failed(refusal.value))
      else PlaceOrder(b, account, tx, at)
  }

  /** An accepted creation: draw a nonce, match, rest what remains of a limit
      order. */
  function PlaceOrder(b: BookState, account: Account, tx: Tx, at: Place): (BookState, ExecResult)
    requires tx.Create?
  {
    var m := MatchOf(b, tx, tx.size);
    var nonce := OwnNonce(b, tx.side);
    var b' := AfterMatch(TakeNonce(b, tx.side), tx.side, m);
    var trades := TradesOf(m.fills, account, tx, at);
    if m.remaining > 0 && tx.kind.Limit? then
      var o := Order(account, tx.coi, tx.side, tx.price, m.remaining, nonce);
      (Rest(b', o), Applied(trades, Some(o), Some(nonce)))
    else (b', Applied(trades, None, Some(nonce)))
  }

  function MatchOf(b: BookState, tx: Tx, remaining: nat): MatchResult
    requires tx.Create?
  {
    Match(OppositeOrders(b, tx.side), tx.side, tx.kind, tx.price, remaining)
  }

  // ----- the class

  class Book {
    var asks: seq<Order>
    var bids: seq<Order>
    var nextAskNonce: nat
    var nextBidNonce: nat
    var index: map<ClientKey, (Side, nat, nat)>
    var lastTradePrice: Option<nat>

    constructor ()
      ensures State() == EMPTY
    {
      asks, bids, nextAskNonce, nextBidNonce, index, lastTradePrice := [], [], 0, 0, map[], None;
    }

    function State(): BookState
      reads this
    {
      BookState(asks, bids, nextAskNonce, nextBidNonce, index, lastTradePrice)
    }

    method ExecuteTx(account: Account, tx: Tx, at: Place) returns (result: ExecResult)
      modifies this
      ensures (State(), result) == Execute(old(State()), account, tx, at)
    {
      match tx {
        case Cancel(_, coi) =>
          if (account, coi) !in index {
            return Failed("unknown or inactive order");
          }
          var (side, price, nonce) := index[(account, coi)];
          index := index - {(account, coi)};
          if side.Ask? {
            asks := Remove(price, nonce, asks);
          } else {
            bids := Remove(price, nonce, bids);
          }
          result := Applied([], None, Some(nonce));
        case Create(_, side, kind, price, size, coi) =>
          if size == 0 {
            return Failed("zero size");
          }
          if kind.Limit? && price == 0 {
            return Failed("zero price on limit");
          }
          if (account, coi) in index {
            return Failed("client order index in use");
          }
          var nonce;
          if side.Ask? {
            nonce := nextAskNonce;
            nextAskNonce := nextAskNonce + 1;
          } else {
            nonce := nextBidNonce;
            nextBidNonce := nextBidNonce + 1;
          }
          var remaining, trades := Cross(account, tx, at);
          var rested := None;
          if remaining > 0 && kind.Limit? {
            var o := Order(account, coi, side, price, remaining, nonce);
            if side.Ask? {
              asks := Insert(Ask, o, asks);
            } else {
              bids := Insert(Bid, o, bids);
            }
            index := index[(account, coi) := (side, price, nonce)];
            rested := Some(o);
          }
          result := Applied(trades, rested, Some(nonce));
      }
    }

    /** The matching loop: consume the best opposite order until the taker is
        filled or nothing crosses. */
    method Cross(account: Account, tx: Tx, at: Place) returns (remaining: nat, trades: seq<Trade>)
      requires tx.Create?
      modifies this
      ensures var m := MatchOf(old(State()), tx, tx.size);
              && State() == AfterMatch(old(State()), tx.side, m)
              && remaining == m.remaining
              && trades == TradesOf(m.fills, account, tx, at)
    {
      remaining, trades := tx.size, [];
      ghost var fills: seq<Fill> := [];
      ghost var start := State();
      CrossingStart(start, account, tx, at);
      while remaining > 0
        invariant Crossing(start, State(), account, tx, at, fills, remaining, trades)
        decreases |OppositeOrders(State(), tx.side)| + remaining
      {
        var opposite := if tx.side.Bid? then asks else bids;
        if opposite == [] || !Crosses(tx.side, tx.kind, tx.price, opposite[0].price) {
          break;
        }
        CrossingStep(start, State(), account, tx, at, fills, remaining, trades);
        ghost var next := FillBest(State(), tx.side, remaining);
        var maker := opposite[0];
        var fill := Min(remaining, maker.size);
        var makerDone := fill == maker.size;
        remaining := remaining - fill;
        trades := trades + [TradeOf(Fill(maker, fill), account, tx, at)];
        lastTradePrice := Some(maker.price);
        opposite := if makerDone then opposite[1..] else opposite[0 := maker.(size := maker.size - fill)];
        if tx.side.Bid? {
          asks := opposite;
        } else {
          bids := opposite;
        }
        if makerDone {
          index := index - {ClientKeyOf(maker)};
        }
        assert State() == next;
        fills := fills + [Fill(maker, fill)];
      }
      CrossingEnd(start, State(), account, tx, at, fills, remaining, trades);
    }
  }

  /** The whole match is the fills so far followed by the match of what is left. */
  ghost predicate MatchSplit(whole: MatchResult, fills: seq<Fill>, rest: MatchResult) {
    whole == MatchResult(fills + rest.fills, rest.left, rest.remaining)
  }

  lemma MatchSplitStart(whole: MatchResult)
    ensures MatchSplit(whole, [], whole)
  {
    assert [] + whole.fills == whole.fills;
  }

  /** One turn of the loop against the best opposite order. */
  function FillBest(b: BookState, side: Side, remaining: nat): BookState
    requires OppositeOrders(b, side) != []
  {
    var opposite := OppositeOrders(b, side);
    var maker := opposite[0];
    var fill := Min(remaining, maker.size);
    var left := if fill == maker.size then opposite[1..] else opposite[0 := maker.(size := maker.size - fill)];
    AfterMatch(b, side, MatchResult([Fill(maker, fill)], left, remaining - fill))
  }

  /** The loop invariant: the fills so far account for the book and the trades,
      and matching on from here completes the match from the start. */
  ghost predicate Crossing(start: BookState, now: BookState, account: Account, tx: Tx, at: Place,
                           fills: seq<Fill>, remaining: nat, trades: seq<Trade>)
    requires tx.Create?
  {
    && MatchSplit(MatchOf(start, tx, tx.size), fills, MatchOf(now, tx, remaining))
    && now == AfterMatch(start, tx.side, MatchResult(fills, OppositeOrders(now, tx.side), remaining))
    && trades == TradesOf(fills, account, tx, at)
  }

  lemma CrossingStart(start: BookState, account: Account, tx: Tx, at: Place)
    requires tx.Create?
    ensures Crossing(start, start, account, tx, at, [], tx.size, [])
  {
    MatchSplitStart(MatchOf(start, tx, tx.size));
    assert start.index - DoneKeys([]) == start.index;
  }

  lemma CrossingStep(start: BookState, now: BookState, account: Account, tx: Tx, at: Place,
                     fills: seq<Fill>, remaining: nat, trades: seq<Trade>)
    requires tx.Create? && remaining > 0 && Crossing(start, now, account, tx, at, fills, remaining, trades)
    requires var opposite := OppositeOrders(now, tx.side);
             opposite != [] && Crosses(tx.side, tx.kind, tx.price, opposite[0].price)
    ensures var maker := OppositeOrders(now, tx.side)[0];
            var f := Fill(maker, Min(remaining, maker.size));
            && Crossing(start, FillBest(now, tx.side, remaining), account, tx, at, fills + [f],
                        remaining - f.size, trades + [TradeOf(f, account, tx, at)])
            && FillBest(now, tx.side, remaining).index
               == if f.size == maker.size then now.index - {ClientKeyOf(maker)} else now.index
  {
    var opposite := OppositeOrders(now, tx.side);
    var maker := opposite[0];
    var f := Fill(maker, Min(remaining, maker.size));
    MatchStep(MatchOf(start, tx, tx.size), fills, opposite, tx, remaining);
    FillBestAccumulates(start, now, tx.side, fills, remaining);
    TradesAppend(fills, f, account, tx, at);
  }

  lemma TradesAppend(fills: seq<Fill>, f: Fill, account: Account, tx: Tx, at: Place)
    requires tx.Create?
    ensures TradesOf(fills + [f], account, tx, at) == TradesOf(fills, account, tx, at) + [TradeOf(f, account, tx, at)]
  {}

  lemma FillBestAccumulates(start: BookState, now: BookState, side: Side, fills: seq<Fill>, remaining: nat)
    requires OppositeOrders(now, side) != []
    requires now == AfterMatch(start, side, MatchResult(fills, OppositeOrders(now, side), remaining))
    ensures var maker := OppositeOrders(now, side)[0];
            var f := Fill(maker, Min(remaining, maker.size));
            var next := FillBest(now, side, remaining);
            && next == AfterMatch(start, side, MatchResult(fills + [f], OppositeOrders(next, side), remaining - f.size))
            && next.index == if f.size == maker.size then now.index - {ClientKeyOf(maker)} else now.index
  {
    var maker := OppositeOrders(now, side)[0];
    var f := Fill(maker, Min(remaining, maker.size));
    FillIndex(start.index, fills, f);
  }

  lemma FillIndex(index: map<ClientKey, (Side, nat, nat)>, fills: seq<Fill>, f: Fill)
    ensures (index - DoneKeys(fills)) - DoneKeys([f]) == index - DoneKeys(fills + [f])
    ensures (index - DoneKeys(fills)) - DoneKeys([f])
         == if f.size == f.maker.size then (index - DoneKeys(fills)) - {ClientKeyOf(f.maker)}
           else index - DoneKeys(fills)
  {
    DoneKeysAppend(fills, f);
    DoneKeysAppend([], f);
    assert [] + [f] == [f];
    RemoveTwice(index, DoneKeys(fills), DoneKeys([f]));
  }

  lemma RemoveTwice<K, V>(m: map<K, V>, a: set<K>, b: set<K>)
    ensures (m - a) - b == m - (a + b)
  {}

  lemma DoneKeysAppend(fills: seq<Fill>, f: Fill)
    ensures DoneKeys(fills + [f]) == DoneKeys(fills) + (if f.size == f.maker.size then {ClientKeyOf(f.maker)} else {})
    ensures DoneKeys([]) == {}
  {}

  lemma MatchStep(whole: MatchResult, fills: seq<Fill>, opposite: seq<Order>, tx: Tx, remaining: nat)
    requires tx.Create? && remaining > 0
    requires opposite != [] && Crosses(tx.side, tx.kind, tx.price, opposite[0].price)
    requires MatchSplit(whole, fills, Match(opposite, tx.side, tx.kind, tx.price, remaining))
    ensures var maker := opposite[0];
            var fill := Min(remaining, maker.size);
            var next := if fill == maker.size then opposite[1..] else opposite[0 := maker.(size := maker.size - fill)];
            MatchSplit(whole, fills + [Fill(maker, fill)], Match(next, tx.side, tx.kind, tx.price, remaining - fill))
  {
    var maker := opposite[0];
    var f := Fill(maker, Min(remaining, maker.size));
    var rest := Match(opposite, tx.side, tx.kind, tx.price, remaining);
    assert rest.fills[0] == f;
    assert fills + rest.fills == (fills + [f]) + rest.fills[1..];
    assert opposite[0 := maker.(size := maker.size - f.size)] == [maker.(size := maker.size - f.size)] + opposite[1..];
  }

  lemma CrossingEnd(start: BookState, now: BookState, account: Account, tx: Tx, at: Place,
                    fills: seq<Fill>, remaining: nat, trades: seq<Trade>)
    requires tx.Create? && Crossing(start, now, account, tx, at, fills, remaining, trades)
    requires var opposite := OppositeOrders(now, tx.side);
             remaining == 0 || opposite == [] || !Crosses(tx.side, tx.kind, tx.price, opposite[0].price)
    ensures var m := MatchOf(start, tx, tx.size);
            now == AfterMatch(start, tx.side, m) && remaining == m.remaining && fills == m.fills
  {
    assert fills + [] == fills;
  }
}
