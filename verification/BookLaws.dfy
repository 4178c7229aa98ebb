/** What the order book promises: fair matching, exact accounting, and an
    invariant over every sequence of transactions. */
module BookLaws {
  import opened OrderBook

  // ----- fair matching

  function Volume(s: seq<Order>): nat {
    if s == [] then 0 else s[0].size + Volume(s[1..])
  }

  function Filled(fills: seq<Fill>): nat {
    if fills == [] then 0 else fills[0].size + Filled(fills[1..])
  }

  ghost predicate Positive(s: seq<Order>) {
    forall i | 0 <= i < |s| :: s[i].size > 0
  }

  /** Fill i takes from opposite order i, within the limit, and consumes it unless
      it is the last. */
  ghost predicate FillAt(opposite: seq<Order>, side: Side, kind: OrderKind, price: nat, fills: seq<Fill>, i: nat)
    requires i < |fills| <= |opposite|
  {
    && fills[i].maker == opposite[i] && Crosses(side, kind, price, opposite[i].price)
    && 0 < fills[i].size <= opposite[i].size
    && (i < |fills| - 1 ==> fills[i].size == opposite[i].size)
  }

  /** The fills take a prefix of the opposite side in priority order, within the
      limit, consuming every maker but possibly the last. */
  ghost predicate TakesPrefix(opposite: seq<Order>, side: Side, kind: OrderKind, price: nat, fills: seq<Fill>) {
    |fills| <= |opposite| && forall i | 0 <= i < |fills| :: FillAt(opposite, side, kind, price, fills, i)
  }

  /** What is left of the opposite side after the fills. */
  ghost predicate LeavesRest(opposite: seq<Order>, fills: seq<Fill>, left: seq<Order>)
    requires |fills| <= |opposite|
  {
    var k := |fills|;
    if k > 0 && fills[k - 1].size < opposite[k - 1].size
    then left == [opposite[k - 1].(size := opposite[k - 1].size - fills[k - 1].size)] + opposite[k..]
    else left == opposite[k..]
  }

  /** Price-time priority, stated without the loop: a prefix is taken, sizes are
      conserved, and a remainder means nothing left to cross. */
  ghost predicate PriorityFill(opposite: seq<Order>, side: Side, kind: OrderKind, price: nat, size: nat,
                               r: MatchResult) {
    && TakesPrefix(opposite, side, kind, price, r.fills)
    && LeavesRest(opposite, r.fills, r.left)
    && Filled(r.fills) + r.remaining == size
    && (r.remaining > 0 ==> r.left == [] || !Crosses(side, kind, price, r.left[0].price))
    && (|r.fills| > 0 && r.fills[|r.fills| - 1].size < opposite[|r.fills| - 1].size ==> r.remaining == 0)
  }

  /** The matching loop produces a priority fill, and no other outcome is one. */
  lemma {:induction false} MatchIsThePriorityFill(opposite: seq<Order>, side: Side, kind: OrderKind, price: nat,
                                                  size: nat, r: MatchResult)
    requires Positive(opposite)
    ensures PriorityFill(opposite, side, kind, price, size, r) <==> r == Match(opposite, side, kind, price, size)
    decreases |opposite|
  {
    MatchIsPriorityFill(opposite, side, kind, price, size);
    if PriorityFill(opposite, side, kind, price, size, r) {
      PriorityFillUnique(opposite, side, kind, price, size, r);
    }
  }

  lemma {:induction false} MatchIsPriorityFill(opposite: seq<Order>, side: Side, kind: OrderKind, price: nat, size: nat)
    requires Positive(opposite)
    ensures PriorityFill(opposite, side, kind, price, size, Match(opposite, side, kind, price, size))
    decreases |opposite|
  {
    if size > 0 && opposite != [] && Crosses(side, kind, price, opposite[0].price) {
      var maker := opposite[0];
      if size >= maker.size {
        MatchIsPriorityFill(opposite[1..], side, kind, price, size - maker.size);
        PriorityFillCons(opposite, side, kind, price, size, Match(opposite[1..], side, kind, price, size - maker.size));
      } else {
        PriorityFillPartial(opposite, side, kind, price, size);
      }
    }
  }

  lemma PriorityFillPartial(opposite: seq<Order>, side: Side, kind: OrderKind, price: nat, size: nat)
    requires opposite != [] && Crosses(side, kind, price, opposite[0].price) && 0 < size < opposite[0].size
    ensures PriorityFill(opposite, side, kind, price, size,
                         MatchResult([Fill(opposite[0], size)],
                                     [opposite[0].(size := opposite[0].size - size)] + opposite[1..], 0))
  {
    assert [Fill(opposite[0], size)][1..] == [];
  }

  lemma PriorityFillCons(opposite: seq<Order>, side: Side, kind: OrderKind, price: nat, size: nat, r: MatchResult)
    requires opposite != [] && Crosses(side, kind, price, opposite[0].price) && size >= opposite[0].size > 0
    requires PriorityFill(opposite[1..], side, kind, price, size - opposite[0].size, r)
    ensures PriorityFill(opposite, side, kind, price, size,
                         MatchResult([Fill(opposite[0], opposite[0].size)] + r.fills, r.left, r.remaining))
  {
    var fills := [Fill(opposite[0], opposite[0].size)] + r.fills;
    assert fills[1..] == r.fills;
    assert opposite[|fills|..] == opposite[1..][|r.fills|..];
    forall i | 0 <= i < |fills|
      ensures FillAt(opposite, side, kind, price, fills, i)
    {
      assert i > 0 ==> FillAt(opposite[1..], side, kind, price, r.fills, i - 1);
    }
  }

  lemma {:induction false} PriorityFillUnique(opposite: seq<Order>, side: Side, kind: OrderKind, price: nat, size: nat,
                                              r: MatchResult)
    requires PriorityFill(opposite, side, kind, price, size, r)
    ensures r == Match(opposite, side, kind, price, size)
    decreases |r.fills|
  {
    if r.fills == [] {
      PriorityFillNone(opposite, side, kind, price, size, r);
    } else if r.fills[0].size == opposite[0].size {
      var tail := PriorityFillTail(opposite, side, kind, price, size, r);
      PriorityFillUnique(opposite[1..], side, kind, price, size - opposite[0].size, tail);
    } else {
      PriorityFillSingle(opposite, side, kind, price, size, r);
    }
  }

  lemma PriorityFillNone(opposite: seq<Order>, side: Side, kind: OrderKind, price: nat, size: nat, r: MatchResult)
    requires PriorityFill(opposite, side, kind, price, size, r) && r.fills == []
    ensures r == Match(opposite, side, kind, price, size)
  {}

  lemma PriorityFillSingle(opposite: seq<Order>, side: Side, kind: OrderKind, price: nat, size: nat, r: MatchResult)
    requires PriorityFill(opposite, side, kind, price, size, r)
    requires r.fills != [] && r.fills[0].size != opposite[0].size
    ensures 0 < size < opposite[0].size && Crosses(side, kind, price, opposite[0].price)
    ensures r == MatchResult([Fill(opposite[0], size)],
                             [opposite[0].(size := opposite[0].size - size)] + opposite[1..], 0)
  {
    assert FillAt(opposite, side, kind, price, r.fills, 0);
    assert |r.fills| == 1;
    assert r.fills[1..] == [] && Filled(r.fills) == r.fills[0].size;
    assert r.fills == [r.fills[0]];
  }

  lemma PriorityFillTail(opposite: seq<Order>, side: Side, kind: OrderKind, price: nat, size: nat, r: MatchResult)
    returns (tail: MatchResult)
    requires PriorityFill(opposite, side, kind, price, size, r)
    requires r.fills != [] && r.fills[0].size == opposite[0].size
    ensures size >= opposite[0].size > 0 && Crosses(side, kind, price, opposite[0].price)
    ensures r == MatchResult([Fill(opposite[0], opposite[0].size)] + tail.fills, tail.left, tail.remaining)
    ensures PriorityFill(opposite[1..], side, kind, price, size - opposite[0].size, tail)
  {
    FirstFillBounded(r.fills);
    assert FillAt(opposite, side, kind, price, r.fills, 0);
    tail := MatchResult(r.fills[1..], r.left, r.remaining);
    assert opposite[|r.fills|..] == opposite[1..][|tail.fills|..];
    forall i | 0 <= i < |tail.fills|
      ensures FillAt(opposite[1..], side, kind, price, tail.fills, i)
    {
      assert FillAt(opposite, side, kind, price, r.fills, i + 1);
    }
  }

  lemma FirstFillBounded(fills: seq<Fill>)
    requires fills != []
    ensures Filled(fills) >= fills[0].size
  {}

  lemma {:induction false} VolumeConcat(s: seq<Order>, t: seq<Order>)
    ensures Volume(s + t) == Volume(s) + Volume(t)
  {
    if s == [] {
      assert s + t == t;
    } else {
      VolumeConcat(s[1..], t);
      assert (s + t)[1..] == s[1..] + t;
    }
  }

  /** The opposite side loses exactly the filled volume. */
  lemma {:induction false} VolumeConserved(opposite: seq<Order>, side: Side, kind: OrderKind, price: nat, size: nat)
    ensures var m := Match(opposite, side, kind, price, size);
            Volume(m.left) + Filled(m.fills) == Volume(opposite) && Filled(m.fills) + m.remaining == size
    decreases |opposite|
  {
    if size > 0 && opposite != [] && Crosses(side, kind, price, opposite[0].price) {
      var maker := opposite[0];
      var m := Match(opposite, side, kind, price, size);
      if size >= maker.size {
        VolumeConserved(opposite[1..], side, kind, price, size - maker.size);
        assert m.fills[1..] == Match(opposite[1..], side, kind, price, size - maker.size).fills;
      } else {
        assert m.fills[1..] == [];
        assert m.left[1..] == opposite[1..];
      }
    }
  }

  // ----- the invariant

  /** One side is in strict key order, with its own live orders under distinct
      nonces below the counter. */
  ghost predicate SideOk(side: Side, s: seq<Order>, nextNonce: nat) {
    && (forall i, j | 0 <= i < j < |s| :: Before(side, s[i], s[j]) && s[i].nonce != s[j].nonce)
    && (forall i | 0 <= i < |s| :: s[i].side == side && s[i].size > 0 && s[i].nonce < nextNonce)
  }

  ghost predicate Resting(b: BookState, o: Order) {
    o in b.asks || o in b.bids
  }

  /** Best bid strictly below best ask. */
  ghost predicate Uncrossed(b: BookState) {
    b.bids == [] || b.asks == [] || b.bids[0].price < b.asks[0].price
  }

  /** The cancel index points at every resting order ... */
  ghost predicate IndexSound(b: BookState) {
    forall o | Resting(b, o) :: ClientKeyOf(o) in b.index && b.index[ClientKeyOf(o)] == (o.side, o.price, o.nonce)
  }

  /** ... and at nothing else. */
  ghost predicate IndexTight(b: BookState) {
    forall k | k in b.index :: exists o :: Resting(b, o) && ClientKeyOf(o) == k
  }

  ghost predicate Inv(b: BookState) {
    && SideOk(Ask, b.asks, b.nextAskNonce) && SideOk(Bid, b.bids, b.nextBidNonce)
    && Uncrossed(b) && IndexSound(b) && IndexTight(b)
  }

  /** The index is a bijection: one client key never names two resting orders. */
  lemma ClientKeysUnique(b: BookState, x: Order, y: Order)
    requires Inv(b) && Resting(b, x) && Resting(b, y) && ClientKeyOf(x) == ClientKeyOf(y)
    ensures x == y
  {
    assert x.side == y.side && x.nonce == y.nonce;
  }

  /** The best order of a side bounds the prices of all of it. */
  lemma BestIsFirst(side: Side, s: seq<Order>, next: nat, o: Order)
    requires SideOk(side, s, next) && o in s
    ensures if side.Ask? then s[0].price <= o.price else s[0].price >= o.price
  {}

  // ----- cancelling

  lemma {:induction false} RemoveAt(side: Side, s: seq<Order>, next: nat, i: nat)
    requires SideOk(side, s, next) && i < |s|
    ensures Remove(s[i].price, s[i].nonce, s) == s[..i] + s[i + 1..]
  {
    if i > 0 {
      RemoveAt(side, s[1..], next, i - 1);
      assert s[..i] + s[i + 1..] == [s[0]] + (s[1..][..i - 1] + s[1..][i..]);
    }
  }

  lemma RemoveKeepsSide(side: Side, s: seq<Order>, next: nat, i: nat)
    requires SideOk(side, s, next) && i < |s|
    ensures SideOk(side, s[..i] + s[i + 1..], next)
    ensures forall o :: o in s[..i] + s[i + 1..] <==> o in s && o != s[i]
  {
    var t := s[..i] + s[i + 1..];
    forall k | 0 <= k < |t|
      ensures t[k] in s && t[k] != s[i]
    {
      var j := if k < i then k else k + 1;
      assert t[k] == s[j];
    }
    forall j | 0 <= j < |s| && j != i
      ensures s[j] in t
    {
      assert s[j] == t[if j < i then j else j - 1];
    }
  }

  /** The order a client key names, and its place. */
  lemma NamedOrder(b: BookState, k: ClientKey) returns (o: Order, i: nat)
    requires Inv(b) && k in b.index
    ensures Resting(b, o) && ClientKeyOf(o) == k && b.index[k] == (o.side, o.price, o.nonce)
    ensures var s := if o.side.Ask? then b.asks else b.bids; i < |s| && s[i] == o
  {
    o :| Resting(b, o) && ClientKeyOf(o) == k;
    var s := if o.side.Ask? then b.asks else b.bids;
    assert o in s;
    i :| 0 <= i < |s| && s[i] == o;
  }

  /** Cancelling removes exactly the named order. */
  lemma CancelRemovesOne(b: BookState, account: Account, market: nat, coi: nat, at: Place) returns (o: Order)
    requires Inv(b) && (account, coi) in b.index
    ensures Resting(b, o) && ClientKeyOf(o) == (account, coi)
    ensures var b' := Execute(b, account, Cancel(market, coi), at).0;
            && Inv(b') && b'.index == b.index - {(account, coi)}
            && forall x :: Resting(b', x) <==> Resting(b, x) && x != o
  {
    var i;
    o, i := NamedOrder(b, (account, coi));
    var b' := Execute(b, account, Cancel(market, coi), at).0;
    if o.side.Ask? {
      RemoveAt(Ask, b.asks, b.nextAskNonce, i);
      RemoveKeepsSide(Ask, b.asks, b.nextAskNonce, i);
      OtherSide(b, o);
    } else {
      RemoveAt(Bid, b.bids, b.nextBidNonce, i);
      RemoveKeepsSide(Bid, b.bids, b.nextBidNonce, i);
      OtherSide(b, o);
    }
    CancelKeepsIndex(b, b', o);
    CancelKeepsUncrossed(b, b');
  }

  lemma OtherSide(b: BookState, o: Order)
    requires Inv(b)
    ensures o.side.Ask? ==> o !in b.bids
    ensures o.side.Bid? ==> o !in b.asks
  {}

  lemma CancelKeepsIndex(b: BookState, b': BookState, o: Order)
    requires Inv(b) && Resting(b, o) && b'.index == b.index - {ClientKeyOf(o)}
    requires forall x :: Resting(b', x) <==> Resting(b, x) && x != o
    ensures IndexSound(b') && IndexTight(b')
  {
    forall x | Resting(b', x)
      ensures ClientKeyOf(x) in b'.index && b'.index[ClientKeyOf(x)] == (x.side, x.price, x.nonce)
    {
      if ClientKeyOf(x) == ClientKeyOf(o) {
        ClientKeysUnique(b, x, o);
      }
    }
    forall k | k in b'.index
      ensures exists x :: Resting(b', x) && ClientKeyOf(x) == k
    {
      var x :| Resting(b, x) && ClientKeyOf(x) == k;
      assert Resting(b', x);
    }
  }

  lemma CancelKeepsUncrossed(b: BookState, b': BookState)
    requires Inv(b) && forall x | Resting(b', x) :: Resting(b, x)
    requires SideOk(Ask, b'.asks, b.nextAskNonce) && SideOk(Bid, b'.bids, b.nextBidNonce)
    ensures Uncrossed(b')
  {
    if b'.bids != [] && b'.asks != [] {
      var x, y := b'.bids[0], b'.asks[0];
      assert Resting(b', x) && Resting(b', y);
      OtherSide(b, x);
      OtherSide(b, y);
      BestIsFirst(Bid, b.bids, b.nextBidNonce, x);
      BestIsFirst(Ask, b.asks, b.nextAskNonce, y);
    }
  }

  // ----- matching

  function Keys(s: seq<Order>): set<ClientKey> {
    set o | o in s :: ClientKeyOf(o)
  }

  /** Matching drops c makers and at most shrinks the next one. */
  ghost predicate DropsFront(opposite: seq<Order>, left: seq<Order>, c: nat) {
    && |left| + c == |opposite|
    && forall i | 0 <= i < |left| :: left[i].size > 0 && left[i] == opposite[c + i].(size := left[i].size)
  }

  lemma {:induction false} MatchDropsFront(opposite: seq<Order>, side: Side, kind: OrderKind, price: nat, size: nat)
    returns (c: nat)
    requires Positive(opposite)
    ensures var m := Match(opposite, side, kind, price, size);
            DropsFront(opposite, m.left, c) && DoneKeys(m.fills) == Keys(opposite[..c])
    decreases |opposite|
  {
    c := 0;
    var m := Match(opposite, side, kind, price, size);
    if size > 0 && opposite != [] && Crosses(side, kind, price, opposite[0].price) {
      var maker := opposite[0];
      if size >= maker.size {
        c := MatchDropsFront(opposite[1..], side, kind, price, size - maker.size);
        var rest := Match(opposite[1..], side, kind, price, size - maker.size);
        ConsumeFirst(opposite, rest.fills, rest.left, c);
        c := c + 1;
      } else {
        PartialFirst(opposite, size);
      }
    } else {
      assert DoneKeys(m.fills) == {} == Keys(opposite[..0]);
    }
  }

  lemma ConsumeFirst(opposite: seq<Order>, fills: seq<Fill>, left: seq<Order>, c: nat)
    requires opposite != [] && DropsFront(opposite[1..], left, c) && DoneKeys(fills) == Keys(opposite[1..][..c])
    ensures DropsFront(opposite, left, c + 1)
    ensures DoneKeys([Fill(opposite[0], opposite[0].size)] + fills) == Keys(opposite[..c + 1])
  {
    DoneKeysCons(Fill(opposite[0], opposite[0].size), fills);
    KeysCons(opposite, c);
    DropsFrontCons(opposite, left, c);
  }

  lemma PartialFirst(opposite: seq<Order>, size: nat)
    requires Positive(opposite) && opposite != [] && size < opposite[0].size
    ensures DropsFront(opposite, [opposite[0].(size := opposite[0].size - size)] + opposite[1..], 0)
    ensures DoneKeys([Fill(opposite[0], size)]) == Keys(opposite[..0])
  {
    assert [Fill(opposite[0], size)] == [Fill(opposite[0], size)] + [];
    DoneKeysCons(Fill(opposite[0], size), []);
  }

  lemma DropsFrontCons(opposite: seq<Order>, left: seq<Order>, c: nat)
    requires opposite != [] && DropsFront(opposite[1..], left, c)
    ensures DropsFront(opposite, left, c + 1)
  {
    forall i | 0 <= i < |left|
      ensures left[i].size > 0 && left[i] == opposite[c + 1 + i].(size := left[i].size)
    {
      assert opposite[1..][c + i] == opposite[c + 1 + i];
    }
  }

  lemma DoneKeysCons(f: Fill, fills: seq<Fill>)
    ensures DoneKeys([f] + fills) == DoneKeys(fills) + (if f.size == f.maker.size then {ClientKeyOf(f.maker)} else {})
    ensures DoneKeys([]) == {}
  {}

  lemma KeysCons(s: seq<Order>, c: nat)
    requires s != [] && c < |s|
    ensures Keys(s[..c + 1]) == {ClientKeyOf(s[0])} + Keys(s[1..][..c])
  {
    assert s[..c + 1] == [s[0]] + s[1..][..c];
  }

  lemma PrefixKeys(s: seq<Order>, c: nat)
    requires c <= |s|
    ensures forall i | 0 <= i < c :: ClientKeyOf(s[i]) in Keys(s[..c])
  {
    assert forall i | 0 <= i < c :: s[..c][i] == s[i];
  }

  lemma DroppedSideOk(side: Side, s: seq<Order>, left: seq<Order>, c: nat, next: nat)
    requires SideOk(side, s, next) && DropsFront(s, left, c)
    ensures SideOk(side, left, next)
  {
    forall i, j | 0 <= i < j < |left|
      ensures Before(side, left[i], left[j]) && left[i].nonce != left[j].nonce
    {
      assert Before(side, s[c + i], s[c + j]);
    }
  }

  /** Matching and drawing a nonce keep the invariant. */
  lemma MatchKeepsInv(b: BookState, tx: Tx)
    requires Inv(b) && tx.Create?
    ensures Inv(AfterMatch(TakeNonce(b, tx.side), tx.side, MatchOf(b, tx, tx.size)))
  {
    var s := OppositeOrders(b, tx.side);
    var m := MatchOf(b, tx, tx.size);
    var b' := AfterMatch(TakeNonce(b, tx.side), tx.side, m);
    var c := MatchDropsFront(s, tx.side, tx.kind, tx.price, tx.size);
    var next := OwnNonce(b, Opposite(tx.side));
    DroppedSideOk(Opposite(tx.side), s, m.left, c, next);
    MatchKeepsUncrossed(b, b', tx.side, c);
    MatchKeepsIndex(b, b', tx.side, c);
  }

  lemma MatchKeepsUncrossed(b: BookState, b': BookState, side: Side, c: nat)
    requires Inv(b) && DropsFront(OppositeOrders(b, side), OppositeOrders(b', side), c)
    requires if side.Bid? then b'.bids == b.bids else b'.asks == b.asks
    ensures Uncrossed(b')
  {
    var s, left := OppositeOrders(b, side), OppositeOrders(b', side);
    if left != [] {
      assert left[0].price == s[c].price;
      BestIsFirst(Opposite(side), s, OwnNonce(b, Opposite(side)), s[c]);
    }
  }

  lemma MatchKeepsIndex(b: BookState, b': BookState, side: Side, c: nat)
    requires Inv(b) && DropsFront(OppositeOrders(b, side), OppositeOrders(b', side), c)
    requires if side.Bid? then b'.bids == b.bids else b'.asks == b.asks
    requires b'.index == b.index - Keys(OppositeOrders(b, side)[..c])
    ensures IndexSound(b') && IndexTight(b')
  {
    var s, left := OppositeOrders(b, side), OppositeOrders(b', side);
    forall o | Resting(b', o)
      ensures ClientKeyOf(o) in b'.index && b'.index[ClientKeyOf(o)] == (o.side, o.price, o.nonce)
    {
      var o' := SurvivorOf(b, b', side, c, o);
      if ClientKeyOf(o) in Keys(s[..c]) {
        var d :| d in s[..c] && ClientKeyOf(d) == ClientKeyOf(o);
        ClientKeysUnique(b, d, o');
      }
    }
    PrefixKeys(s, c);
    forall k | k in b'.index
      ensures exists o :: Resting(b', o) && ClientKeyOf(o) == k
    {
      var o :| Resting(b, o) && ClientKeyOf(o) == k;
      if o in s {
        var i :| 0 <= i < |s| && s[i] == o;
        assert Resting(b', left[i - c]) && ClientKeyOf(left[i - c]) == k;
      } else {
        assert Resting(b', o);
      }
    }
  }

  /** An order still resting, as it stood before, is none of the dropped ones. */
  lemma SurvivorOf(b: BookState, b': BookState, side: Side, c: nat, o: Order) returns (o': Order)
    requires Inv(b) && DropsFront(OppositeOrders(b, side), OppositeOrders(b', side), c)
    requires if side.Bid? then b'.bids == b.bids else b'.asks == b.asks
    requires Resting(b', o)
    ensures Resting(b, o') && o == o'.(size := o.size) && o' !in OppositeOrders(b, side)[..c]
  {
    var s, left := OppositeOrders(b, side), OppositeOrders(b', side);
    if o in left {
      var i :| 0 <= i < |left| && left[i] == o;
      o' := s[c + i];
      forall k | 0 <= k < c
        ensures s[k] != o'
      {
        assert s[k].nonce != s[c + i].nonce;
      }
    } else {
      o' := o;
      OtherSide(b, o);
    }
  }

  // ----- resting

  lemma {:induction false} InsertKeepsSide(side: Side, o: Order, s: seq<Order>, next: nat)
    requires SideOk(side, s, next) && o.side == side && o.size > 0 && o.nonce == next
    ensures SideOk(side, Insert(side, o, s), next + 1)
    ensures forall x :: x in Insert(side, o, s) <==> x == o || x in s
  {
    var t := Insert(side, o, s);
    if s == [] {
    } else if Before(side, o, s[0]) {
      forall j | 0 <= j < |s|
        ensures Before(side, o, s[j])
      {
        assert j > 0 ==> Before(side, s[0], s[j]);
      }
    } else {
      InsertKeepsSide(side, o, s[1..], next);
      var u := Insert(side, o, s[1..]);
      forall j | 0 <= j < |u|
        ensures Before(side, s[0], u[j]) && s[0].nonce != u[j].nonce
      {
        assert u[j] == o || u[j] in s[1..];
        if u[j] != o {
          var k :| 0 <= k < |s[1..]| && s[1..][k] == u[j];
          assert Before(side, s[0], s[k + 1]) && s[0].nonce != s[k + 1].nonce;
        }
      }
    }
  }

  /** Resting an order keeps the invariant when its key and nonce are fresh and
      nothing crosses it. */
  lemma RestKeepsInv(b: BookState, o: Order)
    requires Inv(b) && o.size > 0 && ClientKeyOf(o) !in b.index
    requires o.nonce + 1 == OwnNonce(b, o.side)
    requires SideOk(o.side, if o.side.Ask? then b.asks else b.bids, o.nonce)
    requires var s := OppositeOrders(b, o.side); s == [] || !Crosses(o.side, Limit, o.price, s[0].price)
    ensures Inv(Rest(b, o))
  {
    var b' := Rest(b, o);
    if o.side.Ask? {
      InsertKeepsSide(Ask, o, b.asks, o.nonce);
    } else {
      InsertKeepsSide(Bid, o, b.bids, o.nonce);
    }
    assert forall x :: Resting(b', x) <==> x == o || Resting(b, x);
    RestKeepsIndex(b, b', o);
    RestKeepsUncrossed(b, b', o);
  }

  lemma RestKeepsIndex(b: BookState, b': BookState, o: Order)
    requires Inv(b) && ClientKeyOf(o) !in b.index
    requires b'.index == b.index[ClientKeyOf(o) := (o.side, o.price, o.nonce)]
    requires forall x :: Resting(b', x) <==> x == o || Resting(b, x)
    ensures IndexSound(b') && IndexTight(b')
  {
    forall k | k in b'.index
      ensures exists x :: Resting(b', x) && ClientKeyOf(x) == k
    {
      if k == ClientKeyOf(o) {
        assert Resting(b', o);
      } else {
        var x :| Resting(b, x) && ClientKeyOf(x) == k;
        assert Resting(b', x);
      }
    }
  }

  lemma RestKeepsUncrossed(b: BookState, b': BookState, o: Order)
    requires Inv(b) && SideOk(Ask, b'.asks, b'.nextAskNonce) && SideOk(Bid, b'.bids, b'.nextBidNonce)
    requires forall x :: Resting(b', x) <==> x == o || Resting(b, x)
    requires if o.side.Ask? then b'.bids == b.bids else b'.asks == b.asks
    requires var s := OppositeOrders(b, o.side); s == [] || !Crosses(o.side, Limit, o.price, s[0].price)
    ensures Uncrossed(b')
  {
    if b'.bids != [] && b'.asks != [] {
      var x, y := b'.bids[0], b'.asks[0];
      assert Resting(b', x) && Resting(b', y);
      if o.side.Ask? && y != o {
        OtherSide(b, y);
        BestIsFirst(Ask, b.asks, b.nextAskNonce, y);
      } else if o.side.Bid? && x != o {
        OtherSide(b, x);
        BestIsFirst(Bid, b.bids, b.nextBidNonce, x);
      }
    }
  }

  // ----- whole transactions and runs

  /** Every transaction keeps the invariant. */
  lemma ExecuteKeepsInv(b: BookState, account: Account, tx: Tx, at: Place)
    requires Inv(b)
    ensures Inv(Execute(b, account, tx, at).0)
  {
    match tx {
      case Cancel(market, coi) =>
        if (account, coi) in b.index {
          var o := CancelRemovesOne(b, account, market, coi, at);
        }
      case Create(_, side, kind, price, size, coi) =>
        if Refusal(b, account, tx).None? {
          CreateKeepsInv(b, account, tx, at);
        }
    }
  }

  lemma CreateKeepsInv(b: BookState, account: Account, tx: Tx, at: Place)
    requires Inv(b) && tx.Create? && Refusal(b, account, tx).None?
    ensures Inv(PlaceOrder(b, account, tx, at).0)
  {
    var m := MatchOf(b, tx, tx.size);
    var b' := AfterMatch(TakeNonce(b, tx.side), tx.side, m);
    MatchKeepsInv(b, tx);
    if m.remaining > 0 && tx.kind.Limit? {
      var o := Order(account, tx.coi, tx.side, tx.price, m.remaining, OwnNonce(b, tx.side));
      RemainderDoesNotCross(b, tx);
      RestKeepsInv(b', o);
    }
  }

  lemma RemainderDoesNotCross(b: BookState, tx: Tx)
    requires Inv(b) && tx.Create? && MatchOf(b, tx, tx.size).remaining > 0
    ensures var left := MatchOf(b, tx, tx.size).left;
            left == [] || !Crosses(tx.side, tx.kind, tx.price, left[0].price)
  {
    MatchIsPriorityFill(OppositeOrders(b, tx.side), tx.side, tx.kind, tx.price, tx.size);
  }

  /** A failed transaction changes nothing, and fails for a stated reason. */
  lemma FailureIsNoOp(b: BookState, account: Account, tx: Tx, at: Place)
    ensures var (b', r) := Execute(b, account, tx, at);
            && (r.Failed? ==> b' == b)
            && (r.Failed? <==>
                  if tx.Cancel? then (account, tx.coi) !in b.index
                  else tx.size == 0 || (tx.kind.Limit? && tx.price == 0) || (account, tx.coi) in b.index)
  {}

  function TradedSize(trades: seq<Trade>): nat {
    if trades == [] then 0 else trades[0].size + TradedSize(trades[1..])
  }

  lemma {:induction false} TradedIsFilled(fills: seq<Fill>, account: Account, tx: Tx, at: Place)
    requires tx.Create?
    ensures TradedSize(TradesOf(fills, account, tx, at)) == Filled(fills)
  {
    if fills != [] {
      TradedIsFilled(fills[1..], account, tx, at);
      assert TradesOf(fills, account, tx, at)[1..] == TradesOf(fills[1..], account, tx, at);
    }
  }

  /** Where a taker's size goes: trades, the rested order, or (for market and
      immediate-or-cancel orders) discarded. */
  lemma TakerAccounting(b: BookState, account: Account, tx: Tx, at: Place)
    requires Inv(b) && tx.Create? && Refusal(b, account, tx).None?
    ensures var (b', r) := PlaceOrder(b, account, tx, at);
            var rested := if r.rested.Some? then r.rested.value.size else 0;
            var discarded := tx.size - TradedSize(r.trades) - rested;
            && discarded >= 0
            && (tx.kind.Limit? ==> discarded == 0)
            && (r.rested.Some? ==> tx.kind.Limit? && rested > 0 && Resting(b', r.rested.value))
            && Volume(OppositeOrders(b', tx.side)) + TradedSize(r.trades) == Volume(OppositeOrders(b, tx.side))
            && (rested > 0 || discarded > 0 ==>
                  var s := OppositeOrders(b', tx.side); s == [] || !Crosses(tx.side, tx.kind, tx.price, s[0].price))
  {
    var m := MatchOf(b, tx, tx.size);
    TradedIsFilled(m.fills, account, tx, at);
    VolumeConserved(OppositeOrders(b, tx.side), tx.side, tx.kind, tx.price, tx.size);
    if m.remaining > 0 {
      RemainderDoesNotCross(b, tx);
      if tx.kind.Limit? {
        RestedIsResting(b, account, tx, at);
      }
    }
  }

  lemma RestedIsResting(b: BookState, account: Account, tx: Tx, at: Place)
    requires Inv(b) && tx.Create? && Refusal(b, account, tx).None?
    requires MatchOf(b, tx, tx.size).remaining > 0 && tx.kind.Limit?
    ensures var (b', r) := PlaceOrder(b, account, tx, at);
            r.rested.Some? && Resting(b', r.rested.value)
  {
    var o := Order(account, tx.coi, tx.side, tx.price, MatchOf(b, tx, tx.size).remaining, OwnNonce(b, tx.side));
    InsertKeepsSide(tx.side, o, if tx.side.Ask? then b.asks else b.bids, o.nonce);
  }

  /** The book after a sequence of placed transactions. */
  function Run(b: BookState, txs: seq<(Account, Tx, Place)>): BookState {
    if txs == [] then b
    else
      var last := txs[|txs| - 1];
      Execute(Run(b, txs[..|txs| - 1]), last.0, last.1, last.2).0
  }

  /** The invariant holds after every sequence of creations and cancellations. */
  lemma {:induction false} EveryRunKeepsInv(txs: seq<(Account, Tx, Place)>)
    ensures Inv(Run(EMPTY, txs))
  {
    if txs != [] {
      EveryRunKeepsInv(txs[..|txs| - 1]);
      var last := txs[|txs| - 1];
      ExecuteKeepsInv(Run(EMPTY, txs[..|txs| - 1]), last.0, last.1, last.2);
    }
  }
}
