/** What the adapter publishes: every block can be executed again from the one before
    it, and the blocks together record the tape
    (`process_position` and `seal_block` in demo/gateway/src/lighter_sim.rs:537-626). */
module BlockLedger {
  import opened Wrappers
  import opened OrderBook
  import opened TapeAdapter
  import opened AdapterLaws

  // ----- executing a block again

  /** The book after a block's transactions. */
  function BookAfter(book: BookState, txs: seq<BlockTx>): BookState {
    if txs == [] then book
    else
      var t := txs[|txs| - 1];
      Execute(BookAfter(book, txs[..|txs| - 1]), t.account, t.tx, Place(t.tick, t.pos, 0)).0
  }

  /** The stream commitment after them. */
  function StreamAfter(stream: Stream, txs: seq<BlockTx>): Stream {
    if txs == [] then stream else txs[|txs| - 1].streamAfter
  }

  /** Transaction i of a block with this number shows the result and the commitment that
      executing it after those before it gives. */
  ghost predicate TxFits(book: BookState, stream: Stream, number: nat, txs: seq<BlockTx>, i: nat)
    requires i < |txs|
  {
    var t := txs[i];
    && t.result == Execute(BookAfter(book, txs[..i]), t.account, t.tx, Place(t.tick, t.pos, number)).1
    && t.streamAfter == Chained(StreamAfter(stream, txs[..i]), t.tick, t.pos, t.payload)
  }

  ghost predicate TxsFit(book: BookState, stream: Stream, number: nat, txs: seq<BlockTx>) {
    forall i | 0 <= i < |txs| :: TxFits(book, stream, number, txs, i)
  }

  ghost predicate BlockFits(book: BookState, stream: Stream, epoch: nat, b: Block) {
    && TxsFit(book, stream, b.number, b.txs) && b.epoch == epoch
    && b.bookAfter == BookAfter(book, b.txs) && b.stream == StreamAfter(stream, b.txs)
  }

  /** Book and commitment as the first n blocks since `base` leave them. */
  function BookAt(base: Core, blocks: seq<Block>, n: nat): BookState
    requires |base.blocks| + n <= |blocks|
  {
    if n == 0 then base.book else blocks[|base.blocks| + n - 1].bookAfter
  }

  function StreamAt(base: Core, blocks: seq<Block>, n: nat): Stream
    requires |base.blocks| + n <= |blocks|
  {
    if n == 0 then base.stream else blocks[|base.blocks| + n - 1].stream
  }

  ghost predicate BlockRedoes(base: Core, blocks: seq<Block>, n: nat)
    requires |base.blocks| + n < |blocks|
  {
    BlockFits(BookAt(base, blocks, n), StreamAt(base, blocks, n), base.epoch, blocks[|base.blocks| + n])
  }

  /** Every block since `base` executes again from the one before it, and so does the
      block in progress, up to the live book and commitment. */
  ghost predicate Redoes(base: Core, c: Core) {
    && |base.blocks| <= |c.blocks| && c.epoch == base.epoch
    && (forall n: nat | |base.blocks| + n < |c.blocks| :: BlockRedoes(base, c.blocks, n))
    && var n := |c.blocks| - |base.blocks|;
       && TxsFit(BookAt(base, c.blocks, n), StreamAt(base, c.blocks, n), c.blockCounter, c.curTxs)
       && c.book == BookAfter(BookAt(base, c.blocks, n), c.curTxs)
       && c.stream == StreamAfter(StreamAt(base, c.blocks, n), c.curTxs)
  }

  lemma TxsFitAppend(book: BookState, stream: Stream, number: nat, txs: seq<BlockTx>, t: BlockTx)
    requires TxsFit(book, stream, number, txs)
    requires t.result == Execute(BookAfter(book, txs), t.account, t.tx, Place(t.tick, t.pos, number)).1
    requires t.streamAfter == Chained(StreamAfter(stream, txs), t.tick, t.pos, t.payload)
    ensures TxsFit(book, stream, number, txs + [t])
    ensures BookAfter(book, txs + [t]) == Execute(BookAfter(book, txs), t.account, t.tx, Place(t.tick, t.pos, number)).0
  {
    hide Execute;
    var grown := txs + [t];
    assert grown[..|txs|] == txs;
    forall i | 0 <= i < |grown|
      ensures TxFits(book, stream, number, grown, i)
    {
      assert grown[..i] == txs[..i];
      if i < |txs| {
        assert TxFits(book, stream, number, txs, i);
      } else {
        assert txs[..i] == txs;
      }
    }
    PlaceIrrelevant(BookAfter(book, txs), t.account, t.tx, Place(t.tick, t.pos, 0), Place(t.tick, t.pos, number));
  }

  lemma EntryRedoes(base: Core, c: Core, tick: nat, pos: nat, intent: Intent, tx: Tx)
    requires Redoes(base, c)
    ensures Redoes(base, ExecuteEntry(c, tick, pos, intent, tx))
  {
    hide Execute;
    var n := |c.blocks| - |base.blocks|;
    var c' := ExecuteEntry(c, tick, pos, intent, tx);
    TxsFitAppend(BookAt(base, c.blocks, n), StreamAt(base, c.blocks, n), c.blockCounter, c.curTxs,
                 c'.curTxs[|c.curTxs|]);
    hide TxsFit;
    hide BookAfter;
  }

  lemma ProcessRedoes(parse: Parser, base: Core, c: Core, tick: nat, pos: nat, outcome: Outcome)
    requires Redoes(base, c) && !outcome.Pending?
    ensures Redoes(base, Process(parse, c, tick, pos, outcome))
  {
    if outcome.Opened? && outcome.intent.namespace == LIGHTER_NAMESPACE && parse(outcome.intent.payload).Some? {
      var c' := c.(openedCount := c.openedCount + 1);
      hide ExecuteEntry;
      EntryRedoes(base, c', tick, pos, outcome.intent, parse(outcome.intent.payload).value);
    } else {
      hide TxsFit;
      hide BookAfter;
    }
  }

  lemma SealRedoes(base: Core, c: Core, lastTick: nat)
    requires Redoes(base, c)
    ensures Redoes(base, SealBlock(c, lastTick))
  {
    var c' := SealBlock(c, lastTick);
    forall n: nat | |base.blocks| + n < |c'.blocks|
      ensures BlockRedoes(base, c'.blocks, n)
    {
      if |base.blocks| + n < |c.blocks| {
        assert BlockRedoes(base, c.blocks, n);
      }
    }
  }

  /** Whatever is applied, the published blocks execute again. */
  lemma {:induction false} EveryTapeRedoes(parse: Parser, blockTicks: nat, base: Core, c: Core, acts: seq<Action>)
    requires blockTicks > 0 && AllLegal(acts) && Redoes(base, c)
    ensures Redoes(base, ApplyAll(parse, blockTicks, c, acts))
    decreases |acts|
  {
    hide Redoes;
    if acts != [] {
      match acts[0] {
        case Consume(tick, pos, outcome) => ProcessRedoes(parse, base, c, tick, pos, outcome);
        case Finish(tick) => SealRedoes(base, c, tick);
      }
      hide Process;
      hide SealBlock;
      EveryTapeRedoes(parse, blockTicks, base, Apply(parse, blockTicks, c, acts[0]), acts[1..]);
    }
  }

  /** An epoch keeps the book and the blocks and starts the stream anew; and a follower
      who has its blocks, and the book it began with, can check every result, commitment
      and book snapshot, for every poll schedule. */
  lemma EpochRedoes(parse: Parser, blockTicks: nat, final: Store, c: Core, epoch: nat, polls: seq<Poll>)
    requires blockTicks > 0 && IsSchedule(parse, blockTicks, BeginEpoch(c, epoch), polls)
    requires forall i | 0 <= i < |polls| :: Extends(polls[i].store, final)
    ensures var base := BeginEpoch(c, epoch).core;
            && base.book == c.book && base.blocks == c.blocks && base.trades == c.trades
            && base.stream == Genesis(epoch, 1) && base.epoch == epoch
            && Redoes(base, ScheduleEnd(BeginEpoch(c, epoch), polls).core)
  {
    var start := BeginEpoch(c, epoch);
    var end := ScheduleEnd(start, polls);
    var sealed := EpochOfPolls(parse, blockTicks, final, c, epoch, polls);
    NothingToRedo(start.core);
    hide IsSchedule;
    hide Audited;
    hide Redoes;
    EveryTapeRedoes(parse, blockTicks, start.core, start.core, TapePrefix(final, end.tick, end.pos));
  }

  lemma NothingToRedo(base: Core)
    requires base.curTxs == []
    ensures Redoes(base, base)
  {}

  // ----- the record of the tape

  function TxsOf(blocks: seq<Block>): seq<BlockTx> {
    if blocks == [] then [] else TxsOf(blocks[..|blocks| - 1]) + blocks[|blocks| - 1].txs
  }

  function GapsOf(blocks: seq<Block>): seq<BlockGap> {
    if blocks == [] then [] else GapsOf(blocks[..|blocks| - 1]) + blocks[|blocks| - 1].gaps
  }

  function EntriesOfTxs(txs: seq<BlockTx>): (s: seq<Entry>)
    ensures |s| == |txs|
  {
    seq(|txs|, i requires 0 <= i < |txs| => Entry(txs[i].tick, txs[i].pos, txs[i].payload, txs[i].account, txs[i].tx))
  }

  /** What a consumed position that executes nothing is recorded as. */
  function GapEntry(parse: Parser, a: Action): seq<BlockGap> {
    match a
    case Finish(_) => []
    case Consume(tick, pos, outcome) =>
      match outcome
      case Pending(_) => []
      case Gap(Undecryptable) => [BlockGap(tick, pos, "undecryptable (mauled ciphertext)")]
      case Gap(InvalidIntent) => [BlockGap(tick, pos, "invalid intent (sig/namespace/expiry)")]
      case Gap(Unopened) => [BlockGap(tick, pos, "unopened by cutoff")]
      case Opened(intent) =>
        if intent.namespace != 1 then [BlockGap(tick, pos, "foreign namespace")]
        else if parse(intent.payload) == None then [BlockGap(tick, pos, "unparseable payload")]
        else []
  }

  function GapEntries(parse: Parser, acts: seq<Action>): seq<BlockGap> {
    if acts == [] then [] else GapEntries(parse, acts[..|acts| - 1]) + GapEntry(parse, acts[|acts| - 1])
  }

  function TradesOfTxs(txs: seq<BlockTx>): seq<Trade> {
    if txs == [] then []
    else
      var r := txs[|txs| - 1].result;
      TradesOfTxs(txs[..|txs| - 1]) + if r.Applied? then r.trades else []
  }

  /** All transactions and gaps since `base`, sealed or in progress. */
  ghost predicate Holds(base: Core, c: Core, txs: seq<BlockTx>, gaps: seq<BlockGap>) {
    && TxsOf(c.blocks) + c.curTxs == TxsOf(base.blocks) + txs
    && GapsOf(c.blocks) + c.curGaps == GapsOf(base.blocks) + gaps
    && c.trades == base.trades + TradesOfTxs(txs) && c.tradesTotal == base.tradesTotal + |TradesOfTxs(txs)|
  }

  lemma SealHolds(base: Core, c: Core, lastTick: nat, txs: seq<BlockTx>, gaps: seq<BlockGap>)
    requires Holds(base, c, txs, gaps)
    ensures Holds(base, SealBlock(c, lastTick), txs, gaps)
  {
    var c' := SealBlock(c, lastTick);
    assert c'.blocks[..|c.blocks|] == c.blocks;
    assert TxsOf(c'.blocks) + [] == TxsOf(c'.blocks) && GapsOf(c'.blocks) + [] == GapsOf(c'.blocks);
  }

  /** Processing a position adds its entry, or its gap, at the end of the record. */
  lemma ProcessHolds(parse: Parser, base: Core, c: Core, a: Action, txs: seq<BlockTx>, gaps: seq<BlockGap>)
    returns (txs': seq<BlockTx>)
    requires Holds(base, c, txs, gaps) && Legal(a) && a.Consume?
    ensures Holds(base, Process(parse, c, a.tick, a.pos, a.outcome), txs', gaps + GapEntry(parse, a))
    ensures EntriesOfTxs(txs') == EntriesOfTxs(txs) + ValidEntry(parse, a)
  {
    hide Execute;
    hide TxsOf;
    hide GapsOf;
    var c' := Process(parse, c, a.tick, a.pos, a.outcome);
    txs' := txs;
    if ValidEntry(parse, a) == [] {
      assert EntriesOfTxs(txs) + [] == EntriesOfTxs(txs);
      assert GapsOf(c.blocks) + (c.curGaps + GapEntry(parse, a)) == (GapsOf(c.blocks) + c.curGaps) + GapEntry(parse, a);
    } else {
      var t := c'.curTxs[|c.curTxs|];
      txs' := txs + [t];
      assert txs'[..|txs|] == txs;
      assert TxsOf(c.blocks) + (c.curTxs + [t]) == (TxsOf(c.blocks) + c.curTxs) + [t];
      assert gaps + [] == gaps;
    }
  }

  /** The record is the tape: from the start of an epoch the blocks and the block in
      progress hold, in tape order, exactly the valid entries and exactly the gaps, and
      the trades are those of the recorded results. */
  lemma {:induction false} RecordIsTape(parse: Parser, blockTicks: nat, base: Core, acts: seq<Action>)
    returns (txs: seq<BlockTx>)
    requires blockTicks > 0 && AllLegal(acts) && base.curTxs == [] && base.curGaps == []
    ensures Holds(base, ApplyAll(parse, blockTicks, base, acts), txs, GapEntries(parse, acts))
    ensures EntriesOfTxs(txs) == ValidEntries(parse, acts)
    decreases |acts|
  {
    txs := [];
    if acts != [] {
      var front, a := acts[..|acts| - 1], acts[|acts| - 1];
      assert acts == front + [a] && Legal(a);
      txs := RecordIsTape(parse, blockTicks, base, front);
      ApplyAppend(parse, blockTicks, base, front, a);
      var now := ApplyAll(parse, blockTicks, base, front);
      hide Holds;
      hide ApplyAll;
      hide Process;
      hide SealBlock;
      if a.Consume? {
        txs := ProcessHolds(parse, base, now, a, txs, GapEntries(parse, front));
      } else {
        SealHolds(base, now, a.tick, txs, GapEntries(parse, front));
        assert GapEntries(parse, front) + [] == GapEntries(parse, front);
        assert ValidEntries(parse, front) + [] == ValidEntries(parse, front);
      }
    }
  }
}
