/** What the adapter promises: polling schedules do not matter, the state is the
    fold over the tape prefix before the cursor, blocks tile the ticks, every
    consumed position is accounted for, and what the stream commitment fixes. */
module AdapterLaws {
  import opened Wrappers
  import opened Outcomes
  import opened OrderBook
  import opened TapeAdapter
  import opened ModArith

  // ----- confluence of polling schedules

  lemma {:induction false} StepsSurviveGrowth(parse: Parser, blockTicks: nat, old_: Store, new_: Store, s: Sim, n: nat,
                                              s': Sim)
    requires blockTicks > 0 && Extends(old_, new_) && StepsTo(parse, blockTicks, old_, s, n, s')
    ensures StepsTo(parse, blockTicks, new_, s, n, s')
    decreases n
  {
    hide Process, FinishTick;
    if n > 0 {
      var a := NextAction(old_, s.tick, s.pos).value;
      assert NextAction(new_, s.tick, s.pos) == Some(a);
      StepsSurviveGrowth(parse, blockTicks, old_, new_, Step(parse, blockTicks, s, a), n - 1, s');
    }
  }

  lemma {:induction false} StepsCompose(parse: Parser, blockTicks: nat, store: Store, s: Sim, n: nat, m: Sim, k: nat,
                                        s': Sim)
    requires blockTicks > 0 && StepsTo(parse, blockTicks, store, s, n, m) && StepsTo(parse, blockTicks, store, m, k, s')
    ensures StepsTo(parse, blockTicks, store, s, n + k, s')
    decreases n
  {
    hide Process, FinishTick, NextAction;
    if n > 0 {
      var a := NextAction(store, s.tick, s.pos).value;
      StepsCompose(parse, blockTicks, store, Step(parse, blockTicks, s, a), n - 1, m, k, s');
    }
  }

  /** One poll: the store it saw, the steps it took, where it ended. */
  datatype Poll = Poll(store: Store, steps: nat, end: Sim)

  ghost predicate IsSchedule(parse: Parser, blockTicks: nat, s: Sim, polls: seq<Poll>)
    requires blockTicks > 0
    decreases |polls|
  {
    polls == [] ||
    (StepsTo(parse, blockTicks, polls[0].store, s, polls[0].steps, polls[0].end)
     && IsSchedule(parse, blockTicks, polls[0].end, polls[1..]))
  }

  ghost function ScheduleEnd(s: Sim, polls: seq<Poll>): Sim {
    if polls == [] then s else polls[|polls| - 1].end
  }

  ghost function TotalSteps(polls: seq<Poll>): nat {
    if polls == [] then 0 else polls[0].steps + TotalSteps(polls[1..])
  }

  /** Any schedule of polls against a growing store is plain stepping over the
      final store. */
  lemma {:induction false} ScheduleIsStepping(parse: Parser, blockTicks: nat, final: Store, s: Sim, polls: seq<Poll>)
    requires blockTicks > 0 && IsSchedule(parse, blockTicks, s, polls)
    requires forall i | 0 <= i < |polls| :: Extends(polls[i].store, final)
    ensures StepsTo(parse, blockTicks, final, s, TotalSteps(polls), ScheduleEnd(s, polls))
    decreases |polls|
  {
    hide StepsTo, Extends;
    if polls != [] {
      assert Extends(polls[0].store, final);
      ScheduleIsStepping(parse, blockTicks, final, polls[0].end, polls[1..]);
      StepsSurviveGrowth(parse, blockTicks, polls[0].store, final, s, polls[0].steps, polls[0].end);
      StepsCompose(parse, blockTicks, final, s, polls[0].steps, polls[0].end, TotalSteps(polls[1..]),
                   ScheduleEnd(s, polls));
    } else {
      NoSteps(parse, blockTicks, final, s);
    }
  }

  lemma NoSteps(parse: Parser, blockTicks: nat, store: Store, s: Sim)
    requires blockTicks > 0
    ensures StepsTo(parse, blockTicks, store, s, 0, s)
  {}

  lemma {:induction false} SteppingIsLinear(parse: Parser, blockTicks: nat, store: Store, s: Sim, n: nat, a: Sim,
                                            m: nat, b: Sim)
    requires blockTicks > 0 && n <= m
    requires StepsTo(parse, blockTicks, store, s, n, a) && StepsTo(parse, blockTicks, store, s, m, b)
    ensures StepsTo(parse, blockTicks, store, a, m - n, b)
    decreases n
  {
    hide Process, FinishTick, NextAction;
    if n > 0 {
      var next := Step(parse, blockTicks, s, NextAction(store, s.tick, s.pos).value);
      SteppingIsLinear(parse, blockTicks, store, next, n - 1, a, m - 1, b);
    }
  }

  /** Confluence: however two schedules chunk their polls, one end state is
      reached from the other by further steps; and once nothing more can be
      consumed the two are equal. */
  lemma Confluence(parse: Parser, blockTicks: nat, final: Store, s: Sim, p: seq<Poll>, q: seq<Poll>)
    requires blockTicks > 0 && IsSchedule(parse, blockTicks, s, p) && IsSchedule(parse, blockTicks, s, q)
    requires forall i | 0 <= i < |p| :: Extends(p[i].store, final)
    requires forall i | 0 <= i < |q| :: Extends(q[i].store, final)
    requires TotalSteps(p) <= TotalSteps(q)
    ensures var a, b := ScheduleEnd(s, p), ScheduleEnd(s, q);
            && StepsTo(parse, blockTicks, final, a, TotalSteps(q) - TotalSteps(p), b)
            && (NextAction(final, a.tick, a.pos).None? ==> a == b)
  {
    var a, b := ScheduleEnd(s, p), ScheduleEnd(s, q);
    ScheduleIsStepping(parse, blockTicks, final, s, p);
    ScheduleIsStepping(parse, blockTicks, final, s, q);
    SteppingIsLinear(parse, blockTicks, final, s, TotalSteps(p), a, TotalSteps(q), b);
  }

  // ----- the fold over the tape prefix

  function EntryCount(store: Store, tick: nat): nat {
    if tick in store.ticks then store.ticks[tick] else 0
  }

  /** Every tick before the cursor is sealed, and every position before it is
      resolved. */
  ghost predicate PrefixResolved(store: Store, tick: nat, pos: nat) {
    && tick >= 1 && (pos > 0 ==> tick in store.ticks) && pos <= EntryCount(store, tick)
    && (forall t | 1 <= t < tick :: t in store.ticks)
    && (forall t, p | 1 <= t <= tick && 0 <= p < (if t == tick then pos else EntryCount(store, t)) ::
          ResolvedAt(store, t, p))
  }

  ghost predicate ResolvedAt(store: Store, t: nat, p: nat) {
    (t, p) in store.tape && !store.tape[(t, p)].Pending?
  }

  /** Everything on the tape lexicographically before the cursor. */
  ghost function TapePrefix(store: Store, tick: nat, pos: nat): (acts: seq<Action>)
    requires PrefixResolved(store, tick, pos)
    ensures AllLegal(acts)
    decreases tick, pos
  {
    if pos > 0 then
      assert ResolvedAt(store, tick, pos - 1);
      TapePrefix(store, tick, pos - 1) + [Consume(tick, pos - 1, store.tape[(tick, pos - 1)])]
    else if tick > 1 then TapePrefix(store, tick - 1, EntryCount(store, tick - 1)) + [Finish(tick - 1)]
    else []
  }

  lemma {:induction false} ApplyAppend(parse: Parser, blockTicks: nat, c: Core, acts: seq<Action>, a: Action)
    requires blockTicks > 0 && AllLegal(acts) && Legal(a)
    ensures AllLegal(acts + [a])
    ensures ApplyAll(parse, blockTicks, c, acts + [a])
            == Apply(parse, blockTicks, ApplyAll(parse, blockTicks, c, acts), a)
    decreases |acts|
  {
    hide Process, FinishTick;
    if acts == [] {
      assert [a][1..] == [];
    } else {
      ApplyAppend(parse, blockTicks, Apply(parse, blockTicks, c, acts[0]), acts[1..], a);
      assert (acts + [a])[1..] == acts[1..] + [a] && (acts + [a])[0] == acts[0];
    }
  }

  /** s is the fold of the actions before its cursor, from core start. */
  ghost predicate IsPrefixFold(parse: Parser, blockTicks: nat, store: Store, start: Core, s: Sim)
    requires blockTicks > 0
  {
    PrefixResolved(store, s.tick, s.pos)
    && s.core == ApplyAll(parse, blockTicks, start, TapePrefix(store, s.tick, s.pos))
  }

  lemma StepKeepsFold(parse: Parser, blockTicks: nat, store: Store, start: Core, s: Sim)
    requires blockTicks > 0 && IsPrefixFold(parse, blockTicks, store, start, s)
    requires NextAction(store, s.tick, s.pos).Some?
    ensures IsPrefixFold(parse, blockTicks, store, start,
                         Step(parse, blockTicks, s, NextAction(store, s.tick, s.pos).value))
  {
    hide Process, FinishTick, ApplyAll;
    var a := NextAction(store, s.tick, s.pos).value;
    PrefixGrows(store, s.tick, s.pos, a);
    ApplyAppend(parse, blockTicks, start, TapePrefix(store, s.tick, s.pos), a);
  }

  lemma PrefixGrows(store: Store, tick: nat, pos: nat, a: Action)
    requires PrefixResolved(store, tick, pos) && NextAction(store, tick, pos) == Some(a)
    ensures PrefixResolved(store, After(a).0, After(a).1)
    ensures TapePrefix(store, After(a).0, After(a).1) == TapePrefix(store, tick, pos) + [a]
  {
    if a.Consume? {
      assert ResolvedAt(store, tick, pos);
    }
  }

  /** From the start of an epoch, however many steps are taken, the state is the
      fold of exactly the resolved positions before the cursor: nothing at or past
      a pending head has been executed. */
  lemma {:induction false} SteppingIsPrefixFold(parse: Parser, blockTicks: nat, store: Store, start: Core, s: Sim,
                                                n: nat, s': Sim)
    requires blockTicks > 0 && IsPrefixFold(parse, blockTicks, store, start, s)
    requires StepsTo(parse, blockTicks, store, s, n, s')
    ensures IsPrefixFold(parse, blockTicks, store, start, s')
    decreases n
  {
    hide Process, FinishTick, NextAction, IsPrefixFold;
    if n > 0 {
      StepKeepsFold(parse, blockTicks, store, start, s);
      var a := NextAction(store, s.tick, s.pos).value;
      SteppingIsPrefixFold(parse, blockTicks, store, start, Step(parse, blockTicks, s, a), n - 1, s');
    }
  }

  lemma EpochStartIsPrefixFold(parse: Parser, blockTicks: nat, store: Store, c: Core, epoch: nat)
    requires blockTicks > 0
    ensures var s := BeginEpoch(c, epoch); IsPrefixFold(parse, blockTicks, store, s.core, s)
  {
    assert TapePrefix(store, 1, 0) == [];
  }

  lemma OneStep(parse: Parser, blockTicks: nat, store: Store, s: Sim)
    requires blockTicks > 0 && NextAction(store, s.tick, s.pos).Some?
    ensures StepsTo(parse, blockTicks, store, s, 1, Step(parse, blockTicks, s, NextAction(store, s.tick, s.pos).value))
  {
    hide Apply;
    NoSteps(parse, blockTicks, store, Step(parse, blockTicks, s, NextAction(store, s.tick, s.pos).value));
  }

  /** A fully resolved prefix is consumed: stepping gets to its end. */
  lemma {:induction false} ReachPrefix(parse: Parser, blockTicks: nat, store: Store, start: Sim, tick: nat, pos: nat)
    returns (n: nat, s: Sim)
    requires blockTicks > 0 && start.tick == 1 && start.pos == 0 && PrefixResolved(store, tick, pos)
    ensures StepsTo(parse, blockTicks, store, start, n, s) && s.tick == tick && s.pos == pos
    decreases tick, pos
  {
    hide Apply, StepsTo;
    if tick == 1 && pos == 0 {
      n, s := 0, start;
      NoSteps(parse, blockTicks, store, start);
    } else {
      var m, before;
      if pos > 0 {
        assert ResolvedAt(store, tick, pos - 1);
        m, before := ReachPrefix(parse, blockTicks, store, start, tick, pos - 1);
      } else {
        m, before := ReachPrefix(parse, blockTicks, store, start, tick - 1, EntryCount(store, tick - 1));
      }
      n, s := m + 1, Step(parse, blockTicks, before, NextAction(store, before.tick, before.pos).value);
      OneStep(parse, blockTicks, store, before);
      StepsCompose(parse, blockTicks, store, start, m, before, 1, s);
    }
  }

  /** Some number of steps from s brings the cursor to the place. */
  ghost predicate Reaches(parse: Parser, blockTicks: nat, store: Store, s: Sim, tick: nat, pos: nat)
    requires blockTicks > 0
  {
    exists n, end :: StepsTo(parse, blockTicks, store, s, n, end) && end.tick == tick && end.pos == pos
  }

  /** From the start of an epoch the cursor gets to a place exactly when every tick
      before it is sealed and every position before it resolved. */
  lemma ReachesIff(parse: Parser, blockTicks: nat, store: Store, c: Core, epoch: nat, tick: nat, pos: nat)
    requires blockTicks > 0
    ensures Reaches(parse, blockTicks, store, BeginEpoch(c, epoch), tick, pos) <==> PrefixResolved(store, tick, pos)
  {
    var start := BeginEpoch(c, epoch);
    hide StepsTo;
    if PrefixResolved(store, tick, pos) {
      var n, s := ReachPrefix(parse, blockTicks, store, start, tick, pos);
    }
    if n, end :| StepsTo(parse, blockTicks, store, start, n, end) && end.tick == tick && end.pos == pos {
      EpochStartIsPrefixFold(parse, blockTicks, store, c, epoch);
      SteppingIsPrefixFold(parse, blockTicks, store, start.core, start, n, end);
    }
  }

  // ----- accounting and block tiling

  /** The number of positions before the cursor. */
  ghost function PositionsBefore(store: Store, tick: nat, pos: nat): nat
    decreases tick
  {
    pos + if tick <= 1 then 0 else PositionsBefore(store, tick - 1, EntryCount(store, tick - 1))
  }

  ghost function Recorded(blocks: seq<Block>): nat {
    if blocks == [] then 0
    else Recorded(blocks[..|blocks| - 1]) + |blocks[|blocks| - 1].txs| + |blocks[|blocks| - 1].gaps|
  }

  /** Entries and gaps of ticks [first, last]. */
  ghost predicate Within(txs: seq<BlockTx>, gaps: seq<BlockGap>, first: nat, last: nat) {
    && (forall i | 0 <= i < |txs| :: first <= txs[i].tick <= last)
    && (forall i | 0 <= i < |gaps| :: first <= gaps[i].tick <= last)
  }

  /** Block i of the epoch covers ticks i*B+1 to (i+1)*B and records only those. */
  ghost predicate Tile(base: Core, blocks: seq<Block>, i: nat, blockTicks: nat) {
    && |base.blocks| + i < |blocks|
    && var b := blocks[|base.blocks| + i];
      && b.number == base.blockCounter + i
      && b.firstTick == i * blockTicks + 1 && b.lastTick == i * blockTicks + blockTicks
      && Within(b.txs, b.gaps, b.firstTick, b.lastTick)
  }

  /** The blocks sealed since `base` tile the ticks before the block in progress. */
  ghost predicate Tiled(base: Core, c: Core, sealed_: nat, tick: nat, blockTicks: nat) {
    && |c.blocks| == |base.blocks| + sealed_ && c.blocks[..|base.blocks|] == base.blocks
    && c.blockCounter == base.blockCounter + sealed_
    && (forall i | 0 <= i < sealed_ :: Tile(base, c.blocks, i, blockTicks))
    && c.curFirstTick == sealed_ * blockTicks + 1
    && sealed_ * blockTicks < tick <= sealed_ * blockTicks + blockTicks
    && Within(c.curTxs, c.curGaps, c.curFirstTick, tick)
  }

  /** Every consumed position is a tape gap, an adapter gap, applied or failed,
      and is recorded in exactly one place of one block. */
  ghost predicate Accounted(base: Core, c: Core, consumed: nat) {
    && c.openedCount - base.openedCount
       == (c.adapterGaps - base.adapterGaps) + (c.applied - base.applied) + (c.failed - base.failed)
    && (c.openedCount - base.openedCount) + (c.tapeGaps - base.tapeGaps) == consumed
    && Recorded(c.blocks) + |c.curTxs| + |c.curGaps| == Recorded(base.blocks) + consumed
  }

  ghost predicate Audited(base: Core, store: Store, s: Sim, sealed_: nat, blockTicks: nat) {
    && s.tick >= 1 && s.pos <= EntryCount(store, s.tick)
    && Tiled(base, s.core, sealed_, s.tick, blockTicks)
    && Accounted(base, s.core, PositionsBefore(store, s.tick, s.pos))
  }

  lemma EpochStartAudited(store: Store, c: Core, epoch: nat, blockTicks: nat)
    requires blockTicks > 0
    ensures Audited(BeginEpoch(c, epoch).core, store, BeginEpoch(c, epoch), 0, blockTicks)
  {}

  /** Processing a position records it once and counts it once. */
  lemma ProcessRecords(parse: Parser, c: Core, tick: nat, pos: nat, outcome: Outcome)
    requires !outcome.Pending?
    ensures var c' := Process(parse, c, tick, pos, outcome);
            && c'.blocks == c.blocks && c'.blockCounter == c.blockCounter && c'.curFirstTick == c.curFirstTick
            && |c'.curTxs| + |c'.curGaps| == |c.curTxs| + |c.curGaps| + 1
            && c.curTxs <= c'.curTxs && (forall i | |c.curTxs| <= i < |c'.curTxs| :: c'.curTxs[i].tick == tick)
            && c.curGaps <= c'.curGaps && (forall i | |c.curGaps| <= i < |c'.curGaps| :: c'.curGaps[i].tick == tick)
            && c'.openedCount + c'.tapeGaps == c.openedCount + c.tapeGaps + 1
            && c'.openedCount - c.openedCount
               == (c'.adapterGaps - c.adapterGaps) + (c'.applied - c.applied) + (c'.failed - c.failed)
  {
    hide Execute;
  }

  lemma ConsumeAudited(parse: Parser, base: Core, store: Store, s: Sim, sealed_: nat, blockTicks: nat, outcome: Outcome)
    requires Audited(base, store, s, sealed_, blockTicks) && s.pos < EntryCount(store, s.tick) && !outcome.Pending?
    ensures Audited(base, store, Sim(Process(parse, s.core, s.tick, s.pos, outcome), s.tick, s.pos + 1), sealed_,
                    blockTicks)
  {
    ProcessRecords(parse, s.core, s.tick, s.pos, outcome);
    hide Process;
  }

  lemma FinishAudited(base: Core, store: Store, s: Sim, sealed_: nat, blockTicks: nat) returns (sealed': nat)
    requires blockTicks > 0 && Audited(base, store, s, sealed_, blockTicks) && s.pos == EntryCount(store, s.tick)
    ensures Audited(base, store, Sim(FinishTick(s.core, s.tick, blockTicks), s.tick + 1, 0), sealed', blockTicks)
  {
    sealed' := sealed_;
    BoundaryTick(s.tick, sealed_, blockTicks);
    if s.tick % blockTicks == 0 {
      sealed' := sealed_ + 1;
      SealTiles(base, s.core, sealed_, s.tick, blockTicks);
      assert SealBlock(s.core, s.tick).blocks[..|s.core.blocks|] == s.core.blocks;
    }
  }

  lemma SealTiles(base: Core, c: Core, sealed_: nat, tick: nat, blockTicks: nat)
    requires blockTicks > 0 && Tiled(base, c, sealed_, tick, blockTicks) && tick == sealed_ * blockTicks + blockTicks
    ensures Tiled(base, SealBlock(c, tick), sealed_ + 1, tick + 1, blockTicks)
  {
    var c' := SealBlock(c, tick);
    assert (sealed_ + 1) * blockTicks == sealed_ * blockTicks + blockTicks;
    forall i | 0 <= i < sealed_ + 1
      ensures Tile(base, c'.blocks, i, blockTicks)
    {
      assert i < sealed_ ==> Tile(base, c.blocks, i, blockTicks);
    }
  }

  /** Inside a range of B ticks only the last is divisible by B. */
  lemma BoundaryTick(tick: nat, k: nat, b: nat)
    requires b > 0 && k * b < tick <= k * b + b
    ensures tick % b == 0 <==> tick == k * b + b
  {
    ModAddMultiple(tick - k * b, k, b);
    if tick == k * b + b {
      DivModUnique(b, b, 1, 0);
    } else {
      ModSmall(tick - k * b, b);
    }
  }

  /** Tiling and accounting hold after any number of steps. */
  lemma {:induction false} SteppingIsAudited(parse: Parser, blockTicks: nat, base: Core, store: Store, s: Sim,
                                             sealed_: nat, n: nat, s': Sim)
    returns (sealed': nat)
    requires blockTicks > 0 && Audited(base, store, s, sealed_, blockTicks)
    requires StepsTo(parse, blockTicks, store, s, n, s')
    ensures Audited(base, store, s', sealed', blockTicks)
    decreases n
  {
    hide Process, FinishTick, Tiled, Accounted;
    sealed' := sealed_;
    if n > 0 {
      var a := NextAction(store, s.tick, s.pos).value;
      if a.Consume? {
        ConsumeAudited(parse, base, store, s, sealed_, blockTicks, a.outcome);
      } else {
        sealed' := FinishAudited(base, store, s, sealed_, blockTicks);
      }
      sealed' := SteppingIsAudited(parse, blockTicks, base, store, Step(parse, blockTicks, s, a), sealed', n - 1, s');
    }
  }

  /** An epoch as a whole: however the polls were chunked while the store grew, the
      simulator ends as the fold over the resolved prefix of the final tape, with
      blocks tiling the ticks and every consumed position accounted for once. */
  lemma EpochOfPolls(parse: Parser, blockTicks: nat, final: Store, c: Core, epoch: nat, polls: seq<Poll>)
    returns (sealed: nat)
    requires blockTicks > 0 && IsSchedule(parse, blockTicks, BeginEpoch(c, epoch), polls)
    requires forall i | 0 <= i < |polls| :: Extends(polls[i].store, final)
    ensures var start := BeginEpoch(c, epoch);
            var end := ScheduleEnd(start, polls);
            IsPrefixFold(parse, blockTicks, final, start.core, end)
              && Audited(start.core, final, end, sealed, blockTicks)
  {
    var start := BeginEpoch(c, epoch);
    var end := ScheduleEnd(start, polls);
    ScheduleIsStepping(parse, blockTicks, final, start, polls);
    EpochStartIsPrefixFold(parse, blockTicks, final, c, epoch);
    EpochStartAudited(final, c, epoch, blockTicks);
    hide IsSchedule, StepsTo, IsPrefixFold, Audited;
    SteppingIsPrefixFold(parse, blockTicks, final, start.core, start, TotalSteps(polls), end);
    sealed := SteppingIsAudited(parse, blockTicks, start.core, final, start, 0, TotalSteps(polls), end);
  }

  // ----- what the stream commitment fixes

  /** An entry executed against the book. */
  datatype Entry = Entry(tick: nat, pos: nat, payload: nat, account: Account, tx: Tx)

  /** The stateless-valid entries among the actions, in tape order. */
  function ValidEntries(parse: Parser, acts: seq<Action>): seq<Entry> {
    if acts == [] then []
    else ValidEntries(parse, acts[..|acts| - 1]) + ValidEntry(parse, acts[|acts| - 1])
  }

  function ValidEntry(parse: Parser, a: Action): seq<Entry> {
    if a.Consume? && a.outcome.Opened? && a.outcome.intent.namespace == LIGHTER_NAMESPACE
       && parse(a.outcome.intent.payload).Some?
    then
      var i := a.outcome.intent;
      [Entry(a.tick, a.pos, i.payload, i.account, parse(i.payload).value)]
    else []
  }

  function StreamOf(base: Stream, entries: seq<Entry>): Stream {
    if entries == [] then base
    else
      var e := entries[|entries| - 1];
      Chained(StreamOf(base, entries[..|entries| - 1]), e.tick, e.pos, e.payload)
  }

  function BookOf(b: BookState, entries: seq<Entry>): BookState {
    if entries == [] then b
    else
      var e := entries[|entries| - 1];
      Execute(BookOf(b, entries[..|entries| - 1]), e.account, e.tx, Place(e.tick, e.pos, 0)).0
  }

  /** The place recorded in trades does not influence the book. */
  lemma PlaceIrrelevant(b: BookState, account: Account, tx: Tx, p: Place, q: Place)
    ensures Execute(b, account, tx, p).0 == Execute(b, account, tx, q).0
  {
    hide Match, AfterMatch, Rest, Remove;
  }

  /** The commitment and the book depend only on the valid entries: gaps, foreign
      namespaces and unparseable payloads leave both alone. */
  lemma {:induction false} StreamAndBookOfEntries(parse: Parser, blockTicks: nat, c: Core, acts: seq<Action>)
    requires blockTicks > 0 && AllLegal(acts)
    ensures var c' := ApplyAll(parse, blockTicks, c, acts);
            && c'.stream == StreamOf(c.stream, ValidEntries(parse, acts))
            && c'.book == BookOf(c.book, ValidEntries(parse, acts))
    decreases |acts|
  {
    hide Execute, ApplyAll;
    if acts == [] {
      NothingApplied(parse, blockTicks, c);
    } else {
      var front, a := acts[..|acts| - 1], acts[|acts| - 1];
      assert acts == front + [a];
      StreamAndBookOfEntries(parse, blockTicks, c, front);
      ApplyAppend(parse, blockTicks, c, front, a);
      LastEntry(parse, blockTicks, c, ApplyAll(parse, blockTicks, c, front), ValidEntries(parse, front), a);
    }
  }

  lemma NothingApplied(parse: Parser, blockTicks: nat, c: Core)
    requires blockTicks > 0
    ensures ApplyAll(parse, blockTicks, c, []) == c
  {}

  lemma LastEntry(parse: Parser, blockTicks: nat, c: Core, now: Core, entries: seq<Entry>, a: Action)
    requires blockTicks > 0 && Legal(a)
    requires now.stream == StreamOf(c.stream, entries) && now.book == BookOf(c.book, entries)
    ensures Apply(parse, blockTicks, now, a).stream == StreamOf(c.stream, entries + ValidEntry(parse, a))
    ensures Apply(parse, blockTicks, now, a).book == BookOf(c.book, entries + ValidEntry(parse, a))
  {
    hide Execute;
    var v := ValidEntry(parse, a);
    if v == [] {
      assert entries + v == entries;
    } else {
      var e := v[0];
      assert (entries + v)[..|entries + v| - 1] == entries;
      PlaceIrrelevant(now.book, e.account, e.tx, Place(e.tick, e.pos, now.blockCounter), Place(e.tick, e.pos, 0));
    }
  }

  /** Equal up to the account. */
  predicate SameOnStream(p: Entry, q: Entry) {
    p.tick == q.tick && p.pos == q.pos && p.payload == q.payload
  }

  /** From one genesis, equal commitments mean the same entries at the same
      positions with the same payloads. */
  lemma {:induction false} StreamBindsEntries(base: Stream, p: seq<Entry>, q: seq<Entry>)
    requires !base.Chained? && StreamOf(base, p) == StreamOf(base, q)
    ensures |p| == |q| && forall i | 0 <= i < |p| :: SameOnStream(p[i], q[i])
  {
    if p != [] && q != [] {
      StreamBindsEntries(base, p[..|p| - 1], q[..|q| - 1]);
    }
  }

  /** The accounts are not bound: two intents with one payload and different
      accounts give one commitment and different books. */
  lemma StreamOmitsAccounts(parse: Parser, c: Core, payload: nat)
    requires c.book == EMPTY && parse(payload) == Some(Create(0, Bid, Limit, 5, 7, 9))
    ensures var one := Process(parse, c, 1, 0, Opened(Intent(LIGHTER_NAMESPACE, 1, payload)));
            var two := Process(parse, c, 1, 0, Opened(Intent(LIGHTER_NAMESPACE, 2, payload)));
            one.stream == two.stream && one.book != two.book
  {
    assert Insert(Bid, Order(1, 9, Bid, 5, 7, 0), [])[0].account == 1;
    assert Insert(Bid, Order(2, 9, Bid, 5, 7, 0), [])[0].account == 2;
  }

  /** With the accounts the commitment fixes the book. */
  lemma StreamAndAccountsFixBook(parse: Parser, b: BookState, base: Stream, p: seq<Entry>, q: seq<Entry>)
    requires !base.Chained? && StreamOf(base, p) == StreamOf(base, q)
    requires Parsed(parse, p) && Parsed(parse, q)
    requires forall i | 0 <= i < |p| && i < |q| :: p[i].account == q[i].account
    ensures BookOf(b, p) == BookOf(b, q)
  {
    SameEntriesIffSameAccounts(parse, base, p, q);
  }

  /** Each entry's transaction is its parsed payload. */
  ghost predicate Parsed(parse: Parser, entries: seq<Entry>) {
    forall i | 0 <= i < |entries| :: parse(entries[i].payload) == Some(entries[i].tx)
  }

  /** Exactly the accounts are missing: under one commitment two tapes have the same
      entries if and only if they have the same accounts in the same places. */
  lemma SameEntriesIffSameAccounts(parse: Parser, base: Stream, p: seq<Entry>, q: seq<Entry>)
    requires !base.Chained? && StreamOf(base, p) == StreamOf(base, q) && Parsed(parse, p) && Parsed(parse, q)
    ensures |p| == |q|
    ensures p == q <==> forall i | 0 <= i < |p| :: p[i].account == q[i].account
  {
    StreamBindsEntries(base, p, q);
    hide StreamOf;
    if forall i | 0 <= i < |p| :: p[i].account == q[i].account {
      forall i | 0 <= i < |p|
        ensures p[i] == q[i]
      {
        assert SameOnStream(p[i], q[i]);
      }
      assert p == q;
    }
  }

  /** For the book the accounts suffice but are not needed: a refused transaction
      leaves one book whoever sent it. */
  lemma RefusedAccountsDoNotShow(parse: Parser, payload: nat)
    requires parse(payload) == Some(Cancel(0, 9))
    ensures var p, q := [Entry(1, 0, payload, 1, Cancel(0, 9))], [Entry(1, 0, payload, 2, Cancel(0, 9))];
            && Parsed(parse, p) && Parsed(parse, q) && StreamOf(Genesis(0, 1), p) == StreamOf(Genesis(0, 1), q)
            && p != q && BookOf(EMPTY, p) == BookOf(EMPTY, q)
  {
    var p, q := [Entry(1, 0, payload, 1, Cancel(0, 9))], [Entry(1, 0, payload, 2, Cancel(0, 9))];
    assert p[..0] == [] && q[..0] == [] && p[0].account != q[0].account;
  }
}
