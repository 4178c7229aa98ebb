/** The adapter that feeds the tape to the order book
    (`advance`, `process_position` and `seal_block` in
    demo/gateway/src/lighter_sim.rs). */
module TapeAdapter {
  import opened Wrappers
  import opened Outcomes
  import opened OrderBook

  const LIGHTER_NAMESPACE: nat := 1

  /** Positions consumed per poll before the walk stops at a tick boundary. */
  const BATCH_BOUND: nat := 512

  // ----- the store, as the adapter reads it

  datatype Intent = Intent(namespace: nat, account: Account, payload: nat)

  type Outcome = TapeOutcome<Intent>

  /** The number of entries of each sealed tick, and the outcome at each
      position of the tape. */
  datatype Store = Store(ticks: map<nat, nat>, tape: map<(nat, nat), Outcome>)

  /** The store only appends ticks, and a resolved outcome never changes. */
  ghost predicate Extends(before: Store, after: Store) {
    && (forall t | t in before.ticks :: t in after.ticks && after.ticks[t] == before.ticks[t])
    && (forall k | k in before.tape :: k in after.tape && (before.tape[k].Pending? || after.tape[k] == before.tape[k]))
  }

  /** Payload parsing, left uninterpreted. */
  type Parser = nat -> Option<Tx>

  // ----- simulator state

  /** The running stream commitment, with an ideal hash. */
  datatype Stream = Unset | Genesis(epoch: nat, firstTick: nat) | Chained(prev: Stream, tick: nat, pos: nat,
                                                                          payload: nat)

  datatype BlockTx = BlockTx(tick: nat, pos: nat, account: Account, payload: nat, tx: Tx, result: ExecResult,
                             streamAfter: Stream)

  datatype BlockGap = BlockGap(tick: nat, pos: nat, reason: string)

  datatype Block = Block(number: nat, epoch: nat, firstTick: nat, lastTick: nat, txs: seq<BlockTx>, gaps: seq<BlockGap>,
                         stream: Stream, bookAfter: BookState)

  /** Everything but the cursor. */
  datatype Core = Core(
    book: BookState, blocks: seq<Block>, trades: seq<Trade>, blockCounter: nat, stream: Stream, epoch: nat,
    curTxs: seq<BlockTx>, curGaps: seq<BlockGap>, curFirstTick: nat,
    openedCount: nat, applied: nat, failed: nat, adapterGaps: nat, tapeGaps: nat, tradesTotal: nat)

  /** The cursor names the next (tick, pos) to consume. */
  datatype Sim = Sim(core: Core, tick: nat, pos: nat)

  const FRESH: Core := Core(EMPTY, [], [], 0, Unset, 0, [], [], 1, 0, 0, 0, 0, 0, 0)

  /** `begin_epoch`: the stream and the block in progress restart, the book stays. */
  function BeginEpoch(c: Core, epoch: nat): Sim {
    Sim(c.(epoch := epoch, stream := Genesis(epoch, 1), curTxs := [], curGaps := [], curFirstTick := 1), 1, 0)
  }

  function ReasonText(reason: GapReason): string {
    match reason
    case Undecryptable => "undecryptable (mauled ciphertext)"
    case InvalidIntent => "invalid intent (sig/namespace/expiry)"
    case Unopened => "unopened by cutoff"
  }

  function AddGap(c: Core, tick: nat, pos: nat, reason: string): Core {
    c.(curGaps := c.curGaps + [BlockGap(tick, pos, reason)])
  }

  function ExecuteEntry(c: Core, tick: nat, pos: nat, intent: Intent, tx: Tx): Core {
    var stream := Chained(c.stream, tick, pos, intent.payload);
    var (book, result) := Execute(c.book, intent.account, tx, Place(tick, pos, c.blockCounter));
    var trades := if result.Applied? then result.trades else [];
    c.(stream := stream, book := book,
       applied := c.applied + (if result.Applied? then 1 else 0),
       failed := c.failed + (if result.Applied? then 0 else 1),
       trades := c.trades + trades, tradesTotal := c.tradesTotal + |trades|,
       curTxs := c.curTxs + [BlockTx(tick, pos, intent.account, intent.payload, tx, result, stream)])
  }

  /** `process_position` on a resolved outcome. */
  function Process(parse: Parser, c: Core, tick: nat, pos: nat, outcome: Outcome): Core
    requires !outcome.Pending?
  {
    match outcome
    case Gap(reason) => AddGap(c.(tapeGaps := c.tapeGaps + 1), tick, pos, ReasonText(reason))
    case Opened(intent) =>
      var c' := c.(openedCount := c.openedCount + 1);
      if intent.namespace != LIGHTER_NAMESPACE then
        AddGap(c'.(adapterGaps := c.adapterGaps + 1), tick, pos, "foreign namespace")
      else
        var tx := parse(intent.payload);
        if tx.None? then AddGap(c'.(adapterGaps := c.adapterGaps + 1), tick, pos, "unparseable payload")
        else ExecuteEntry(c', tick, pos, intent, tx.value)
  }

  /** `seal_block` */
  function SealBlock(c: Core, lastTick: nat): Core {
    var block := Block(c.blockCounter, c.epoch, c.curFirstTick, lastTick, c.curTxs, c.curGaps, c.stream, c.book);
    c.(blocks := c.blocks + [block], blockCounter := c.blockCounter + 1, curFirstTick := lastTick + 1,
       curTxs := [], curGaps := [])
  }

  /** A block is sealed when the last tick of a range completes. */
  function FinishTick(c: Core, tick: nat, blockTicks: nat): Core
    requires blockTicks > 0
  {
    if tick % blockTicks == 0 then SealBlock(c, tick) else c
  }

  // ----- the reference: one step at a time

  datatype Action = Consume(tick: nat, pos: nat, outcome: Outcome) | Finish(tick: nat)

  /** The next action the store allows at a cursor, if any. */
  function NextAction(store: Store, tick: nat, pos: nat): (r: Option<Action>)
    ensures r.Some? ==> Legal(r.value) && r.value.tick == tick
  {
    if tick !in store.ticks then None
    else if pos < store.ticks[tick] then
      if (tick, pos) in store.tape && !store.tape[(tick, pos)].Pending?
      then Some(Consume(tick, pos, store.tape[(tick, pos)]))
      else None
    else Some(Finish(tick))
  }

  /** The pending entry a cursor stands at, with its maturity. */
  function HeadAt(store: Store, tick: nat, pos: nat): Option<(nat, nat, nat)> {
    if tick in store.ticks && pos < store.ticks[tick] && (tick, pos) in store.tape && store.tape[(tick, pos)].Pending?
    then Some((tick, pos, store.tape[(tick, pos)].matureAt))
    else None
  }

  predicate Legal(a: Action) {
    a.Consume? ==> !a.outcome.Pending?
  }

  function Apply(parse: Parser, blockTicks: nat, c: Core, a: Action): Core
    requires blockTicks > 0 && Legal(a)
  {
    match a
    case Consume(tick, pos, outcome) => Process(parse, c, tick, pos, outcome)
    case Finish(tick) => FinishTick(c, tick, blockTicks)
  }

  /** The cursor after an action. */
  function After(a: Action): (nat, nat) {
    match a
    case Consume(tick, pos, _) => (tick, pos + 1)
    case Finish(tick) => (tick + 1, 0)
  }

  function Step(parse: Parser, blockTicks: nat, s: Sim, a: Action): Sim
    requires blockTicks > 0 && Legal(a)
  {
    Sim(Apply(parse, blockTicks, s.core, a), After(a).0, After(a).1)
  }

  /** From s, n steps over the store lead to s'. */
  ghost predicate StepsTo(parse: Parser, blockTicks: nat, store: Store, s: Sim, n: nat, s': Sim)
    requires blockTicks > 0
    decreases n
  {
    if n == 0 then s == s'
    else
      var a := NextAction(store, s.tick, s.pos);
      a.Some? && StepsTo(parse, blockTicks, store, Step(parse, blockTicks, s, a.value), n - 1, s')
  }

  // ----- plans: what the walk over the store collects before replaying

  /** The actions are the next ones from a cursor. */
  ghost predicate IsPlan(store: Store, tick: nat, pos: nat, acts: seq<Action>)
    decreases |acts|
  {
    acts == [] ||
    (NextAction(store, tick, pos) == Some(acts[0]) && IsPlan(store, After(acts[0]).0, After(acts[0]).1, acts[1..]))
  }

  ghost function PlanEnd(tick: nat, pos: nat, acts: seq<Action>): (nat, nat) {
    if acts == [] then (tick, pos) else After(acts[|acts| - 1])
  }

  ghost predicate AllLegal(acts: seq<Action>) {
    forall i | 0 <= i < |acts| :: Legal(acts[i])
  }

  ghost function ApplyAll(parse: Parser, blockTicks: nat, c: Core, acts: seq<Action>): Core
    requires blockTicks > 0 && AllLegal(acts)
    decreases |acts|
  {
    if acts == [] then c else ApplyAll(parse, blockTicks, Apply(parse, blockTicks, c, acts[0]), acts[1..])
  }

  function Consumes(acts: seq<Action>): seq<Action> {
    if acts == [] then []
    else (if acts[0].Consume? then [acts[0]] else []) + Consumes(acts[1..])
  }

  function Finishes(acts: seq<Action>): seq<nat> {
    if acts == [] then []
    else (if acts[0].Finish? then [acts[0].tick] else []) + Finishes(acts[1..])
  }

  lemma {:induction false} PlanLegal(store: Store, tick: nat, pos: nat, acts: seq<Action>)
    requires IsPlan(store, tick, pos, acts)
    ensures AllLegal(acts)
    decreases |acts|
  {
    if acts != [] {
      PlanLegal(store, After(acts[0]).0, After(acts[0]).1, acts[1..]);
      forall i | 0 <= i < |acts|
        ensures Legal(acts[i])
      {
        assert i > 0 ==> acts[i] == acts[1..][i - 1];
      }
    }
  }

  /** Following a plan is stepping. */
  lemma {:induction false} PlanSteps(parse: Parser, blockTicks: nat, store: Store, s: Sim, acts: seq<Action>)
    requires blockTicks > 0 && IsPlan(store, s.tick, s.pos, acts) && AllLegal(acts)
    ensures StepsTo(parse, blockTicks, store, s, |acts|,
                    Sim(ApplyAll(parse, blockTicks, s.core, acts), PlanEnd(s.tick, s.pos, acts).0,
                        PlanEnd(s.tick, s.pos, acts).1))
    decreases |acts|
  {
    if acts != [] {
      PlanLegal(store, After(acts[0]).0, After(acts[0]).1, acts[1..]);
      PlanSteps(parse, blockTicks, store, Step(parse, blockTicks, s, acts[0]), acts[1..]);
    }
  }

  lemma {:induction false} PlanAppend(store: Store, tick: nat, pos: nat, acts: seq<Action>, a: Action)
    requires IsPlan(store, tick, pos, acts)
    requires var end := PlanEnd(tick, pos, acts); NextAction(store, end.0, end.1) == Some(a)
    ensures IsPlan(store, tick, pos, acts + [a])
    decreases |acts|
  {
    hide NextAction;
    if acts == [] {
      assert [a][1..] == [];
    } else {
      var rest := acts[1..];
      assert rest != [] ==> rest[|rest| - 1] == acts[|acts| - 1];
      PlanAppend(store, After(acts[0]).0, After(acts[0]).1, rest, a);
      assert (acts + [a])[1..] == rest + [a] && (acts + [a])[0] == acts[0];
    }
  }

  lemma {:induction false} ConsumesAppend(acts: seq<Action>, a: Action)
    ensures Consumes(acts + [a]) == Consumes(acts) + (if a.Consume? then [a] else [])
  {
    if acts == [] {
      assert [a][1..] == [];
    } else {
      ConsumesAppend(acts[1..], a);
      assert (acts + [a])[1..] == acts[1..] + [a];
    }
  }

  lemma {:induction false} FinishesAppend(acts: seq<Action>, a: Action)
    ensures Finishes(acts + [a]) == Finishes(acts) + (if a.Finish? then [a.tick] else [])
  {
    if acts == [] {
      assert [a][1..] == [];
    } else {
      FinishesAppend(acts[1..], a);
      assert (acts + [a])[1..] == acts[1..] + [a];
    }
  }

  /** The first tick a plan finishes is the cursor's, and nothing it consumes lies
      before the cursor's tick. */
  lemma {:induction false} PlanOrder(store: Store, tick: nat, pos: nat, acts: seq<Action>)
    requires IsPlan(store, tick, pos, acts)
    ensures Finishes(acts) != [] ==> Finishes(acts)[0] == tick
    ensures Consumes(acts) != [] ==> Consumes(acts)[0].tick >= tick
    decreases |acts|
  {
    if acts != [] {
      PlanOrder(store, After(acts[0]).0, After(acts[0]).1, acts[1..]);
    }
  }

  /** The walk from a cursor has reached (ct, cp). */
  ghost predicate Walked(store: Store, tick: nat, pos: nat, acts: seq<Action>, ct: nat, cp: nat, batch: seq<Action>,
                         ticks: seq<nat>) {
    && IsPlan(store, tick, pos, acts) && PlanEnd(tick, pos, acts) == (ct, cp)
    && batch == Consumes(acts) && ticks == Finishes(acts) && |batch| <= |acts|
  }

  ghost function Ahead(store: Store, tick: nat): set<nat> {
    set t | t in store.ticks && t >= tick
  }

  // ----- the class

  class SimState {
    var core: Core
    var cursorTick: nat
    var cursorPos: nat
    var headBlocked: Option<(nat, nat, nat)>

    constructor ()
      ensures State() == Sim(FRESH, 1, 0) && headBlocked == None
    {
      core, cursorTick, cursorPos, headBlocked := FRESH, 1, 0, None;
    }

    function State(): Sim
      reads this
    {
      Sim(core, cursorTick, cursorPos)
    }

    method Begin(epoch: nat)
      modifies this
      ensures State() == BeginEpoch(old(core), epoch) && headBlocked == None
    {
      core := core.(epoch := epoch, stream := Genesis(epoch, 1), curTxs := [], curGaps := [], curFirstTick := 1);
      cursorTick, cursorPos, headBlocked := 1, 0, None;
    }

    /** One poll: walk the store as far as it is resolved, then replay what was
        found. The result is n reference steps; there is progress exactly when a
        step was possible, and the walk stops early only past the bound. */
    method Advance(parse: Parser, store: Store, blockTicks: nat) returns (progress: bool, ghost n: nat)
      requires blockTicks > 0
      modifies this
      ensures StepsTo(parse, blockTicks, store, old(State()), n, State())
      ensures progress <==> n > 0
      ensures n > 0 <==> NextAction(store, old(cursorTick), old(cursorPos)).Some?
      ensures NextAction(store, cursorTick, cursorPos).None? || n >= 512
      ensures headBlocked.Some? || n < 512 ==> headBlocked == HeadAt(store, cursorTick, cursorPos)
    {
      var batch, ticksCompleted, head;
      ghost var acts;
      batch, ticksCompleted, head, acts := Walk(store);
      n := |acts|;
      headBlocked := head;
      if batch == [] && ticksCompleted == [] {
        ConsumesAndFinishesCover(acts);
        return false, 0;
      }
      PlanLegal(store, cursorTick, cursorPos, acts);
      PlanSteps(parse, blockTicks, store, State(), acts);
      Replay(parse, store, blockTicks, batch, ticksCompleted, acts);
      progress := true;
    }

    /** The first phase, under the store lock. */
    method Walk(store: Store)
      returns (batch: seq<Action>, ticksCompleted: seq<nat>, head: Option<(nat, nat, nat)>, ghost acts: seq<Action>)
      ensures IsPlan(store, cursorTick, cursorPos, acts)
      ensures batch == Consumes(acts) && ticksCompleted == Finishes(acts)
      ensures var end := PlanEnd(cursorTick, cursorPos, acts);
              && (NextAction(store, end.0, end.1).None? || |acts| >= BATCH_BOUND)
              && (head.Some? || |acts| < BATCH_BOUND ==> head == HeadAt(store, end.0, end.1))
    {
      batch, ticksCompleted, head, acts := [], [], None, [];
      var ct, cp := cursorTick, cursorPos;
      while ct in store.ticks
        invariant Walked(store, cursorTick, cursorPos, acts, ct, cp, batch, ticksCompleted) && head == None
        decreases Ahead(store, ct)
      {
        batch, cp, acts := WalkTick(store, acts, ct, cp, batch, ticksCompleted);
        if cp < store.ticks[ct] {
          if (ct, cp) in store.tape {
            head := Some((ct, cp, store.tape[(ct, cp)].matureAt));
          }
          break;
        }
        PlanAppend(store, cursorTick, cursorPos, acts, Finish(ct));
        ConsumesAppend(acts, Finish(ct));
        FinishesAppend(acts, Finish(ct));
        acts := acts + [Finish(ct)];
        ticksCompleted := ticksCompleted + [ct];
        assert ct in Ahead(store, ct) && ct !in Ahead(store, ct + 1);
        ct, cp := ct + 1, 0;
        if |batch| >= BATCH_BOUND {
          break;
        }
      }
    }

    /** Collect the resolved positions of one tick. */
    method WalkTick(store: Store, ghost acts0: seq<Action>, ct: nat, cp0: nat, batch0: seq<Action>,
                    ghost ticks: seq<nat>)
      returns (batch: seq<Action>, cp: nat, ghost acts: seq<Action>)
      requires ct in store.ticks && Walked(store, cursorTick, cursorPos, acts0, ct, cp0, batch0, ticks)
      ensures Walked(store, cursorTick, cursorPos, acts, ct, cp, batch, ticks)
      ensures cp < store.ticks[ct] ==> (ct, cp) !in store.tape || store.tape[(ct, cp)].Pending?
    {
      batch, cp, acts := batch0, cp0, acts0;
      while cp < store.ticks[ct] && (ct, cp) in store.tape && !store.tape[(ct, cp)].Pending?
        invariant Walked(store, cursorTick, cursorPos, acts, ct, cp, batch, ticks)
        decreases if cp < store.ticks[ct] then store.ticks[ct] - cp else 0
      {
        var a := Consume(ct, cp, store.tape[(ct, cp)]);
        PlanAppend(store, cursorTick, cursorPos, acts, a);
        ConsumesAppend(acts, a);
        FinishesAppend(acts, a);
        acts := acts + [a];
        batch := batch + [a];
        cp := cp + 1;
      }
    }

    /** The second phase: replay the resolved positions, sealing blocks at range
        boundaries. */
    method Replay(parse: Parser, store: Store, blockTicks: nat, batch: seq<Action>, ticksCompleted: seq<nat>,
                  ghost acts: seq<Action>)
      requires blockTicks > 0 && acts != []
      requires IsPlan(store, cursorTick, cursorPos, acts) && AllLegal(acts)
      requires batch == Consumes(acts) && ticksCompleted == Finishes(acts)
      modifies this`core, this`cursorTick, this`cursorPos
      ensures core == ApplyAll(parse, blockTicks, old(core), acts)
      ensures (cursorTick, cursorPos) == PlanEnd(old(cursorTick), old(cursorPos), acts)
    {
      RemainingStart(parse, blockTicks, store, core, acts, (cursorTick, cursorPos), batch, ticksCompleted);
      hide Process, FinishTick, Remaining, IsPlan, ApplyAll, Consumes, Finishes;
      ghost var rest, at := acts, (cursorTick, cursorPos);
      ghost var start := core;
      var next := 0;
      for i := 0 to |ticksCompleted|
        invariant Remaining(parse, blockTicks, store, start, acts, core, at, rest, batch, next, ticksCompleted, i)
        invariant i > 0 ==> (cursorTick, cursorPos) == at
        invariant i == 0 ==> rest == acts
      {
        next, rest, at := ReplayTick(parse, store, blockTicks, start, acts, at, rest, batch, next, ticksCompleted, i);
      }
      ReplayTail(parse, store, blockTicks, start, acts, at, rest, batch, next, ticksCompleted);
    }

    /** Replay one completed tick: its positions, then its block boundary. */
    method ReplayTick(parse: Parser, store: Store, blockTicks: nat, ghost start: Core, ghost acts: seq<Action>,
                      ghost at0: (nat, nat), ghost rest0: seq<Action>, batch: seq<Action>, next0: nat, ticks: seq<nat>,
                      i: nat)
      returns (next: nat, ghost rest: seq<Action>, ghost at: (nat, nat))
      requires blockTicks > 0 && acts != [] && AllLegal(acts) && i < |ticks|
      requires Remaining(parse, blockTicks, store, start, acts, core, at0, rest0, batch, next0, ticks, i)
      modifies this`core, this`cursorTick, this`cursorPos
      ensures Remaining(parse, blockTicks, store, start, acts, core, at, rest, batch, next, ticks, i + 1)
      ensures (cursorTick, cursorPos) == at
    {
      hide Process, FinishTick, Remaining, IsPlan, ApplyAll, Consumes, Finishes;
      next, rest, at := ReplayUpTo(parse, store, blockTicks, start, acts, at0, rest0, batch, next0, ticks, i);
      NextIsFinish(parse, blockTicks, store, start, acts, core, at, rest, batch, next, ticks, i);
      SealIfDue(ticks[i], blockTicks);
      cursorTick, cursorPos := ticks[i] + 1, 0;
      at, rest := After(rest[0]), rest[1..];
    }

    method SealIfDue(doneTick: nat, blockTicks: nat)
      requires blockTicks > 0
      modifies this`core
      ensures core == FinishTick(old(core), doneTick, blockTicks)
    {
      if doneTick % blockTicks == 0 {
        core := SealBlock(core, doneTick);
      }
    }

    /** Replay the positions of ticks up to the one being completed. */
    method ReplayUpTo(parse: Parser, store: Store, blockTicks: nat, ghost start: Core, ghost acts: seq<Action>,
                      ghost at0: (nat, nat), ghost rest0: seq<Action>, batch: seq<Action>, next0: nat, ticks: seq<nat>,
                      i: nat)
      returns (next: nat, ghost rest: seq<Action>, ghost at: (nat, nat))
      requires blockTicks > 0 && acts != [] && AllLegal(acts) && i < |ticks|
      requires Remaining(parse, blockTicks, store, start, acts, core, at0, rest0, batch, next0, ticks, i)
      modifies this`core
      ensures Remaining(parse, blockTicks, store, start, acts, core, at, rest, batch, next, ticks, i)
      ensures next == |batch| || batch[next].tick > ticks[i]
    {
      hide Process, FinishTick;
      next, rest, at := next0, rest0, at0;
      while next < |batch| && batch[next].tick <= ticks[i]
        invariant Remaining(parse, blockTicks, store, start, acts, core, at, rest, batch, next, ticks, i)
        decreases |batch| - next
      {
        NextIsConsume(parse, blockTicks, store, start, acts, core, at, rest, batch, next, ticks, i);
        var r := batch[next];
        core := Process(parse, core, r.tick, r.pos, r.outcome);
        at, rest, next := After(rest[0]), rest[1..], next + 1;
      }
    }

    /** Replay the positions of the tick still incomplete. */
    method ReplayTail(parse: Parser, store: Store, blockTicks: nat, ghost start: Core, ghost acts: seq<Action>,
                      ghost at0: (nat, nat), ghost rest0: seq<Action>, batch: seq<Action>, next0: nat,
                      ghost ticks: seq<nat>)
      requires blockTicks > 0 && acts != [] && AllLegal(acts)
      requires Remaining(parse, blockTicks, store, start, acts, core, at0, rest0, batch, next0, ticks, |ticks|)
      requires (cursorTick, cursorPos) == at0 || rest0 == acts
      modifies this`core, this`cursorTick, this`cursorPos
      ensures core == ApplyAll(parse, blockTicks, start, acts)
      ensures (cursorTick, cursorPos) == After(acts[|acts| - 1])
    {
      hide Process, FinishTick;
      ghost var rest, at := rest0, at0;
      var next := next0;
      while next < |batch|
        invariant Remaining(parse, blockTicks, store, start, acts, core, at, rest, batch, next, ticks, |ticks|)
        invariant (cursorTick, cursorPos) == at || rest == acts
        decreases |batch| - next
      {
        RestIsConsume(parse, blockTicks, store, start, acts, core, at, rest, batch, next, ticks);
        var r := batch[next];
        core := Process(parse, core, r.tick, r.pos, r.outcome);
        cursorTick, cursorPos := r.tick, r.pos + 1;
        at, rest, next := After(rest[0]), rest[1..], next + 1;
      }
      ReplayDone(parse, blockTicks, store, start, acts, core, at, rest, batch, ticks);
    }
  }

  lemma ReplayDone(parse: Parser, blockTicks: nat, store: Store, start: Core, acts: seq<Action>, now: Core,
                   at: (nat, nat), rest: seq<Action>, batch: seq<Action>, ticks: seq<nat>)
    requires blockTicks > 0 && AllLegal(acts) && acts != []
    requires Remaining(parse, blockTicks, store, start, acts, now, at, rest, batch, |batch|, ticks, |ticks|)
    ensures rest == [] && now == ApplyAll(parse, blockTicks, start, acts) && at == After(acts[|acts| - 1])
  {
    ConsumesAndFinishesCover(rest);
  }

  lemma {:induction false} ConsumesAndFinishesCover(acts: seq<Action>)
    ensures |Consumes(acts)| + |Finishes(acts)| == |acts|
  {
    if acts != [] {
      ConsumesAndFinishesCover(acts[1..]);
    }
  }

  /** The replay invariant: the remaining actions, applied from here, give the
      same core as all of them from the start; the batch and tick lists not yet
      used are those of the remaining actions. */
  ghost predicate Remaining(parse: Parser, blockTicks: nat, store: Store, start: Core, acts: seq<Action>, now: Core,
                            at: (nat, nat), rest: seq<Action>, batch: seq<Action>, next: nat, ticks: seq<nat>, i: nat)
    requires blockTicks > 0 && AllLegal(acts)
  {
    && next <= |batch| && i <= |ticks|
    && AllLegal(rest) && IsPlan(store, at.0, at.1, rest)
    && batch[next..] == Consumes(rest) && ticks[i..] == Finishes(rest)
    && ApplyAll(parse, blockTicks, now, rest) == ApplyAll(parse, blockTicks, start, acts)
    && PlanEnd(at.0, at.1, rest) == (if acts == [] then at else After(acts[|acts| - 1]))
  }

  lemma RemainingStart(parse: Parser, blockTicks: nat, store: Store, start: Core, acts: seq<Action>,
                       at: (nat, nat), batch: seq<Action>, ticks: seq<nat>)
    requires blockTicks > 0 && AllLegal(acts) && IsPlan(store, at.0, at.1, acts)
    requires batch == Consumes(acts) && ticks == Finishes(acts)
    ensures Remaining(parse, blockTicks, store, start, acts, start, at, acts, batch, 0, ticks, 0)
  {}

  lemma NextIsConsume(parse: Parser, blockTicks: nat, store: Store, start: Core, acts: seq<Action>, now: Core,
                      at: (nat, nat), rest: seq<Action>, batch: seq<Action>, next: nat, ticks: seq<nat>, i: nat)
    requires blockTicks > 0 && AllLegal(acts) && acts != []
    requires Remaining(parse, blockTicks, store, start, acts, now, at, rest, batch, next, ticks, i)
    requires next < |batch| && i < |ticks| && batch[next].tick <= ticks[i]
    ensures rest != [] && rest[0] == batch[next] && batch[next].Consume? && Legal(batch[next])
    ensures Remaining(parse, blockTicks, store, start, acts, Apply(parse, blockTicks, now, rest[0]), After(rest[0]),
                      rest[1..], batch, next + 1, ticks, i)
  {
    hide Process, FinishTick;
    PlanOrder(store, at.0, at.1, rest);
    PlanOrder(store, After(rest[0]).0, After(rest[0]).1, rest[1..]);
    assert batch[next..][0] == batch[next] && ticks[i..][0] == ticks[i];
    assert batch[next + 1..] == batch[next..][1..];
    PlanLegal(store, After(rest[0]).0, After(rest[0]).1, rest[1..]);
  }

  lemma NextIsFinish(parse: Parser, blockTicks: nat, store: Store, start: Core, acts: seq<Action>, now: Core,
                     at: (nat, nat), rest: seq<Action>, batch: seq<Action>, next: nat, ticks: seq<nat>, i: nat)
    requires blockTicks > 0 && AllLegal(acts) && acts != []
    requires Remaining(parse, blockTicks, store, start, acts, now, at, rest, batch, next, ticks, i)
    requires i < |ticks| && (next == |batch| || batch[next].tick > ticks[i])
    ensures rest != [] && rest[0] == Finish(ticks[i])
    ensures Remaining(parse, blockTicks, store, start, acts, Apply(parse, blockTicks, now, rest[0]), After(rest[0]),
                      rest[1..], batch, next, ticks, i + 1)
  {
    hide Process, FinishTick;
    PlanOrder(store, at.0, at.1, rest);
    assert ticks[i..][0] == ticks[i];
    assert ticks[i + 1..] == ticks[i..][1..];
    if next < |batch| {
      assert batch[next..][0] == batch[next];
    }
    PlanLegal(store, After(rest[0]).0, After(rest[0]).1, rest[1..]);
  }

  lemma RestIsConsume(parse: Parser, blockTicks: nat, store: Store, start: Core, acts: seq<Action>, now: Core,
                      at: (nat, nat), rest: seq<Action>, batch: seq<Action>, next: nat, ticks: seq<nat>)
    requires blockTicks > 0 && AllLegal(acts) && acts != []
    requires Remaining(parse, blockTicks, store, start, acts, now, at, rest, batch, next, ticks, |ticks|)
    requires next < |batch|
    ensures rest != [] && rest[0] == batch[next] && batch[next].Consume? && Legal(batch[next])
    ensures Remaining(parse, blockTicks, store, start, acts, Apply(parse, blockTicks, now, rest[0]), After(rest[0]),
                      rest[1..], batch, next + 1, ticks, |ticks|)
  {
    hide Process, FinishTick;
    assert batch[next..][0] == batch[next];
    assert batch[next + 1..] == batch[next..][1..];
    PlanLegal(store, After(rest[0]).0, After(rest[0]).1, rest[1..]);
  }
}
