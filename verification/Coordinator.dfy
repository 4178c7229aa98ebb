/** Wave scheduling, outcomes and the execution cutoff
    (crates/sequencer/src/node.rs:308-382, 432-446, 469-497, store.rs:85-108). */
module Coordinator {
  import opened Outcomes
  import opened Digests

  type Place = (nat, nat)

  /** Maturity tick and delay class. */
  type WaveKey = (nat, nat)

  type Outcome = TapeOutcome<Bytes>

  datatype Position = Position(h: Digest, delayClass: nat, outcome: Outcome)

  /** A sealed entry: its place, its commitment and its delay class. */
  datatype Entry = Entry(tick: nat, pos: nat, h: Digest, delayClass: nat) {
    function At(): Place { (tick, pos) }
  }

  /** A wave handed to a solver: its key, its items and the tick it left. */
  datatype Flight = Flight(mature: nat, delayClass: nat, items: seq<Entry>, sentAt: nat, landed: bool) {
    function Key(): WaveKey { (mature, delayClass) }
  }

  /** Delay of each class in ticks, and the grace after maturity. */
  datatype Timing = Timing(delay: nat -> nat, grace: nat) {
    function Mature(e: Entry): nat { e.tick + delay(e.delayClass) }
    function Key(e: Entry): WaveKey { (Mature(e), e.delayClass) }
  }

  type Tape = map<Place, Position>

  type Waves = map<WaveKey, seq<Entry>>

  // ----- the store

  /** A resolved outcome is terminal. */
  function SetOutcome(tape: Tape, at: Place, outcome: Outcome): Tape {
    if at in tape && tape[at].outcome.Pending? then tape[at := tape[at].(outcome := outcome)] else tape
  }

  predicate Overdue(p: Position, tick: nat, grace: nat) {
    p.outcome.Pending? && p.outcome.matureAt + grace <= tick
  }

  /** Everything overdue becomes an unopened gap. */
  function CutOff(tape: Tape, tick: nat, grace: nat): Tape {
    map at | at in tape :: if Overdue(tape[at], tick, grace) then tape[at].(outcome := Gap(Unopened)) else tape[at]
  }

  function AddPositions(tm: Timing, tape: Tape, batch: seq<Entry>): Tape
    decreases |batch|
  {
    if batch == [] then tape
    else
      var e := batch[|batch| - 1];
      AddPositions(tm, tape, batch[..|batch| - 1])[e.At() := Position(e.h, e.delayClass, Pending(tm.Mature(e)))]
  }

  function WaveAt(waves: Waves, key: WaveKey): seq<Entry> {
    if key in waves then waves[key] else []
  }

  function AddWaves(tm: Timing, waves: Waves, batch: seq<Entry>): Waves
    decreases |batch|
  {
    if batch == [] then waves
    else
      var e := batch[|batch| - 1];
      var before := AddWaves(tm, waves, batch[..|batch| - 1]);
      before[tm.Key(e) := WaveAt(before, tm.Key(e)) + [e]]
  }

  /** Outcomes in item order, as far as there are witnesses. */
  function ApplyOutcomes(tape: Tape, items: seq<Entry>, outcomes: seq<Outcome>): Tape
    decreases |items|
  {
    if items == [] then tape
    else if |outcomes| < |items| then ApplyOutcomes(tape, items[..|items| - 1], outcomes)
    else SetOutcome(ApplyOutcomes(tape, items[..|items| - 1], outcomes), items[|items| - 1].At(), outcomes[|items| - 1])
  }

  // ----- the state machine

  /** `sealed` is history: every entry of every tick so far. */
  datatype State = State(tick: nat, tape: Tape, waves: Waves, flights: seq<Flight>, sealed: seq<Entry>)

  const START: State := State(0, map[], map[], [], [])

  /** The flights sent at a tick: every wave due, each once. */
  ghost predicate Sends(waves: Waves, tick: nat, sent: seq<Flight>) {
    && (forall i | 0 <= i < |sent| :: SentFrom(waves, tick, sent[i]))
    && (forall i, j | 0 <= i < j < |sent| :: sent[i].Key() != sent[j].Key())
    && (forall key | key in waves && key.0 <= tick :: exists i :: 0 <= i < |sent| && sent[i].Key() == key)
  }

  predicate SentFrom(waves: Waves, tick: nat, f: Flight) {
    f.Key() in waves && f.mature <= tick && f.items == waves[f.Key()] && f.sentAt == tick && !f.landed
  }

  function NotDue(waves: Waves, tick: nat): Waves {
    map key | key in waves && key.0 > tick :: waves[key]
  }

  /** A tick's batch: entries of that tick at distinct positions. */
  ghost predicate IsBatch(tick: nat, batch: seq<Entry>) {
    && (forall i | 0 <= i < |batch| :: batch[i].tick == tick)
    && (forall i, j | 0 <= i < j < |batch| :: batch[i].pos != batch[j].pos)
  }

  ghost predicate TickStep(tm: Timing, s: State, batch: seq<Entry>, s': State) {
    && IsBatch(s.tick + 1, batch) && s'.tick == s.tick + 1 && s'.sealed == s.sealed + batch
    && s'.tape == CutOff(AddPositions(tm, s.tape, batch), s'.tick, tm.grace)
    && s'.waves == NotDue(AddWaves(tm, s.waves, batch), s'.tick)
    && |s.flights| <= |s'.flights| && s'.flights[..|s.flights|] == s.flights
    && Sends(AddWaves(tm, s.waves, batch), s'.tick, s'.flights[|s.flights|..])
  }

  /** A solver reports once per flight; a failed solve reports no outcomes. */
  ghost predicate WaveStep(s: State, k: nat, outcomes: seq<Outcome>, s': State) {
    && k < |s.flights| && !s.flights[k].landed
    && (forall i | 0 <= i < |outcomes| :: !outcomes[i].Pending?)
    && s' == s.(flights := s.flights[k := s.flights[k].(landed := true)],
                tape := ApplyOutcomes(s.tape, s.flights[k].items, outcomes))
  }

  ghost predicate Next(tm: Timing, s: State, s': State) {
    || (exists batch :: TickStep(tm, s, batch, s'))
    || (exists k, outcomes :: WaveStep(s, k, outcomes, s'))
  }

  /** Any interleaving of ticks and solver reports. */
  ghost predicate IsRun(tm: Timing, states: seq<State>) {
    && |states| > 0 && states[0] == START
    && forall i | 0 <= i < |states| - 1 :: Next(tm, states[i], states[i + 1])
  }

  // ----- the imperative coordinator

  class Node {
    const timing: Timing
    var tick: nat
    var tape: Tape
    var waves: Waves
    var flights: seq<Flight>
    ghost var sealed: seq<Entry>

    constructor (timing: Timing)
      ensures this.timing == timing && Now() == START
    {
      this.timing := timing;
      tick, tape, waves, flights := 0, map[], map[], [];
      sealed := [];
    }

    ghost function Now(): State
      reads this
    {
      State(tick, tape, waves, flights, sealed)
    }

    /** The tick handler after sealing: positions, waves, dispatch, cutoff. */
    method HandleTick(batch: seq<Entry>)
      requires IsBatch(tick + 1, batch)
      modifies this
      ensures TickStep(timing, old(Now()), batch, Now())
    {
      tick := tick + 1;
      ghost var sealedBefore := sealed;
      for i := 0 to |batch|
        invariant tape == AddPositions(timing, old(tape), batch[..i])
        invariant waves == AddWaves(timing, old(waves), batch[..i])
        invariant tick == old(tick) + 1 && flights == old(flights) && sealed == sealedBefore
      {
        var e := batch[i];
        assert batch[..i + 1][..i] == batch[..i];
        tape := tape[e.At() := Position(e.h, e.delayClass, Pending(timing.Mature(e)))];
        waves := waves[timing.Key(e) := WaveAt(waves, timing.Key(e)) + [e]];
      }
      assert batch[..|batch|] == batch;
      SendDue();
      CutOffOverdue();
      sealed := sealed + batch;
    }

    method SendDue()
      modifies this`waves, this`flights
      ensures |old(flights)| <= |flights| && flights[..|old(flights)|] == old(flights)
      ensures waves == NotDue(old(waves), tick) && Sends(old(waves), tick, flights[|old(flights)|..])
    {
      ghost var n := |flights|;
      var due := set key | key in waves && key.0 <= tick;
      ghost var gone: set<WaveKey> := {};
      while due != {}
        invariant n <= |flights| && flights[..n] == old(flights)
        invariant gone !! due && gone + due == set key | key in old(waves) && key.0 <= tick
        invariant waves == map key | key in old(waves) && key !in gone :: old(waves)[key]
        invariant SentKeys(flights[n..], old(waves), tick, gone)
        decreases due
      {
        var key :| key in due;
        var flight := Flight(key.0, key.1, waves[key], tick, false);
        ExtendSent(flights[n..], old(waves), tick, gone, flight);
        assert (flights + [flight])[n..] == flights[n..] + [flight];
        flights := flights + [flight];
        waves := waves - {key};
        due := due - {key};
        gone := gone + {key};
      }
      SentIsSends(flights[n..], old(waves), tick, gone);
    }

    method CutOffOverdue()
      modifies this`tape
      ensures tape == CutOff(old(tape), tick, timing.grace)
    {
      var overdue := set at | at in tape && Overdue(tape[at], tick, timing.grace);
      while overdue != {}
        invariant tape.Keys == old(tape).Keys
        invariant forall at | at in overdue ::
          at in old(tape) && Overdue(old(tape)[at], tick, timing.grace) && tape[at] == old(tape)[at]
        invariant forall at | at in tape && at !in overdue ::
            tape[at] == if Overdue(old(tape)[at], tick, timing.grace) then old(tape)[at].(outcome := Gap(Unopened))
              else old(tape)[at]
        decreases overdue
      {
        var at :| at in overdue;
        tape := SetOutcome(tape, at, Gap(Unopened));
        overdue := overdue - {at};
      }
    }

    /** `apply_wave` and the wave event around it. */
    method HandleWave(k: nat, outcomes: seq<Outcome>)
      requires k < |flights| && !flights[k].landed
      requires forall i | 0 <= i < |outcomes| :: !outcomes[i].Pending?
      modifies this
      ensures WaveStep(old(Now()), k, outcomes, Now())
    {
      var items := flights[k].items;
      flights := flights[k := flights[k].(landed := true)];
      var n := if |items| <= |outcomes| then |items| else |outcomes|;
      for i := 0 to n
        invariant tape == ApplyOutcomes(old(tape), items[..i], outcomes)
        invariant tick == old(tick) && waves == old(waves) && sealed == old(sealed)
        invariant flights == old(flights)[k := old(flights)[k].(landed := true)]
      {
        assert items[..i + 1][..i] == items[..i];
        tape := SetOutcome(tape, items[i].At(), outcomes[i]);
      }
      RestUnapplied(old(tape), items, outcomes, n);
    }
  }

  ghost predicate SentKeys(sent: seq<Flight>, waves: Waves, tick: nat, gone: set<WaveKey>) {
    && (forall i | 0 <= i < |sent| :: SentFrom(waves, tick, sent[i]) && sent[i].Key() in gone)
    && (forall i, j | 0 <= i < j < |sent| :: sent[i].Key() != sent[j].Key())
    && (forall key | key in gone :: exists i :: 0 <= i < |sent| && sent[i].Key() == key)
  }

  lemma ExtendSent(sent: seq<Flight>, waves: Waves, tick: nat, gone: set<WaveKey>, f: Flight)
    requires SentKeys(sent, waves, tick, gone) && SentFrom(waves, tick, f) && f.Key() !in gone
    ensures SentKeys(sent + [f], waves, tick, gone + {f.Key()})
  {
    forall key | key in gone + {f.Key()}
      ensures exists i :: 0 <= i < |sent + [f]| && (sent + [f])[i].Key() == key
    {
      if key == f.Key() {
        assert (sent + [f])[|sent|].Key() == key;
      } else {
        var i :| 0 <= i < |sent| && sent[i].Key() == key;
        assert (sent + [f])[i].Key() == key;
      }
    }
  }

  lemma SentIsSends(sent: seq<Flight>, waves: Waves, tick: nat, gone: set<WaveKey>)
    requires SentKeys(sent, waves, tick, gone) && gone == set key | key in waves && key.0 <= tick
    ensures Sends(waves, tick, sent)
  {
    forall key | key in waves && key.0 <= tick
      ensures exists i :: 0 <= i < |sent| && sent[i].Key() == key
    {
      assert key in gone;
    }
  }

  lemma {:induction false} RestUnapplied(tape: Tape, items: seq<Entry>, outcomes: seq<Outcome>, n: nat)
    requires n <= |items| && (n == |items| || n == |outcomes|)
    ensures ApplyOutcomes(tape, items, outcomes) == ApplyOutcomes(tape, items[..n], outcomes)
    decreases |items|
  {
    if n == |items| {
      assert items[..n] == items;
    } else {
      RestUnapplied(tape, items[..|items| - 1], outcomes, n);
      assert items[..|items| - 1][..n] == items[..n];
    }
  }
}
