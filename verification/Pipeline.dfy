/** The stages joined: sealed batches feed the coordinator, whose store is what the
    adapter polls (crates/sequencer/src/node.rs:263-383,
    demo/gateway/src/lighter_sim.rs:434-500). */
module Pipeline {
  import opened Outcomes
  import opened Digests
  import opened Params
  import S = Sequencer
  import SL = SequencerLaws
  import R = Records
  import Ad = Admission
  import C = Coordinator
  import CL = CoordinatorLaws
  import T = TapeAdapter

  // ----- sealing to scheduling

  /** A sealed batch with the delay classes of its entries. */
  function Scheduled(entries: seq<R.BatchEntry>, classes: seq<nat>): (batch: seq<C.Entry>)
    requires |classes| == |entries|
    ensures |batch| == |entries|
  {
    seq(|entries|, i requires 0 <= i < |entries| => C.Entry(entries[i].tick, entries[i].pos, entries[i].h, classes[i]))
  }

  lemma {:induction false} LiveAscends(rs: seq<R.Receipt>, released: set<R.Receipt>)
    requires forall i | 0 <= i < |rs| :: rs[i].pos == i
    ensures forall i, j | 0 <= i < j < |S.Live(rs, released)| ::
      S.Live(rs, released)[i].pos < S.Live(rs, released)[j].pos
  {
    if rs != [] {
      var n := |rs| - 1;
      LiveAscends(rs[..n], released);
      S.LiveMembers(rs[..n], released);
      forall i | 0 <= i < |S.Live(rs[..n], released)|
        ensures S.Live(rs[..n], released)[i].pos < n
      {
        assert S.Live(rs[..n], released)[i] in rs[..n];
      }
    }
  }

  /** In any run a sealed tick's entries are of that tick, at ascending places, holes
      or not: what the scheduler needs of its batches. */
  lemma SealedBatchIsBatch(env: Ad.Env, events: seq<S.Event>, t: nat, classes: seq<nat>)
    requires Usable(env.params) && 1 <= t <= |S.Run(env, events).sealed|
    requires |classes| == |S.Run(env, events).sealed[t - 1].entries|
    ensures C.IsBatch(t, Scheduled(S.Run(env, events).sealed[t - 1].entries, classes))
  {
    hide S.LogOk;
    hide S.ChainsOk;
    hide S.BuffersOk;
    hide S.BatchesOk;
    hide S.AccountsOk;
    hide S.ReceiptsOk;
    hide S.SignedOk;
    SL.EveryRunKeepsInv(env, events);
    var s := S.Run(env, events);
    hide S.Run;
    BatchAscends(env, s, t);
  }

  lemma BatchAscends(env: Ad.Env, s: S.Sys, t: nat)
    requires S.ChainsOk(env, s) && S.BatchesOk(s) && 1 <= t <= |s.sealed|
    ensures var es := s.sealed[t - 1].entries;
            && (forall i | 0 <= i < |es| :: es[i].tick == t)
            && (forall i, j | 0 <= i < j < |es| :: es[i].pos < es[j].pos)
  {
    var rs := S.IssuedAt(s.issued, t);
    var sealed := s.sealed[t - 1];
    assert S.BatchFits(sealed, rs, s.released);
    assert S.Chained(env.params.epoch, t, rs);
    forall i | 0 <= i < |rs|
      ensures rs[i].pos == i && rs[i].tick == t
    {
      assert S.Linked(env.params.epoch, t, rs, i);
    }
    hide S.ChainsOk;
    hide S.BatchesOk;
    hide S.IssuedAt;
    LiveAscends(rs, s.released);
    S.LiveMembers(rs, s.released);
    forall i | 0 <= i < |sealed.entries|
      ensures sealed.entries[i].tick == t
    {
      assert sealed.receipts[i] in S.Live(rs, s.released);
      assert sealed.entries[i] == R.EntryOf(sealed.receipts[i]);
    }
  }

  // ----- the store the adapter sees

  function CountAt(sealed: seq<C.Entry>, t: nat): nat {
    if sealed == [] then 0 else CountAt(sealed[..|sealed| - 1], t) + if sealed[|sealed| - 1].tick == t then 1 else 0
  }

  function ReadOutcome(read: Bytes -> T.Intent, o: C.Outcome): T.Outcome {
    match o
    case Pending(m) => Pending(m)
    case Opened(intent) => Opened(read(intent))
    case Gap(reason) => Gap(reason)
  }

  function StoreOf(read: Bytes -> T.Intent, s: C.State): T.Store {
    T.Store(map t | 1 <= t <= s.tick :: CountAt(s.sealed, t),
            map at | at in s.tape :: ReadOutcome(read, s.tape[at].outcome))
  }

  lemma {:induction false} CountConcat(a: seq<C.Entry>, b: seq<C.Entry>, t: nat)
    ensures CountAt(a + b, t) == CountAt(a, t) + CountAt(b, t)
    decreases |b|
  {
    if b == [] {
      assert a + b == a;
    } else {
      CountConcat(a, b[..|b| - 1], t);
      assert (a + b)[..|a + b| - 1] == a + b[..|b| - 1];
    }
  }

  lemma {:induction false} NoneCounted(b: seq<C.Entry>, tick: nat, t: nat)
    requires t != tick && forall i | 0 <= i < |b| :: b[i].tick == tick
    ensures CountAt(b, t) == 0
  {
    if b != [] {
      NoneCounted(b[..|b| - 1], tick, t);
    }
  }

  /** Past ticks keep their counts, and no place appears in them late. */
  ghost predicate Settled(s: C.State, s': C.State) {
    && s.tick <= s'.tick
    && (forall t: nat | t <= s.tick :: CountAt(s'.sealed, t) == CountAt(s.sealed, t))
    && (forall at: C.Place | at.0 <= s.tick :: at in s'.tape ==> at in s.tape)
    && (forall at | at in s.tape :: at in s'.tape && (s.tape[at].outcome.Pending? || s'.tape[at] == s.tape[at]))
  }

  lemma TickSettles(tm: C.Timing, s: C.State, batch: seq<C.Entry>, s': C.State)
    requires C.TickStep(tm, s, batch, s')
    ensures forall t: nat | t <= s.tick :: CountAt(s'.sealed, t) == CountAt(s.sealed, t)
    ensures forall at: C.Place | at.0 <= s.tick :: at in s'.tape ==> at in s.tape
  {
    forall t: nat | t <= s.tick
      ensures CountAt(s'.sealed, t) == CountAt(s.sealed, t)
    {
      CountConcat(s.sealed, batch, t);
      NoneCounted(batch, s'.tick, t);
    }
    forall at: C.Place | at.0 <= s.tick
      ensures at in s'.tape ==> at in s.tape
    {
      CL.AddPositionsOther(tm, s.tape, batch, at);
    }
  }

  lemma StepSettles(tm: C.Timing, s: C.State, s': C.State)
    requires CL.Inv(tm, s) && C.Next(tm, s, s')
    ensures Settled(s, s')
  {
    hide CL.Inv;
    CL.StepKeepsInv(tm, s, s');
    hide C.TickStep;
    hide C.WaveStep;
    if batch :| C.TickStep(tm, s, batch, s') {
      TickSettles(tm, s, batch, s');
    } else {
      var k: nat, outcomes :| C.WaveStep(s, k, outcomes, s');
      WaveSettles(s, k, outcomes, s');
    }
  }

  lemma WaveSettles(s: C.State, k: nat, outcomes: seq<C.Outcome>, s': C.State)
    requires C.WaveStep(s, k, outcomes, s')
    ensures s'.sealed == s.sealed && s'.tape.Keys == s.tape.Keys
  {
    CL.ApplySettles(s.tape, s.flights[k].items, outcomes);
  }

  lemma {:induction false} RunSettles(tm: C.Timing, states: seq<C.State>, i: nat, j: nat)
    requires C.IsRun(tm, states) && i <= j < |states|
    ensures Settled(states[i], states[j])
    decreases j
  {
    hide C.IsRun;
    hide C.Next;
    hide CL.Inv;
    hide Settled;
    if i < j {
      RunSettles(tm, states, i, j - 1);
      CL.RunStep(tm, states, j - 1);
      StepSettles(tm, states[j - 1], states[j]);
      SettlesCompose(states[i], states[j - 1], states[j]);
    } else {
      SettlesItself(states[i]);
    }
  }

  lemma SettlesItself(s: C.State)
    ensures Settled(s, s)
  {}

  lemma SettlesCompose(a: C.State, b: C.State, c: C.State)
    requires Settled(a, b) && Settled(b, c)
    ensures Settled(a, c)
  {}

  /** The coordinator's store only grows the way the adapter's confluence needs: in
      any run each state's store extends every earlier one's. */
  lemma StoreExtends(tm: C.Timing, read: Bytes -> T.Intent, states: seq<C.State>, i: nat, j: nat)
    requires C.IsRun(tm, states) && i <= j < |states|
    ensures T.Extends(StoreOf(read, states[i]), StoreOf(read, states[j]))
  {
    RunSettles(tm, states, i, j);
  }
}
