/** From a solver's answer to the order book: what a timely opening comes to in the
    adapter's store (crates/sequencer/src/node.rs:432-497,
    demo/gateway/src/lighter_sim.rs:457-500). */
module Delivery {
  import opened Wrappers
  import opened Outcomes
  import opened Digests
  import opened Pipeline
  import F = Fates
  import TL = AdapterLaws

  /** What the adapter reads at an answered entry's place, in every later state: the
      intent the solver opened, or its reason, if the answer came within the grace
      period; and an unopened gap if it came later. */
  lemma AnswerIsRead(tm: C.Timing, read: Bytes -> T.Intent, states: seq<C.State>, m: nat, k: nat, j: nat,
                     outcomes: seq<C.Outcome>, e: C.Entry, n: nat)
    requires C.IsRun(tm, states) && F.Answers(states, m, k, j, outcomes, e) && m < n < |states|
    ensures var tape := StoreOf(read, states[n]).tape;
            var timely := states[m].tick < tm.Mature(e) + tm.grace;
            && (e.tick, e.pos) in tape && !tape[(e.tick, e.pos)].Pending?
            && (timely && outcomes[j].Opened? ==> tape[(e.tick, e.pos)] == Opened(read(outcomes[j].intent)))
            && (timely && outcomes[j].Gap? ==> tape[(e.tick, e.pos)] == Gap(outcomes[j].reason))
            && (!timely ==> tape[(e.tick, e.pos)] == Gap(Unopened))
  {
    F.AnswerDecides(tm, states, m, k, j, outcomes, e, n);
    hide C.IsRun;
    assert !outcomes[j].Pending?;
  }

  /** What it reads at an entry no report has answered: pending, with the maturity, and
      a gap once the grace period is over. */
  lemma SilenceIsRead(tm: C.Timing, read: Bytes -> T.Intent, states: seq<C.State>, n: nat, e: C.Entry)
    requires C.IsRun(tm, states) && n < |states| && e in states[n].sealed && !F.Answered(states, n, e)
    ensures var tape := StoreOf(read, states[n]).tape;
            && (e.tick, e.pos) in tape
            && tape[(e.tick, e.pos)]
               == if states[n].tick < tm.Mature(e) + tm.grace then Pending(tm.Mature(e)) else Gap(Unopened)
  {
    F.UnansweredStands(tm, states, n, e);
    hide C.IsRun;
    hide F.Answered;
  }

  /** Standing at such an entry the adapter reports it as its blocked head, with the
      tick it matures at. */
  lemma HeadShowsMaturity(tm: C.Timing, read: Bytes -> T.Intent, states: seq<C.State>, n: nat, e: C.Entry)
    requires C.IsRun(tm, states) && n < |states| && e in states[n].sealed && !F.Answered(states, n, e)
    requires 1 <= e.tick <= states[n].tick && e.pos < CountAt(states[n].sealed, e.tick)
    ensures T.HeadAt(StoreOf(read, states[n]), e.tick, e.pos)
         == if states[n].tick < tm.Mature(e) + tm.grace then Some((e.tick, e.pos, tm.Mature(e))) else None
  {
    SilenceIsRead(tm, read, states, n, e);
    hide C.IsRun;
    hide F.Answered;
  }

  /** What the adapter has executed at a place it has passed is what the store holds
      there: the action for the place is among the applied ones. */
  lemma {:induction false} PassedIsConsumed(store: T.Store, tick: nat, pos: nat, t: nat, p: nat)
    requires TL.PrefixResolved(store, tick, pos) && 1 <= t && p < TL.EntryCount(store, t)
    requires t < tick || (t == tick && p < pos)
    ensures (t, p) in store.tape && T.Consume(t, p, store.tape[(t, p)]) in TL.TapePrefix(store, tick, pos)
    decreases tick, pos
  {
    assert TL.ResolvedAt(store, t, p);
    if pos > 0 {
      assert TL.ResolvedAt(store, tick, pos - 1);
      if (t, p) != (tick, pos - 1) {
        PassedIsConsumed(store, tick, pos - 1, t, p);
      }
    } else {
      PassedIsConsumed(store, tick - 1, TL.EntryCount(store, tick - 1), t, p);
    }
  }

  /** A timely opening is executed: once the adapter is past the entry, the tape prefix
      that its state is the fold of has the opened intent at the entry's place. */
  lemma TimelyOpeningIsExecuted(tm: C.Timing, read: Bytes -> T.Intent, states: seq<C.State>, m: nat, k: nat, j: nat,
                                outcomes: seq<C.Outcome>, e: C.Entry, n: nat, parse: T.Parser, blockTicks: nat,
                                start: T.Core, s: T.Sim)
    requires C.IsRun(tm, states) && F.Answers(states, m, k, j, outcomes, e) && m < n < |states|
    requires states[m].tick < tm.Mature(e) + tm.grace && outcomes[j].Opened?
    requires blockTicks > 0 && TL.IsPrefixFold(parse, blockTicks, StoreOf(read, states[n]), start, s)
    requires 1 <= e.tick < s.tick && e.pos < TL.EntryCount(StoreOf(read, states[n]), e.tick)
    ensures var acts := TL.TapePrefix(StoreOf(read, states[n]), s.tick, s.pos);
            && s.core == T.ApplyAll(parse, blockTicks, start, acts)
            && T.Consume(e.tick, e.pos, Opened(read(outcomes[j].intent))) in acts
  {
    AnswerIsRead(tm, read, states, m, k, j, outcomes, e, n);
    hide C.IsRun;
    hide F.Answers;
    PassedIsConsumed(StoreOf(read, states[n]), s.tick, s.pos, e.tick, e.pos);
  }
}
