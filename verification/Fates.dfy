/** What becomes of every sealed entry: the solver's answer if it comes within the
    grace period, otherwise the gap of the cutoff, and pending until one of them
    (crates/sequencer/src/node.rs:308-383, 432-497, store.rs:85-108). */
module Fates {
  import opened Outcomes
  import opened Coordinator
  import opened CoordinatorLaws

  /** Step m is a solver report that has an outcome for entry e, item j of flight k. */
  ghost predicate Answers(states: seq<State>, m: nat, k: nat, j: nat, outcomes: seq<Outcome>, e: Entry) {
    && m + 1 < |states| && WaveStep(states[m], k, outcomes, states[m + 1])
    && Carries(states[m], k, j, e) && j < |outcomes|
  }

  /** Some report before state n had an outcome for e. */
  ghost predicate Answered(states: seq<State>, n: nat, e: Entry) {
    exists m: nat, k: nat, j: nat, outcomes: seq<Outcome> :: m < n && Answers(states, m, k, j, outcomes, e)
  }

  /** What time alone makes of an entry. */
  function Unanswered(tm: Timing, e: Entry, tick: nat): Outcome {
    if tick < tm.Mature(e) + tm.grace then Pending(tm.Mature(e)) else Gap(Unopened)
  }

  ghost predicate Stands(tm: Timing, s: State, e: Entry) {
    e.At() in s.tape && s.tape[e.At()].outcome == Unanswered(tm, e, s.tick)
  }

  // ----- entries no report answers

  lemma TickStands(tm: Timing, s: State, batch: seq<Entry>, s': State, e: Entry)
    requires Inv(tm, s) && TickStep(tm, s, batch, s') && e in s'.sealed
    requires e in s.sealed ==> Stands(tm, s, e)
    ensures Stands(tm, s', e)
  {
    if e in s.sealed {
      NewPlaces(tm, s, batch, s', e.At());
      AddPositionsOther(tm, s.tape, batch, e.At());
    } else {
      TickKeepsSealed(tm, s, batch, s');
      var i :| 0 <= i < |batch| && batch[i] == e;
      AddPositionsNew(tm, s.tape, batch, i);
    }
    hide AddPositions;
    hide WavesOk;
    hide FlightsOk;
  }

  /** A report leaves alone every place it has no outcome for. */
  lemma {:induction false} ApplyLeaves(tape: Tape, items: seq<Entry>, outcomes: seq<Outcome>, at: Place)
    requires at in tape && forall i | 0 <= i < |items| && i < |outcomes| :: items[i].At() != at
    ensures at in ApplyOutcomes(tape, items, outcomes) && ApplyOutcomes(tape, items, outcomes)[at] == tape[at]
    decreases |items|
  {
    if items != [] {
      ApplyLeaves(tape, items[..|items| - 1], outcomes, at);
    }
  }

  /** It puts outcome j at the place of item j, if that is pending. */
  lemma {:induction false} ApplyAnswers(tape: Tape, items: seq<Entry>, outcomes: seq<Outcome>, j: nat)
    requires Distinct(items) && j < |items| && j < |outcomes|
    requires items[j].At() in tape && tape[items[j].At()].outcome.Pending?
    requires forall i | 0 <= i < |outcomes| :: !outcomes[i].Pending?
    ensures var after := ApplyOutcomes(tape, items, outcomes);
            items[j].At() in after && after[items[j].At()] == tape[items[j].At()].(outcome := outcomes[j])
    decreases |items|
  {
    var n := |items| - 1;
    if j < n {
      ApplyAnswers(tape, items[..n], outcomes, j);
      assert items[j].At() != items[n].At();
    } else {
      forall i | 0 <= i < n
        ensures items[..n][i].At() != items[n].At()
      {
        assert items[i].At() != items[n].At();
      }
      ApplyLeaves(tape, items[..n], outcomes, items[n].At());
    }
  }

  lemma ReportStands(tm: Timing, s: State, k: nat, outcomes: seq<Outcome>, s': State, e: Entry)
    requires Inv(tm, s) && WaveStep(s, k, outcomes, s') && e in s.sealed && Stands(tm, s, e)
    requires forall j: nat :: Carries(s, k, j, e) ==> j >= |outcomes|
    ensures Stands(tm, s', e)
  {
    var f := s.flights[k];
    FlightMembers(tm, s, k);
    hide Inv;
    forall i | 0 <= i < |f.items| && i < |outcomes|
      ensures f.items[i].At() != e.At()
    {
      assert f.items[i] in f.items && (f.items[i] == e <==> Carries(s, k, i, e));
      if f.items[i].At() == e.At() {
        SamePlaceSameEntry(s, f.items[i], e);
      }
    }
    ApplyLeaves(s.tape, f.items, outcomes, e.At());
  }

  lemma FlightMembers(tm: Timing, s: State, k: nat)
    requires Inv(tm, s) && k < |s.flights|
    ensures SealedOk(s) && Distinct(s.flights[k].items) && forall e | e in s.flights[k].items :: e in s.sealed
  {
    var f := s.flights[k];
    assert FlightOk(tm, s, f);
    MembersAre(tm, s.sealed, f.Key());
    MembersDistinct(tm, s.sealed, f.Key());
  }

  /** In every run an entry that no report has answered is pending, with its maturity,
      exactly until its maturity plus the grace, and the cutoff's gap from then on. */
  lemma {:induction false} UnansweredStands(tm: Timing, states: seq<State>, n: nat, e: Entry)
    requires IsRun(tm, states) && n < |states| && e in states[n].sealed && !Answered(states, n, e)
    ensures Stands(tm, states[n], e)
    decreases n
  {
    if n > 0 {
      var last: nat := n - 1;
      RunStep(tm, states, last);
      var s, s' := states[last], states[n];
      assert !Answered(states, n - 1, e);
      hide Inv;
      hide TickStep;
      if batch :| TickStep(tm, s, batch, s') {
        if e in s.sealed {
          UnansweredStands(tm, states, n - 1, e);
        }
        TickStands(tm, s, batch, s', e);
      } else {
        var k: nat, outcomes :| WaveStep(s, k, outcomes, s');
        UnansweredStands(tm, states, n - 1, e);
        forall j: nat | Carries(s, k, j, e)
          ensures j >= |outcomes|
        {
          assert j < |outcomes| <==> Answers(states, last, k, j, outcomes, e);
        }
        ReportStands(tm, s, k, outcomes, s', e);
      }
    }
  }

  // ----- entries a report answers

  ghost predicate Landed(s: State, k: nat, j: nat, e: Entry) {
    Carries(s, k, j, e) && s.flights[k].landed
  }

  lemma LandedStep(tm: Timing, s: State, s': State, k: nat, j: nat, e: Entry)
    requires Next(tm, s, s') && Landed(s, k, j, e)
    ensures Landed(s', k, j, e)
  {
    if batch :| TickStep(tm, s, batch, s') {
      assert s'.flights[..|s.flights|][k] == s'.flights[k];
    }
  }

  lemma {:induction false} LandedStays(tm: Timing, states: seq<State>, m: nat, n: nat, k: nat, j: nat, e: Entry)
    requires IsRun(tm, states) && m <= n < |states| && Landed(states[m], k, j, e)
    ensures Landed(states[n], k, j, e)
    decreases n
  {
    if m < n {
      LandedStays(tm, states, m, n - 1, k, j, e);
      assert Next(tm, states[n - 1], states[n - 1 + 1]);
      hide Next;
      LandedStep(tm, states[n - 1], states[n], k, j, e);
    }
  }

  /** An entry is answered at most once. */
  lemma AnsweredOnce(tm: Timing, states: seq<State>, m: nat, k: nat, j: nat, outcomes: seq<Outcome>, e: Entry)
    requires IsRun(tm, states) && Answers(states, m, k, j, outcomes, e)
    ensures !Answered(states, m, e)
  {
    if m': nat, k': nat, j': nat, outcomes' :| m' < m && Answers(states, m', k', j', outcomes', e) {
      assert Landed(states[m' + 1], k', j', e);
      LandedStays(tm, states, m' + 1, m, k', j', e);
      EveryRunKeepsInv(tm, states, m);
      CarriedOnce(tm, states[m], k, j, k', j', e);
    }
  }

  /** The outcome an answer leaves at its entry, for good: the solver's if it came
      before maturity plus the grace, and otherwise the gap already written. */
  lemma AnswerDecides(tm: Timing, states: seq<State>, m: nat, k: nat, j: nat, outcomes: seq<Outcome>, e: Entry, n: nat)
    requires IsRun(tm, states) && Answers(states, m, k, j, outcomes, e) && m < n < |states|
    ensures e.At() in states[n].tape
    ensures states[n].tape[e.At()].outcome
         == if states[m].tick < tm.Mature(e) + tm.grace then outcomes[j] else Gap(Unopened)
  {
    var s := states[m];
    AnsweredOnce(tm, states, m, k, j, outcomes, e);
    EveryRunKeepsInv(tm, states, m);
    FlightMembers(tm, s, k);
    hide Inv;
    UnansweredStands(tm, states, m, e);
    if s.tick < tm.Mature(e) + tm.grace {
      ApplyAnswers(s.tape, s.flights[k].items, outcomes, j);
      OutcomesAreFinal(tm, states, m + 1, n, e.At());
    } else {
      OutcomesAreFinal(tm, states, m, n, e.At());
    }
  }

  /** A report never reaches an entry before its maturity: every answer comes at or
      after it. */
  lemma AnswersComeAfterMaturity(tm: Timing, states: seq<State>, m: nat, k: nat, j: nat, outcomes: seq<Outcome>,
                                 e: Entry)
    requires IsRun(tm, states) && Answers(states, m, k, j, outcomes, e)
    ensures tm.Mature(e) <= states[m].tick && e in states[m].sealed
  {
    EveryRunKeepsInv(tm, states, m);
    CarrierKey(tm, states[m], k, j, e);
    FlightMembers(tm, states[m], k);
  }
}
