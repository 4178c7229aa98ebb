/** Every run of the coordinator: one wave per entry, at its maturity; one change
    of outcome; nothing pending past its cutoff. */
module CoordinatorLaws {
  import opened Outcomes
  import opened Digests
  import opened Coordinator
  import opened Params

  /** The sealed entries of one wave, in sealing order. */
  function Members(tm: Timing, sealed: seq<Entry>, key: WaveKey): seq<Entry>
    decreases |sealed|
  {
    if sealed == [] then []
    else
      var last := sealed[|sealed| - 1];
      Members(tm, sealed[..|sealed| - 1], key) + if tm.Key(last) == key then [last] else []
  }

  lemma {:induction false} MembersConcat(tm: Timing, a: seq<Entry>, b: seq<Entry>, key: WaveKey)
    ensures Members(tm, a + b, key) == Members(tm, a, key) + Members(tm, b, key)
    decreases |b|
  {
    if b == [] {
      assert a + b == a;
    } else {
      MembersConcat(tm, a, b[..|b| - 1], key);
      assert (a + b)[..|a + b| - 1] == a + b[..|b| - 1];
    }
  }

  lemma {:induction false} MembersAre(tm: Timing, sealed: seq<Entry>, key: WaveKey)
    ensures forall e :: e in Members(tm, sealed, key) <==> e in sealed && tm.Key(e) == key
    decreases |sealed|
  {
    if sealed != [] {
      MembersAre(tm, sealed[..|sealed| - 1], key);
      assert sealed == sealed[..|sealed| - 1] + [sealed[|sealed| - 1]];
    }
  }

  /** A wave's list has an entry once if the sealed history has it once. */
  lemma {:induction false} MembersDistinct(tm: Timing, sealed: seq<Entry>, key: WaveKey)
    requires Distinct(sealed)
    ensures Distinct(Members(tm, sealed, key))
    decreases |sealed|
  {
    if sealed != [] {
      var n := |sealed| - 1;
      MembersDistinct(tm, sealed[..n], key);
      MembersAre(tm, sealed[..n], key);
      var front := Members(tm, sealed[..n], key);
      forall i | 0 <= i < |front|
        ensures front[i].At() != sealed[n].At()
      {
        assert front[i] in sealed[..n];
      }
    }
  }

  // ----- the invariant

  ghost predicate Distinct(entries: seq<Entry>) {
    forall i, j | 0 <= i < j < |entries| :: entries[i].At() != entries[j].At()
  }

  ghost predicate SealedOk(s: State) {
    Distinct(s.sealed) && forall e | e in s.sealed :: e.tick <= s.tick
  }

  predicate PositionOf(tm: Timing, e: Entry, p: Position) {
    p.h == e.h && p.delayClass == e.delayClass && (p.outcome.Pending? ==> p.outcome.matureAt == tm.Mature(e))
  }

  ghost predicate TapeOk(tm: Timing, s: State) {
    && (forall e | e in s.sealed :: e.At() in s.tape && PositionOf(tm, e, s.tape[e.At()]))
    && (forall at | at in s.tape :: exists e :: e in s.sealed && e.At() == at)
  }

  /** What waits is exactly the waves still to mature, complete. */
  ghost predicate WaveOk(tm: Timing, s: State, key: WaveKey) {
    && (key in s.waves <==> key.0 > s.tick && Members(tm, s.sealed, key) != [])
    && (key in s.waves ==> s.waves[key] == Members(tm, s.sealed, key))
  }

  ghost predicate WavesOk(tm: Timing, s: State) {
    forall key :: WaveOk(tm, s, key)
  }

  /** A flight left at its maturity, with all its wave. */
  ghost predicate FlightOk(tm: Timing, s: State, f: Flight) {
    f.sentAt == f.mature <= s.tick && f.items == Members(tm, s.sealed, f.Key()) && f.items != []
  }

  ghost predicate HasFlight(s: State, key: WaveKey) {
    exists i :: 0 <= i < |s.flights| && s.flights[i].Key() == key
  }

  /** Every wave that matured left in exactly one flight. */
  ghost predicate FlightsOk(tm: Timing, s: State) {
    && (forall i | 0 <= i < |s.flights| :: FlightOk(tm, s, s.flights[i]))
    && (forall i, j | 0 <= i < j < |s.flights| :: s.flights[i].Key() != s.flights[j].Key())
    && (forall key: WaveKey | key.0 <= s.tick && Members(tm, s.sealed, key) != [] :: HasFlight(s, key))
  }

  ghost predicate NoneOverdue(tm: Timing, s: State) {
    forall at | at in s.tape :: !Overdue(s.tape[at], s.tick, tm.grace)
  }

  ghost predicate Inv(tm: Timing, s: State) {
    SealedOk(s) && TapeOk(tm, s) && WavesOk(tm, s) && FlightsOk(tm, s) && NoneOverdue(tm, s)
  }

  // ----- a tick

  lemma {:induction false} AddWavesAdds(tm: Timing, waves: Waves, batch: seq<Entry>, key: WaveKey)
    ensures var after := AddWaves(tm, waves, batch);
            && (key in after <==> key in waves || Members(tm, batch, key) != [])
            && WaveAt(after, key) == WaveAt(waves, key) + Members(tm, batch, key)
    decreases |batch|
  {
    if batch != [] {
      AddWavesAdds(tm, waves, batch[..|batch| - 1], key);
    }
  }

  /** Positions of other places are left alone. */
  lemma {:induction false} AddPositionsOther(tm: Timing, tape: Tape, batch: seq<Entry>, at: Place)
    requires forall i | 0 <= i < |batch| :: batch[i].At() != at
    ensures var after := AddPositions(tm, tape, batch);
            (at in after <==> at in tape) && (at in tape ==> after[at] == tape[at])
    decreases |batch|
  {
    if batch != [] {
      AddPositionsOther(tm, tape, batch[..|batch| - 1], at);
    }
  }

  lemma {:induction false} AddPositionsNew(tm: Timing, tape: Tape, batch: seq<Entry>, i: nat)
    requires Distinct(batch) && i < |batch|
    ensures var after := AddPositions(tm, tape, batch);
            batch[i].At() in after
              && after[batch[i].At()] == Position(batch[i].h, batch[i].delayClass, Pending(tm.Mature(batch[i])))
    decreases |batch|
  {
    var n := |batch| - 1;
    if i < n {
      AddPositionsNew(tm, tape, batch[..n], i);
      assert batch[i].At() != batch[n].At();
    }
  }

  lemma TickKeepsSealed(tm: Timing, s: State, batch: seq<Entry>, s': State)
    requires SealedOk(s) && TickStep(tm, s, batch, s')
    ensures SealedOk(s') && Distinct(batch)
  {
    forall i, j | 0 <= i < j < |s'.sealed|
      ensures s'.sealed[i].At() != s'.sealed[j].At()
    {
      if i < |s.sealed| <= j {
        assert s.sealed[i] in s.sealed;
      }
    }
  }

  /** A tick's places are new to the tape. */
  lemma NewPlaces(tm: Timing, s: State, batch: seq<Entry>, s': State, at: Place)
    requires SealedOk(s) && TapeOk(tm, s) && TickStep(tm, s, batch, s') && at in s.tape
    ensures forall i | 0 <= i < |batch| :: batch[i].At() != at
  {
    var e :| e in s.sealed && e.At() == at;
  }

  lemma TickKeepsOutcomes(tm: Timing, s: State, batch: seq<Entry>, s': State, at: Place)
    requires SealedOk(s) && TapeOk(tm, s) && TickStep(tm, s, batch, s') && at in s.tape
    ensures at in s'.tape && (s'.tape[at] == s.tape[at] || s'.tape[at] == s.tape[at].(outcome := Gap(Unopened)))
    ensures s.tape[at].outcome.Pending? || s'.tape[at] == s.tape[at]
  {
    NewPlaces(tm, s, batch, s', at);
    AddPositionsOther(tm, s.tape, batch, at);
  }

  lemma TickKeepsTape(tm: Timing, s: State, batch: seq<Entry>, s': State)
    requires SealedOk(s) && TapeOk(tm, s) && TickStep(tm, s, batch, s')
    ensures TapeOk(tm, s') && NoneOverdue(tm, s')
  {
    forall e | e in s'.sealed
      ensures e.At() in s'.tape && PositionOf(tm, e, s'.tape[e.At()])
    {
      EntryOnTape(tm, s, batch, s', e);
    }
    forall at | at in s'.tape
      ensures exists e :: e in s'.sealed && e.At() == at
    {
      PlaceHasEntry(tm, s, batch, s', at);
    }
  }

  lemma EntryOnTape(tm: Timing, s: State, batch: seq<Entry>, s': State, e: Entry)
    requires SealedOk(s) && TapeOk(tm, s) && TickStep(tm, s, batch, s') && e in s'.sealed
    ensures e.At() in s'.tape && PositionOf(tm, e, s'.tape[e.At()])
  {
    if e in s.sealed {
      TickKeepsOutcomes(tm, s, batch, s', e.At());
    } else {
      TickKeepsSealed(tm, s, batch, s');
      var i :| 0 <= i < |batch| && batch[i] == e;
      AddPositionsNew(tm, s.tape, batch, i);
    }
  }

  lemma PlaceHasEntry(tm: Timing, s: State, batch: seq<Entry>, s': State, at: Place)
    requires SealedOk(s) && TapeOk(tm, s) && TickStep(tm, s, batch, s') && at in s'.tape
    ensures exists e :: e in s'.sealed && e.At() == at
  {
    if at in s.tape {
      var e :| e in s.sealed && e.At() == at;
      assert e in s'.sealed;
    } else {
      if forall i | 0 <= i < |batch| :: batch[i].At() != at {
        AddPositionsOther(tm, s.tape, batch, at);
      }
      var i :| 0 <= i < |batch| && batch[i].At() == at;
      assert batch[i] in s'.sealed;
    }
  }

  lemma {:induction false} LateBatch(tm: Timing, batch: seq<Entry>, tick: nat, key: WaveKey)
    requires forall i | 0 <= i < |batch| :: batch[i].tick == tick
    ensures key.0 < tick ==> Members(tm, batch, key) == []
  {
    MembersAre(tm, batch, key);
    if Members(tm, batch, key) != [] {
      assert Members(tm, batch, key)[0] in batch;
    }
  }

  lemma TickKeepsWaves(tm: Timing, s: State, batch: seq<Entry>, s': State)
    requires WavesOk(tm, s) && TickStep(tm, s, batch, s')
    ensures WavesOk(tm, s')
  {
    forall key
      ensures WaveOk(tm, s', key)
    {
      assert WaveOk(tm, s, key);
      AddWavesAdds(tm, s.waves, batch, key);
      MembersConcat(tm, s.sealed, batch, key);
      LateBatch(tm, batch, s'.tick, key);
    }
  }

  lemma TickFlightOk(tm: Timing, s: State, batch: seq<Entry>, s': State, i: nat)
    requires WavesOk(tm, s) && FlightsOk(tm, s) && TickStep(tm, s, batch, s') && i < |s'.flights|
    ensures FlightOk(tm, s', s'.flights[i])
    ensures i < |s.flights| ==> s'.flights[i] == s.flights[i] && s.flights[i].mature <= s.tick
    ensures i >= |s.flights| ==> s'.flights[i].mature == s'.tick
  {
    var n := |s.flights|;
    var f := s'.flights[i];
    MembersConcat(tm, s.sealed, batch, f.Key());
    LateBatch(tm, batch, s'.tick, f.Key());
    if i < n {
      assert f == s'.flights[..n][i] == s.flights[i];
      assert FlightOk(tm, s, f);
    } else {
      assert f == s'.flights[n..][i - n] && SentFrom(AddWaves(tm, s.waves, batch), s'.tick, f);
      AddWavesAdds(tm, s.waves, batch, f.Key());
      assert WaveOk(tm, s, f.Key());
    }
  }

  lemma TickKeepsFlights(tm: Timing, s: State, batch: seq<Entry>, s': State)
    requires WavesOk(tm, s) && FlightsOk(tm, s) && TickStep(tm, s, batch, s')
    ensures FlightsOk(tm, s')
  {
    var n := |s.flights|;
    TickSendsAll(tm, s, batch, s');
    forall i | 0 <= i < |s'.flights|
      ensures FlightOk(tm, s', s'.flights[i])
    {
      TickFlightOk(tm, s, batch, s', i);
    }
    forall i, j | 0 <= i < j < |s'.flights|
      ensures s'.flights[i].Key() != s'.flights[j].Key()
    {
      TickFlightOk(tm, s, batch, s', i);
      TickFlightOk(tm, s, batch, s', j);
      if i >= n {
        assert s'.flights[n..][i - n] == s'.flights[i] && s'.flights[n..][j - n] == s'.flights[j];
      }
    }
  }

  lemma TickSendsAll(tm: Timing, s: State, batch: seq<Entry>, s': State)
    requires WavesOk(tm, s) && FlightsOk(tm, s) && TickStep(tm, s, batch, s')
    ensures forall key: WaveKey | key.0 <= s'.tick && Members(tm, s'.sealed, key) != [] :: HasFlight(s', key)
  {
    var n := |s.flights|;
    var waves := AddWaves(tm, s.waves, batch);
    forall key: WaveKey | key.0 <= s'.tick && Members(tm, s'.sealed, key) != []
      ensures HasFlight(s', key)
    {
      MembersConcat(tm, s.sealed, batch, key);
      LateBatch(tm, batch, s'.tick, key);
      if key.0 <= s.tick {
        assert HasFlight(s, key);
        var i :| 0 <= i < n && s.flights[i].Key() == key;
        assert s'.flights[..n][i] == s.flights[i] && s'.flights[i].Key() == key;
      } else {
        assert WaveOk(tm, s, key);
        AddWavesAdds(tm, s.waves, batch, key);
        assert key in waves;
        var i :| 0 <= i < |s'.flights[n..]| && s'.flights[n..][i].Key() == key;
        assert s'.flights[n + i].Key() == key;
      }
    }
  }

  // ----- a solver report

  /** Outcomes only ever replace pending ones. */
  ghost predicate Settles(tape: Tape, tape': Tape) {
    && tape'.Keys == tape.Keys
    && forall at | at in tape ::
         tape'[at] == tape[at]
           || (tape[at].outcome.Pending? && !tape'[at].outcome.Pending?
               && tape'[at] == tape[at].(outcome := tape'[at].outcome))
  }

  lemma {:induction false} ApplySettles(tape: Tape, items: seq<Entry>, outcomes: seq<Outcome>)
    requires forall i | 0 <= i < |outcomes| :: !outcomes[i].Pending?
    ensures Settles(tape, ApplyOutcomes(tape, items, outcomes))
    decreases |items|
  {
    if items != [] {
      ApplySettles(tape, items[..|items| - 1], outcomes);
    }
  }

  lemma WaveKeepsInv(tm: Timing, s: State, k: nat, outcomes: seq<Outcome>, s': State)
    requires Inv(tm, s) && WaveStep(s, k, outcomes, s')
    ensures Inv(tm, s') && Settles(s.tape, s'.tape)
  {
    hide Members;
    ApplySettles(s.tape, s.flights[k].items, outcomes);
    hide ApplyOutcomes;
    assert WavesOk(tm, s') by {
      forall key ensures WaveOk(tm, s', key) {
        assert WaveOk(tm, s, key);
      }
    }
    assert forall i | 0 <= i < |s.flights| :: s'.flights[i] == s.flights[i].(landed := s'.flights[i].landed);
    forall i | 0 <= i < |s'.flights|
      ensures FlightOk(tm, s', s'.flights[i]) && s'.flights[i].Key() == s.flights[i].Key()
    {
      assert FlightOk(tm, s, s.flights[i]);
    }
    forall key: WaveKey | key.0 <= s'.tick && Members(tm, s'.sealed, key) != []
      ensures HasFlight(s', key)
    {
      assert HasFlight(s, key);
      var i :| 0 <= i < |s.flights| && s.flights[i].Key() == key;
      assert s'.flights[i].Key() == key;
    }
  }

  // ----- runs

  lemma StepKeepsInv(tm: Timing, s: State, s': State)
    requires Inv(tm, s) && Next(tm, s, s')
    ensures Inv(tm, s') && s.tick <= s'.tick
    ensures forall at | at in s.tape :: at in s'.tape && (s.tape[at].outcome.Pending? || s'.tape[at] == s.tape[at])
  {
    if batch :| TickStep(tm, s, batch, s') {
      TickKeepsSealed(tm, s, batch, s');
      TickKeepsTape(tm, s, batch, s');
      TickKeepsWaves(tm, s, batch, s');
      TickKeepsFlights(tm, s, batch, s');
      forall at | at in s.tape
        ensures at in s'.tape && (s.tape[at].outcome.Pending? || s'.tape[at] == s.tape[at])
      {
        TickKeepsOutcomes(tm, s, batch, s', at);
      }
    } else {
      var k, outcomes :| WaveStep(s, k, outcomes, s');
      WaveKeepsInv(tm, s, k, outcomes, s');
    }
  }

  /** All invariants hold in every state of every run. */
  lemma {:induction false} EveryRunKeepsInv(tm: Timing, states: seq<State>, i: nat)
    requires IsRun(tm, states) && i < |states|
    ensures Inv(tm, states[i])
    decreases i
  {
    if i > 0 {
      EveryRunKeepsInv(tm, states, i - 1);
      assert Next(tm, states[i - 1], states[i - 1 + 1]);
      hide Inv;
      hide Next;
      StepKeepsInv(tm, states[i - 1], states[i]);
    } else {
      assert Inv(tm, START);
    }
  }

  lemma RunStep(tm: Timing, states: seq<State>, i: nat)
    requires IsRun(tm, states) && i + 1 < |states|
    ensures Inv(tm, states[i]) && Next(tm, states[i], states[i + 1])
  {
    EveryRunKeepsInv(tm, states, i);
  }

  lemma FinalStep(tm: Timing, states: seq<State>, i: nat, at: Place)
    requires IsRun(tm, states) && i + 1 < |states|
    requires at in states[i].tape && !states[i].tape[at].outcome.Pending?
    ensures at in states[i + 1].tape && states[i + 1].tape[at] == states[i].tape[at]
  {
    RunStep(tm, states, i);
    hide IsRun;
    hide Inv;
    hide Next;
    StepKeepsInv(tm, states[i], states[i + 1]);
  }

  /** An outcome changes at most once: once it is not pending, it stays. */
  lemma {:induction false} OutcomesAreFinal(tm: Timing, states: seq<State>, i: nat, j: nat, at: Place)
    requires IsRun(tm, states) && i <= j < |states|
    requires at in states[i].tape && !states[i].tape[at].outcome.Pending?
    ensures at in states[j].tape && states[j].tape[at] == states[i].tape[at]
    decreases j
  {
    hide IsRun;
    if i < j {
      OutcomesAreFinal(tm, states, i, j - 1, at);
      FinalStep(tm, states, j - 1, at);
    }
  }

  /** The places a sealed entry holds among the flights. */
  ghost predicate Carries(s: State, i: nat, j: nat, e: Entry) {
    i < |s.flights| && j < |s.flights[i].items| && s.flights[i].items[j] == e
  }

  /** Each sealed entry is carried by exactly one flight, once, sent at exactly its
      maturity tick; and by none before. */
  lemma OneFlightEach(tm: Timing, states: seq<State>, n: nat, e: Entry)
    requires IsRun(tm, states) && n < |states| && e in states[n].sealed
    ensures tm.Mature(e) <= states[n].tick <==> exists i: nat, j: nat :: Carries(states[n], i, j, e)
    ensures forall i: nat, j: nat :: Carries(states[n], i, j, e) ==> states[n].flights[i].sentAt == tm.Mature(e)
    ensures forall i: nat, j: nat, k: nat, m: nat ::
      Carries(states[n], i, j, e) && Carries(states[n], k, m, e) ==> i == k && j == m
  {
    var s := states[n];
    EveryRunKeepsInv(tm, states, n);
    hide Inv;
    MembersAre(tm, s.sealed, tm.Key(e));
    MembersDistinct(tm, s.sealed, tm.Key(e));
    forall i: nat, j: nat | Carries(s, i, j, e)
      ensures s.flights[i].Key() == tm.Key(e) && s.flights[i].sentAt == tm.Mature(e) <= s.tick
    {
      CarrierKey(tm, s, i, j, e);
    }
    if tm.Mature(e) <= s.tick {
      FlightFor(tm, s, e);
    }
    forall i: nat, j: nat, k: nat, m: nat | Carries(s, i, j, e) && Carries(s, k, m, e)
      ensures i == k && j == m
    {
      CarriedOnce(tm, s, i, j, k, m, e);
    }
  }

  lemma CarrierKey(tm: Timing, s: State, i: nat, j: nat, e: Entry)
    requires Inv(tm, s) && Carries(s, i, j, e)
    ensures s.flights[i].Key() == tm.Key(e) && s.flights[i].sentAt == tm.Mature(e) <= s.tick
  {
    assert FlightOk(tm, s, s.flights[i]);
    MembersAre(tm, s.sealed, s.flights[i].Key());
    assert e in s.flights[i].items;
  }

  lemma FlightFor(tm: Timing, s: State, e: Entry)
    requires Inv(tm, s) && e in s.sealed && tm.Mature(e) <= s.tick
    ensures exists i: nat, j: nat :: Carries(s, i, j, e)
  {
    var key := tm.Key(e);
    MembersAre(tm, s.sealed, key);
    assert e in Members(tm, s.sealed, key);
    assert HasFlight(s, key);
    var i :| 0 <= i < |s.flights| && s.flights[i].Key() == key;
    assert FlightOk(tm, s, s.flights[i]);
    var j :| 0 <= j < |s.flights[i].items| && s.flights[i].items[j] == e;
    assert Carries(s, i, j, e);
  }

  lemma CarriedOnce(tm: Timing, s: State, i: nat, j: nat, k: nat, m: nat, e: Entry)
    requires Inv(tm, s) && Carries(s, i, j, e) && Carries(s, k, m, e)
    ensures i == k && j == m
  {
    CarrierKey(tm, s, i, j, e);
    CarrierKey(tm, s, k, m, e);
    MembersDistinct(tm, s.sealed, tm.Key(e));
    assert FlightOk(tm, s, s.flights[i]);
  }

  /** After tick t nothing that matured by t - G is pending. */
  lemma NothingPendsPastCutoff(tm: Timing, states: seq<State>, n: nat, at: Place)
    requires IsRun(tm, states) && n < |states| && at in states[n].tape && states[n].tape[at].outcome.Pending?
    ensures states[n].tape[at].outcome.matureAt + tm.grace > states[n].tick
    ensures exists e :: e in states[n].sealed && e.At() == at && states[n].tape[at].outcome.matureAt == tm.Mature(e)
  {
    EveryRunKeepsInv(tm, states, n);
    assert !Overdue(states[n].tape[at], states[n].tick, tm.grace);
    var e :| e in states[n].sealed && e.At() == at;
    assert PositionOf(tm, e, states[n].tape[at]);
  }

  // ----- nothing resolves before its maturity

  /** An entry still to mature is pending, until its maturity. */
  ghost predicate Waits(tm: Timing, s: State, e: Entry) {
    tm.Mature(e) > s.tick ==> e.At() in s.tape && s.tape[e.At()].outcome == Pending(tm.Mature(e))
  }

  ghost predicate AllWait(tm: Timing, s: State) {
    forall e | e in s.sealed :: Waits(tm, s, e)
  }

  lemma TickKeepsWaiting(tm: Timing, s: State, batch: seq<Entry>, s': State)
    requires Inv(tm, s) && AllWait(tm, s) && TickStep(tm, s, batch, s')
    ensures AllWait(tm, s')
  {
    forall e | e in s'.sealed
      ensures Waits(tm, s', e)
    {
      if e in s.sealed {
        assert Waits(tm, s, e);
        NewPlaces(tm, s, batch, s', e.At());
        AddPositionsOther(tm, s.tape, batch, e.At());
      } else {
        TickKeepsSealed(tm, s, batch, s');
        var i :| 0 <= i < |batch| && batch[i] == e;
        AddPositionsNew(tm, s.tape, batch, i);
      }
    }
  }

  /** A report leaves places outside its items alone. */
  lemma {:induction false} ApplyOther(tape: Tape, items: seq<Entry>, outcomes: seq<Outcome>, at: Place)
    requires at in tape && forall i | 0 <= i < |items| :: items[i].At() != at
    ensures at in ApplyOutcomes(tape, items, outcomes) && ApplyOutcomes(tape, items, outcomes)[at] == tape[at]
    decreases |items|
  {
    if items != [] {
      ApplyOther(tape, items[..|items| - 1], outcomes, at);
    }
  }

  lemma SamePlaceSameEntry(s: State, d: Entry, e: Entry)
    requires SealedOk(s) && d in s.sealed && e in s.sealed && d.At() == e.At()
    ensures d == e
  {
    var i :| 0 <= i < |s.sealed| && s.sealed[i] == d;
    var j :| 0 <= j < |s.sealed| && s.sealed[j] == e;
  }

  lemma WaveKeepsWaiting(tm: Timing, s: State, k: nat, outcomes: seq<Outcome>, s': State)
    requires Inv(tm, s) && AllWait(tm, s) && WaveStep(s, k, outcomes, s')
    ensures AllWait(tm, s')
  {
    var f := s.flights[k];
    assert FlightOk(tm, s, f);
    MembersAre(tm, s.sealed, f.Key());
    forall e | e in s'.sealed
      ensures Waits(tm, s', e)
    {
      assert Waits(tm, s, e);
      if tm.Mature(e) > s.tick {
        forall i | 0 <= i < |f.items|
          ensures f.items[i].At() != e.At()
        {
          assert f.items[i] in f.items;
          if f.items[i].At() == e.At() {
            SamePlaceSameEntry(s, f.items[i], e);
          }
        }
        ApplyOther(s.tape, f.items, outcomes, e.At());
      }
    }
  }

  lemma {:induction false} EveryRunWaits(tm: Timing, states: seq<State>, n: nat)
    requires IsRun(tm, states) && n < |states|
    ensures AllWait(tm, states[n])
    decreases n
  {
    hide AllWait;
    if n == 0 {
      NothingWaits(tm);
    } else {
      EveryRunWaits(tm, states, n - 1);
      RunStep(tm, states, n - 1);
      var s, s' := states[n - 1], states[n];
      hide IsRun;
      hide Inv;
      hide TickStep;
      hide WaveStep;
      if batch :| TickStep(tm, s, batch, s') {
        TickKeepsWaiting(tm, s, batch, s');
      } else {
        var k: nat, outcomes :| WaveStep(s, k, outcomes, s');
        WaveKeepsWaiting(tm, s, k, outcomes, s');
      }
    }
  }

  lemma NothingWaits(tm: Timing)
    ensures AllWait(tm, START)
  {}

  /** No outcome, opened or gap, appears before maturity: in every state of every run
      an entry still to mature is pending. */
  lemma PendingUntilMature(tm: Timing, states: seq<State>, n: nat, e: Entry)
    requires IsRun(tm, states) && n < |states| && e in states[n].sealed
    ensures e.At() in states[n].tape
    ensures tm.Mature(e) > states[n].tick ==> states[n].tape[e.At()].outcome == Pending(tm.Mature(e))
  {
    EveryRunWaits(tm, states, n);
    EveryRunKeepsInv(tm, states, n);
    assert Waits(tm, states[n], e);
  }

  /** The pass at shutdown repeats the last tick's cutoff and changes nothing: what
      matures after the final tick stays pending. */
  lemma FinalPassIsIdle(tm: Timing, states: seq<State>, n: nat)
    requires IsRun(tm, states) && n < |states|
    ensures CutOff(states[n].tape, states[n].tick, tm.grace) == states[n].tape
    ensures forall e | e in states[n].sealed && tm.Mature(e) > states[n].tick ::
              && e.At() in states[n].tape
              && CutOff(states[n].tape, states[n].tick, tm.grace)[e.At()].outcome == Pending(tm.Mature(e))
  {
    EveryRunKeepsInv(tm, states, n);
    EveryRunWaits(tm, states, n);
    forall e | e in states[n].sealed && tm.Mature(e) > states[n].tick
      ensures e.At() in states[n].tape && states[n].tape[e.At()].outcome == Pending(tm.Mature(e))
    {
      assert Waits(tm, states[n], e);
    }
  }

  /** A run that ends with a position pending after the pass: one entry that matures
      after the only tick, whatever the delays. */
  lemma ShutdownLeavesPending(tm: Timing, e: Entry)
    requires e.tick == 1 && tm.Mature(e) > 1
    ensures exists states :: EndsPending(tm, states, e)
  {
    var tape: Tape := map[e.At() := Position(e.h, e.delayClass, Pending(tm.Mature(e)))];
    var end := State(1, tape, map[tm.Key(e) := [e]], [], [e]);
    AddPositionsOne(tm, e);
    hide AddPositions;
    hide AddWaves;
    assert TickStep(tm, START, [e], end);
    assert EndsPending(tm, [START, end], e);
  }

  ghost predicate EndsPending(tm: Timing, states: seq<State>, e: Entry) {
    && IsRun(tm, states)
    && var s := states[|states| - 1];
       e in s.sealed && e.At() in s.tape && CutOff(s.tape, s.tick, tm.grace)[e.At()].outcome.Pending?
  }

  lemma AddPositionsOne(tm: Timing, e: Entry)
    ensures AddPositions(tm, map[], [e]) == map[e.At() := Position(e.h, e.delayClass, Pending(tm.Mature(e)))]
    ensures AddWaves(tm, map[], [e]) == map[tm.Key(e) := [e]]
  {
    assert [e][..0] == [] && AddWaves(tm, map[], []) == map[];
    assert WaveAt(map[], tm.Key(e)) + [e] == [e];
  }

  const U64_MAX: nat := 0xFFFF_FFFF_FFFF_FFFF

  /** The node's timing under its parameters; an unknown class would never mature. */
  function TimingOf(p: PosqParams): Timing
    requires Usable(p)
  {
    Timing(k => if DelayTicks(p, k).Some? then DelayTicks(p, k).value else U64_MAX, GraceTicks(p))
  }

  /** No look: with the startup check passed and an adversary no slower than the
      public rate, a wave leaves only after the window of each of its entries, and
      the slack, are over. */
  lemma NoWaveWithinWindow(p: PosqParams, states: seq<State>, n: nat, i: nat, j: nat, e: Entry, window: Window)
    requires Usable(p) && NoLookHolds(p) && p.alphaNum >= p.alphaDen
    requires e.delayClass < |p.delayClasses| && 0 < window.len <= p.windowTicks && window.start <= e.tick
    requires IsRun(TimingOf(p), states) && n < |states| && Carries(states[n], i, j, e)
    ensures states[n].flights[i].sentAt > window.End() + p.gammaTicks
  {
    EveryRunKeepsInv(TimingOf(p), states, n);
    CarrierKey(TimingOf(p), states[n], i, j, e);
    hide IsRun;
    MaturesAfterWindow(p, e.delayClass, window, e.tick);
  }
}
