/** What a hole does to the adapter: it gets past a tick exactly when no tick up to
    it has one (demo/gateway/src/lighter_sim.rs:434-500). */
module Holes {
  import opened Digests
  import opened Pipeline
  import TR = TranscriptLaws
  import TL = AdapterLaws

  // ----- a fence's hole is a skipped place

  /** The batch scheduled for a sealed tick is numbered from zero exactly when no
      fence left a hole in the tick. */
  lemma NumberedBatchIff(env: Ad.Env, s: S.Sys, t: nat, classes: seq<nat>)
    requires S.ChainsOk(env, s) && S.BatchesOk(s) && 1 <= t <= |s.sealed| && |classes| == |s.sealed[t - 1].entries|
    ensures NumberedBatch(Scheduled(s.sealed[t - 1].entries, classes)) <==> TR.NoHoles(s, t)
  {
    var sealed := s.sealed[t - 1];
    TR.SealedNumbered(env, s, t);
    assert S.BatchFits(sealed, S.IssuedAt(s.issued, t), s.released);
    var batch := Scheduled(sealed.entries, classes);
    forall i | 0 <= i < |batch|
      ensures batch[i].pos == sealed.receipts[i].pos
    {
      assert sealed.entries[i] == R.EntryOf(sealed.receipts[i]);
    }
    hide TR.NoHoles;
    hide S.ChainsOk;
  }

  ghost predicate NumberedBatch(batch: seq<C.Entry>) {
    forall i | 0 <= i < |batch| :: batch[i].pos == i
  }

  ghost predicate Ascending(batch: seq<C.Entry>) {
    forall i, j | 0 <= i < j < |batch| :: batch[i].pos < batch[j].pos
  }

  // ----- a skipped place is a missing one

  /** Every place below the tick's entry count is on the tape. */
  ghost predicate AllPlaces(s: C.State, t: nat) {
    forall p: nat | p < CountAt(s.sealed, t) :: (t, p) in s.tape
  }

  lemma TapeIsPast(tm: C.Timing, s: C.State, at: C.Place)
    requires CL.Inv(tm, s) && at in s.tape
    ensures at.0 <= s.tick
  {
    var e :| e in s.sealed && e.At() == at;
  }

  lemma {:induction false} AllCounted(b: seq<C.Entry>, tick: nat)
    requires forall i | 0 <= i < |b| :: b[i].tick == tick
    ensures CountAt(b, tick) == |b|
  {
    if b != [] {
      AllCounted(b[..|b| - 1], tick);
    }
  }

  lemma {:induction false} NoneAhead(b: seq<C.Entry>, tick: nat)
    requires forall e | e in b :: e.tick < tick
    ensures CountAt(b, tick) == 0
  {
    if b != [] {
      assert b[|b| - 1] in b;
      NoneAhead(b[..|b| - 1], tick);
    }
  }

  lemma {:induction false} FirstSkipped(batch: seq<C.Entry>, i: nat) returns (p: nat)
    requires i < |batch| && batch[i].pos != i && Ascending(batch)
    ensures p <= i && forall k | 0 <= k < |batch| :: batch[k].pos != p
    decreases i
  {
    if i > 0 && batch[i - 1].pos != i - 1 {
      p := FirstSkipped(batch, i - 1);
    } else {
      p := i;
      if i > 0 {
        assert batch[i - 1].pos < batch[i].pos;
      }
    }
  }

  lemma TickCount(tm: C.Timing, s: C.State, batch: seq<C.Entry>, s': C.State)
    requires CL.Inv(tm, s) && C.TickStep(tm, s, batch, s')
    ensures CountAt(s'.sealed, s'.tick) == |batch|
  {
    CountConcat(s.sealed, batch, s'.tick);
    AllCounted(batch, s'.tick);
    NoneAhead(s.sealed, s'.tick);
  }

  /** A tick's batch leaves no place missing exactly when it is numbered from zero. */
  lemma AllPlacesIff(tm: C.Timing, s: C.State, batch: seq<C.Entry>, s': C.State)
    requires CL.Inv(tm, s) && C.TickStep(tm, s, batch, s') && Ascending(batch)
    ensures AllPlaces(s', s'.tick) <==> NumberedBatch(batch)
  {
    var t := s'.tick;
    TickCount(tm, s, batch, s');
    if NumberedBatch(batch) {
      CL.TickKeepsSealed(tm, s, batch, s');
      forall p: nat | p < |batch|
        ensures (t, p) in s'.tape
      {
        CL.AddPositionsNew(tm, s.tape, batch, p);
      }
    } else {
      var i :| 0 <= i < |batch| && batch[i].pos != i;
      var p := FirstSkipped(batch, i);
      SkippedIsMissing(tm, s, batch, s', p);
    }
  }

  lemma SkippedIsMissing(tm: C.Timing, s: C.State, batch: seq<C.Entry>, s': C.State, p: nat)
    requires CL.Inv(tm, s) && C.TickStep(tm, s, batch, s') && forall k | 0 <= k < |batch| :: batch[k].pos != p
    ensures (s'.tick, p) !in s'.tape
  {
    if (s'.tick, p) in s.tape {
      TapeIsPast(tm, s, (s'.tick, p));
    }
    CL.AddPositionsOther(tm, s.tape, batch, (s'.tick, p));
  }

  /** Whether a tick misses a place is settled when it is sealed. */
  lemma PlacesAreSettled(tm: C.Timing, states: seq<C.State>, i: nat, j: nat, t: nat)
    requires C.IsRun(tm, states) && i <= j < |states| && t <= states[i].tick
    ensures AllPlaces(states[j], t) <==> AllPlaces(states[i], t)
  {
    RunSettles(tm, states, i, j);
    hide C.IsRun;
    var a, b := states[i], states[j];
    assert forall p: nat :: (t, p) in a.tape <==> (t, p) in b.tape;
  }

  // ----- what the adapter gets past

  predicate Resolved(s: C.State, t: nat, p: nat) {
    (t, p) in s.tape && !s.tape[(t, p)].outcome.Pending?
  }

  /** The adapter gets past tick t over a coordinator's store exactly when every place
      up to it is on the tape and resolved. */
  lemma PassesIffResolved(read: Bytes -> T.Intent, s: C.State, parse: T.Parser, blockTicks: nat, core: T.Core,
                          epoch: nat, t: nat)
    requires blockTicks > 0 && t <= s.tick
    ensures TL.Reaches(parse, blockTicks, StoreOf(read, s), T.BeginEpoch(core, epoch), t + 1, 0)
       <==> forall u: nat, p: nat | 1 <= u <= t && p < CountAt(s.sealed, u) :: Resolved(s, u, p)
  {
    var store := StoreOf(read, s);
    TL.ReachesIff(parse, blockTicks, store, core, epoch, t + 1, 0);
    hide TL.Reaches;
    forall u: nat, p: nat | 1 <= u <= t
      ensures TL.EntryCount(store, u) == CountAt(s.sealed, u) && (TL.ResolvedAt(store, u, p) <==> Resolved(s, u, p))
    {}
    if TL.PrefixResolved(store, t + 1, 0) {
      forall u: nat, p: nat | 1 <= u <= t && p < CountAt(s.sealed, u)
        ensures Resolved(s, u, p)
      {
        assert p < TL.EntryCount(store, u) && TL.ResolvedAt(store, u, p);
      }
    }
  }

  /** Every entry up to tick t is past its cutoff. */
  ghost predicate PastCutoff(tm: C.Timing, s: C.State, t: nat) {
    forall e | e in s.sealed && e.tick <= t :: tm.Mature(e) + tm.grace <= s.tick
  }

  /** Once the cutoffs up to tick t have passed, the adapter gets past it exactly when
      no tick up to it misses a place. */
  lemma PassesIffAllPlaces(tm: C.Timing, read: Bytes -> T.Intent, states: seq<C.State>, j: nat, parse: T.Parser,
                           blockTicks: nat, core: T.Core, epoch: nat, t: nat)
    requires C.IsRun(tm, states) && j < |states| && blockTicks > 0 && t <= states[j].tick
    requires PastCutoff(tm, states[j], t)
    ensures TL.Reaches(parse, blockTicks, StoreOf(read, states[j]), T.BeginEpoch(core, epoch), t + 1, 0)
       <==> forall u: nat | 1 <= u <= t :: AllPlaces(states[j], u)
  {
    var s := states[j];
    PassesIffResolved(read, s, parse, blockTicks, core, epoch, t);
    hide TL.Reaches;
    forall u: nat, p: nat | u <= t && (u, p) in s.tape
      ensures Resolved(s, u, p)
    {
      if s.tape[(u, p)].outcome.Pending? {
        CL.NothingPendsPastCutoff(tm, states, j, (u, p));
      }
    }
    hide C.IsRun;
    if forall u: nat, p: nat | 1 <= u <= t && p < CountAt(s.sealed, u) :: Resolved(s, u, p) {
      forall u: nat | 1 <= u <= t
        ensures AllPlaces(s, u)
      {
        forall p: nat | p < CountAt(s.sealed, u)
          ensures (u, p) in s.tape
        {
          assert Resolved(s, u, p);
        }
      }
    }
    if forall u: nat | 1 <= u <= t :: AllPlaces(s, u) {
      forall u: nat, p: nat | 1 <= u <= t && p < CountAt(s.sealed, u)
        ensures Resolved(s, u, p)
      {
        assert AllPlaces(s, u);
      }
    }
  }

  // ----- from fence to adapter

  /** The coordinator's tick u is fed the sequencer's sealed batch. */
  ghost predicate FedAt(tm: C.Timing, states: seq<C.State>, s: S.Sys, classes: nat -> seq<nat>, u: nat) {
    && 1 <= u <= |s.sealed| && |classes(u)| == |s.sealed[u - 1].entries|
    && exists i :: 0 <= i < |states| - 1 && StepFed(tm, states, s, classes, u, i)
  }

  ghost predicate StepFed(tm: C.Timing, states: seq<C.State>, s: S.Sys, classes: nat -> seq<nat>, u: nat, i: nat)
    requires 1 <= u <= |s.sealed| && |classes(u)| == |s.sealed[u - 1].entries| && i + 1 < |states|
  {
    states[i + 1].tick == u && C.TickStep(tm, states[i], Scheduled(s.sealed[u - 1].entries, classes(u)), states[i + 1])
  }

  lemma PlacesIffNoHoles(env: Ad.Env, s: S.Sys, tm: C.Timing, states: seq<C.State>, classes: nat -> seq<nat>, j: nat,
                         u: nat)
    requires S.ChainsOk(env, s) && S.BatchesOk(s)
    requires C.IsRun(tm, states) && j < |states| && FedAt(tm, states, s, classes, u) && u <= states[j].tick
    ensures AllPlaces(states[j], u) <==> TR.NoHoles(s, u)
  {
    hide S.ChainsOk;
    hide S.BatchesOk;
    hide TR.NoHoles;
    hide AllPlaces;
    hide C.TickStep;
    var i :| 0 <= i < |states| - 1 && StepFed(tm, states, s, classes, u, i);
    var batch := Scheduled(s.sealed[u - 1].entries, classes(u));
    CL.RunStep(tm, states, i);
    hide C.Next;
    hide CL.Inv;
    BatchAscends(env, s, u);
    NumberedBatchIff(env, s, u, classes(u));
    hide NumberedBatch;
    AllPlacesIff(tm, states[i], batch, states[i + 1]);
    StepTick(tm, states[i], batch, states[i + 1]);
    if j <= i {
      RunSettles(tm, states, j, i);
    }
    hide C.IsRun;
    PlacesAreSettled(tm, states, i + 1, j, u);
  }

  lemma StepTick(tm: C.Timing, s: C.State, batch: seq<C.Entry>, s': C.State)
    requires C.TickStep(tm, s, batch, s')
    ensures s'.tick == s.tick + 1
  {}

  /** From end to end: for a coordinator fed by any run of the sequencer, once the
      cutoffs up to tick t have passed, the adapter gets past tick t exactly when no
      fence left a hole in a tick up to it. */
  lemma AdapterPassesIffNoHoles(env: Ad.Env, s: S.Sys, tm: C.Timing, read: Bytes -> T.Intent, states: seq<C.State>,
                                classes: nat -> seq<nat>, j: nat, parse: T.Parser, blockTicks: nat, core: T.Core,
                                epoch: nat, t: nat)
    requires S.Inv(env, s) && C.IsRun(tm, states) && forall u: nat | 1 <= u <= t :: FedAt(tm, states, s, classes, u)
    requires j < |states| && blockTicks > 0 && t <= states[j].tick && PastCutoff(tm, states[j], t)
    ensures TL.Reaches(parse, blockTicks, StoreOf(read, states[j]), T.BeginEpoch(core, epoch), t + 1, 0)
       <==> forall u: nat | 1 <= u <= t :: TR.NoHoles(s, u)
  {
    hide S.LogOk;
    hide S.ChainsOk;
    hide S.BuffersOk;
    hide S.BatchesOk;
    hide S.AccountsOk;
    hide S.ReceiptsOk;
    hide S.SignedOk;
    hide C.IsRun;
    hide FedAt;
    hide TL.Reaches;
    hide TR.NoHoles;
    hide AllPlaces;
    PassesIffAllPlaces(tm, read, states, j, parse, blockTicks, core, epoch, t);
    hide PastCutoff;
    forall u: nat | 1 <= u <= t
      ensures AllPlaces(states[j], u) <==> TR.NoHoles(s, u)
    {
      PlacesIffNoHoles(env, s, tm, states, classes, j, u);
    }
  }

  // ----- no cutoff mends a hole

  predicate AtOrBefore(s: T.Sim, t: nat, p: nat) {
    s.tick < t || (s.tick == t && s.pos <= p)
  }

  /** A missing place below a tick's count: the walk waits there. */
  predicate Missing(store: T.Store, t: nat, p: nat) {
    t in store.ticks && p < store.ticks[t] && (t, p) !in store.tape
  }

  lemma {:induction false} MissingBlocks(parse: T.Parser, blockTicks: nat, store: T.Store, s: T.Sim, n: nat, s': T.Sim,
                                         t: nat, p: nat)
    requires blockTicks > 0 && Missing(store, t, p) && AtOrBefore(s, t, p)
    requires T.StepsTo(parse, blockTicks, store, s, n, s')
    ensures AtOrBefore(s', t, p)
    decreases n
  {
    hide T.Apply;
    if n > 0 {
      var a := T.NextAction(store, s.tick, s.pos).value;
      MissingBlocks(parse, blockTicks, store, T.Step(parse, blockTicks, s, a), n - 1, s', t, p);
    }
  }

  /** A place missing from a sealed tick is missing for good: from the start of the
      epoch no schedule of polls, over any later state, ever gets past it. */
  lemma HoleStallsAdapter(tm: C.Timing, read: Bytes -> T.Intent, states: seq<C.State>, i: nat, j: nat, parse: T.Parser,
                          blockTicks: nat, core: T.Core, epoch: nat, n: nat, end: T.Sim, t: nat, p: nat)
    requires C.IsRun(tm, states) && i <= j < |states| && blockTicks > 0
    requires 1 <= t <= states[i].tick && p < CountAt(states[i].sealed, t) && (t, p) !in states[i].tape
    requires T.StepsTo(parse, blockTicks, StoreOf(read, states[j]), T.BeginEpoch(core, epoch), n, end)
    ensures AtOrBefore(end, t, p)
  {
    RunSettles(tm, states, i, j);
    hide T.StepsTo;
    MissingBlocks(parse, blockTicks, StoreOf(read, states[j]), T.BeginEpoch(core, epoch), n, end, t, p);
  }
}
