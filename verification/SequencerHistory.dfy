/** How a run's events show in its state: one record per clock tick, signatures of the
    sequencer's own, and the fence of the latest fault
    (crates/sequencer/src/node.rs:263-345, admission.rs:260-289). */
module SequencerHistory {
  import opened Wrappers
  import opened Digests
  import opened Records
  import opened Params
  import opened Admission
  import opened Sequencer

  function TicksIn(events: seq<Event>): seq<Event> {
    if events == [] then []
    else
      var last := events[|events| - 1];
      TicksIn(events[..|events| - 1]) + if last.ClockTick? then [last] else []
  }

  /** Record i is that of the i-th clock tick: its segment, its number and its clock
      state, the batch its own availability reference. */
  ghost predicate RecordsTick(record: TickRecord, tick: Event, i: nat) {
    && tick.ClockTick? && record.segment == tick.segment && record.x == tick.x && record.tick == i + 1
    && record.daRef == record.batchRoot
  }

  lemma {:induction false} SealedAreTicks(env: Env, events: seq<Event>)
    requires Usable(env.params)
    ensures |Run(env, events).sealed| == |TicksIn(events)|
    ensures forall i | 0 <= i < |TicksIn(events)| ::
              RecordsTick(Run(env, events).sealed[i].record, TicksIn(events)[i], i)
    decreases |events|
  {
    hide Submit;
    hide Fence;
    hide ReceiptsHit;
    if events != [] {
      SealedAreTicks(env, events[..|events| - 1]);
    }
  }

  /** The sequencer's signature stands on every receipt it issued and every record it
      sealed, over that receipt or record. */
  ghost predicate OwnSignatures(env: Env, s: Sys) {
    && (forall r | r in s.issued :: r.sig == env.sign(ReceiptMessage(r)))
    && (forall i | 0 <= i < |s.sealed| :: s.sealed[i].record.sig == env.sign(RecordMessage(s.sealed[i].record)))
  }

  lemma {:induction false} SignaturesAreOwn(env: Env, events: seq<Event>)
    requires Usable(env.params)
    ensures OwnSignatures(env, Run(env, events))
    decreases |events|
  {
    if events != [] {
      var front, ev := events[..|events| - 1], events[|events| - 1];
      SignaturesAreOwn(env, front);
      var s := Run(env, front);
      hide Run;
      if ev.Submission? {
        SubmissionSigns(env, s.adm, ev.bytes, ev.stored);
      }
      hide Submit;
      hide Fence;
      hide ReceiptsHit;
    }
  }

  lemma SubmissionSigns(env: Env, adm: AdmState, bytes: Bytes, stored: bool)
    requires Usable(env.params)
    ensures var o := Submit(env, adm, bytes, stored).1;
            && (o.Admitted? ==> o.receipt.sig == env.sign(ReceiptMessage(o.receipt)))
            && (!o.Admitted? ==> o.sig == env.sign(OutcomeMessage(env, o)))
  {
    hide Envelope.Decode;
    hide Objection;
    hide FirstRoom;
  }

  function Later(a: Option<nat>, tick: nat): Option<nat> {
    Some(if a.Some? && a.value > tick then a.value else tick)
  }

  /** The latest tick faulted since the last recovery. */
  function LatestFault(events: seq<Event>): Option<nat> {
    if events == [] then None
    else
      var before := LatestFault(events[..|events| - 1]);
      match events[|events| - 1]
      case CadenceFault(tick) => Later(before, tick)
      case Recovery => None
      case Submission(_, _) => before
      case ClockTick(_, _) => before
  }

  /** Admission is fenced up to exactly the latest fault, until recovery. */
  lemma {:induction false} FenceIsLatestFault(env: Env, events: seq<Event>)
    requires Usable(env.params)
    ensures Run(env, events).adm.fenceUntil == LatestFault(events)
    decreases |events|
  {
    if events != [] {
      var front, ev := events[..|events| - 1], events[|events| - 1];
      FenceIsLatestFault(env, front);
      var s := Run(env, front);
      hide Run;
      if ev.Submission? {
        var k := SubmitCases(env, s.adm, ev.bytes, ev.stored);
      }
      hide Submit;
    }
  }
}
