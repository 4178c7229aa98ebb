/** Runs that reach the failures the other files characterise: a fence that leaves
    a hole and a convicting receipt, and admissions between taking a tick and
    opening the next (crates/sequencer/src/admission.rs, node.rs:263-345). */
module Scenarios {
  import opened Wrappers
  import opened Words
  import opened ModArith
  import opened Digests
  import opened Records
  import opened Params
  import opened Envelope
  import opened Admission
  import opened Sequencer
  import opened SequencerLaws
  import opened FraudProofs
  import Transcript
  import TranscriptLaws
  import Anchors

  /** One slot a tick and bucket, windows of two ticks, two ticks to a segment. */
  function Profile(): PosqParams {
    PosqParams(0, 1, 1, 2, 2, 0, 0, 1, 1, [3], 1, 382, 1, 1)
  }

  /** Every ticket is valid, and signature bytes are empty. */
  function Desk(): Env {
    Env(Profile(), (t: Ticket) => true, (m: Message) => [])
  }

  lemma DeskUsable()
    ensures Usable(Desk().params)
  {}

  /** Envelopes told apart by their ticket. */
  function Sample(id: Byte, bucket: Bucket, window: Window): EnvelopeData {
    var ticket := Ticket(seq(16, _ => id), 0, bucket, Zeros(65));
    EnvelopeData(bucket, 0, window, 0, Zeros(16), ticket, Ciphertext(0, 0, []))
  }

  function SampleBytes(id: Byte, bucket: Bucket, window: Window): Bytes {
    Layout(Sample(id, bucket, window), 382)
  }

  function SampleHash(id: Byte, bucket: Bucket, window: Window): Digest {
    Commitment(0, SampleBytes(id, bucket, window))
  }

  lemma SmallFits(x: nat)
    requires x < 256
    ensures x < Pow(256, 2) && x < Pow(256, 8)
  {
    assert Pow(256, 1) == 256 * Pow(256, 0);
    PowStrictlyMonotone(256, 1, 2);
    PowStrictlyMonotone(256, 1, 8);
  }

  lemma SampleDecodes(id: Byte, bucket: Bucket, window: Window)
    requires window.start < 256 && 0 < window.len < 256
    ensures |SampleBytes(id, bucket, window)| == 382
    ensures Decode(SampleBytes(id, bucket, window), 382) == Ok(Sample(id, bucket, window))
  {
    SmallFits(0);
    SmallFits(window.start);
    SmallFits(window.len);
    hide Layout;
    hide Decode;
    hide Pow;
    RoundTripIff(Sample(id, bucket, window), 382);
  }

  /** Different tickets, different commitments. */
  lemma SamplesDiffer(id: Byte, bucket: Bucket, window: Window, id': Byte, bucket': Bucket, window': Window)
    requires window.start < 256 && 0 < window.len < 256 && window'.start < 256 && 0 < window'.len < 256 && id != id'
    ensures SampleHash(id, bucket, window) != SampleHash(id', bucket', window')
    ensures Sample(id, bucket, window).ticket.id != Sample(id', bucket', window').ticket.id
  {
    SampleDecodes(id, bucket, window);
    SampleDecodes(id', bucket', window');
    hide Decode;
    hide Layout;
    assert Sample(id, bucket, window).ticket.id[0] == id && Sample(id', bucket', window').ticket.id[0] == id';
  }

  /** An unobjectionable sample with room at t is admitted there. */
  lemma SampleAdmitted(adm: AdmState, id: Byte, bucket: Bucket, window: Window, t: nat)
    requires window.start < 256 && 0 < window.len < 256
    requires Objection(Desk(), adm, SampleHash(id, bucket, window), Sample(id, bucket, window)).None?
    requires FirstRoom(adm, 1, bucket, adm.openTick, window.End()) == Some(t)
    ensures var r := ReceiptFor(Desk(), adm, SampleHash(id, bucket, window), Sample(id, bucket, window), t);
            Submit(Desk(), adm, SampleBytes(id, bucket, window), true) == (Reserve(adm, r, 0), Admitted(r))
  {
    SampleDecodes(id, bucket, window);
    hide Decode;
    hide Layout;
    hide Objection;
    hide FirstRoom;
  }

  // ----- one slot taken, one spilled

  const W1: Window := Window(1, 2)
  const W2: Window := Window(2, 2)

  function FirstReceipt(): Receipt {
    ReceiptFor(Desk(), Init(0), SampleHash(0, Majors, W1), Sample(0, Majors, W1), 1)
  }

  function AfterFirst(): AdmState {
    Reserve(Init(0), FirstReceipt(), 0)
  }

  function SecondReceipt(): Receipt {
    ReceiptFor(Desk(), AfterFirst(), SampleHash(1, Majors, W1), Sample(1, Majors, W1), 2)
  }

  function AfterSecond(): AdmState {
    Reserve(AfterFirst(), SecondReceipt(), 0)
  }

  lemma FirstAdmitted()
    ensures Submit(Desk(), Init(0), SampleBytes(0, Majors, W1), true) == (AfterFirst(), Admitted(FirstReceipt()))
  {
    hide SampleBytes;
    hide SampleHash;
    SampleAdmitted(Init(0), 0, Majors, W1, 1);
  }

  lemma SecondAdmitted()
    ensures Submit(Desk(), AfterFirst(), SampleBytes(1, Majors, W1), true) == (AfterSecond(), Admitted(SecondReceipt()))
  {
    SamplesDiffer(0, Majors, W1, 1, Majors, W1);
    hide SampleBytes;
    hide SampleHash;
    SampleAdmitted(AfterFirst(), 1, Majors, W1, 2);
  }

  lemma RunAppend(events: seq<Event>, ev: Event)
    ensures Run(Desk(), events + [ev]) == Step(Desk(), Run(Desk(), events), ev)
  {
    assert (events + [ev])[..|events|] == events;
  }

  lemma StepAdmits(s: Sys, bytes: Bytes, adm: AdmState, r: Receipt)
    requires Submit(Desk(), s.adm, bytes, true) == (adm, Admitted(r))
    ensures var s' := Step(Desk(), s, Submission(bytes, true));
            s'.adm == adm && s'.issued == s.issued + [r] && s'.released == s.released && s'.sealed == s.sealed
  {
    hide Submit;
  }

  lemma StepSeals(s: Sys, segment: nat, x: nat)
    ensures var s' := Step(Desk(), s, ClockTick(segment, x));
            s'.issued == s.issued && s'.released == s.released && |s'.sealed| == |s.sealed| + 1
  {}

  /** Two submissions, the first tick, and a fault at it. */
  function Spill(): seq<Event> {
    [] + [Submission(SampleBytes(0, Majors, W1), true)] + [Submission(SampleBytes(1, Majors, W1), true)]
  }

  function Fault(): seq<Event> {
    Spill() + [ClockTick(0, 7)] + [CadenceFault(1)]
  }

  lemma FirstReached()
    ensures var s := Run(Desk(), [] + [Submission(SampleBytes(0, Majors, W1), true)]);
            && s.issued == [FirstReceipt()] && s.released == {} && s.adm == AfterFirst() && s.sealed == []
  {
    GenesisRun();
    hide Run;
    hide Submit;
    hide Step;
    hide AfterFirst;
    hide FirstReceipt;
    hide SampleBytes;
    RunAppend([], Submission(SampleBytes(0, Majors, W1), true));
    FirstAdmitted();
    StepAdmits(Run(Desk(), []), SampleBytes(0, Majors, W1), AfterFirst(), FirstReceipt());
  }

  lemma SpillReached()
    ensures Run(Desk(), Spill()).issued == [FirstReceipt(), SecondReceipt()] && Run(Desk(), Spill()).released == {}
    ensures Run(Desk(), Spill()).adm == AfterSecond() && Run(Desk(), Spill()).sealed == []
  {
    hide Run;
    hide Submit;
    hide Step;
    hide AfterFirst;
    hide AfterSecond;
    hide FirstReceipt;
    hide SecondReceipt;
    hide SampleBytes;
    var first := [] + [Submission(SampleBytes(0, Majors, W1), true)];
    FirstReached();
    RunAppend(first, Submission(SampleBytes(1, Majors, W1), true));
    SecondAdmitted();
    StepAdmits(Run(Desk(), first), SampleBytes(1, Majors, W1), AfterSecond(), SecondReceipt());
  }

  lemma GenesisRun()
    ensures var s := Run(Desk(), []); s.adm == Init(0) && s.issued == [] && s.released == {} && s.sealed == []
  {}

  lemma SecondPlace()
    ensures SecondReceipt().tick == 2 && SecondReceipt().pos == 0 && SecondReceipt().window == W1
    ensures SecondReceipt().h == SampleHash(1, Majors, W1) && FirstReceipt().h == SampleHash(0, Majors, W1)
    ensures FirstReceipt().tick == 1 && FirstReceipt() != SecondReceipt()
  {
    hide SampleHash;
  }

  /** Two tickets used, one slot of tick 2 taken. */
  ghost predicate SpilledState(adm: AdmState) {
    && adm.consumed <= {Sample(0, Majors, W1).ticket.id, Sample(1, Majors, W1).ticket.id}
    && adm.seen <= {SampleHash(0, Majors, W1), SampleHash(1, Majors, W1)}
    && BufferAt(adm, 2).nextPos == 1 && Count(adm, 2, LongTail) == 0
  }

  lemma SecondBuffer()
    ensures SpilledState(AfterSecond()) && AfterSecond().fenceUntil == None
  {
    hide SampleHash;
  }

  lemma TickReached()
    ensures var s := Run(Desk(), Spill() + [ClockTick(0, 7)]);
            && s.issued == [FirstReceipt(), SecondReceipt()] && s.released == {} && |s.sealed| == 1
            && s.adm.openTick == 2 && s.adm.fenceUntil == None && SpilledState(s.adm)
  {
    SpillReached();
    RunAppend(Spill(), ClockTick(0, 7));
    SecondBuffer();
    hide SampleHash;
    hide Run;
    hide Spill;
    hide AfterSecond;
    hide FirstReceipt;
    hide SecondReceipt;
  }

  /** A fault releases any open reservation it overlaps, and nothing that was not issued. */
  lemma FaultReleases(env: Env, s: Sys, faultTick: nat, r: Receipt)
    requires Usable(env.params) && Inv(env, s) && r in s.issued && r !in s.released
    requires r.tick >= s.adm.openTick && Overlaps(r.window, faultTick)
    ensures var s' := Step(env, s, CadenceFault(faultTick));
            && r in s'.released && s'.issued == s.issued && s'.sealed == s.sealed && s'.adm.openTick == s.adm.openTick
            && s'.adm.fenceUntil.Some? && (s.adm.fenceUntil.None? ==> s'.adm.fenceUntil.value == faultTick)
            && (forall q | q in s'.released :: q in s.issued)
            && s'.adm.consumed <= s.adm.consumed && s'.adm.seen <= s.adm.seen
            && forall t, bucket :: Count(s'.adm, t, bucket) == Count(s.adm, t, bucket)
                                   && BufferAt(s'.adm, t).nextPos == BufferAt(s.adm, t).nextPos
  {
    forall q
      ensures q in ReceiptsHit(s.adm, faultTick) ==> q in s.issued
    {
      HitIsLiveOverlap(env, s, faultTick, q);
    }
    HitIsLiveOverlap(env, s, faultTick, r);
    hide HitIn;
    hide ReceiptsHit;
  }

  /** The fault releases the spilled reservation. */
  lemma FaultReached()
    ensures var s := Run(Desk(), Fault());
            && s.issued == [FirstReceipt(), SecondReceipt()] && SecondReceipt() in s.released
            && (forall r | r in s.released :: r in s.issued) && |s.sealed| == 1
            && s.adm.openTick == 2 && s.adm.fenceUntil == Some(1) && SpilledState(s.adm)
  {
    hide Run;
    hide Inv;
    hide Step;
    hide Spill;
    hide SecondReceipt;
    hide FirstReceipt;
    hide SampleHash;
    hide Sample;
    var ticked := Spill() + [ClockTick(0, 7)];
    TickReached();
    RunAppend(ticked, CadenceFault(1));
    EveryRunKeepsInv(Desk(), ticked);
    SecondPlace();
    var s := Run(Desk(), ticked);
    assert s.issued[1] == SecondReceipt();
    FaultReleases(Desk(), s, 1, SecondReceipt());
  }

  /** A run in which an honest sequencer convicts itself: the released receipt of a
      tick since sealed is a verifying omission. */
  lemma FencedReceiptConvicts()
    ensures var signed := Run(Desk(), Fault() + [ClockTick(0, 8)]).signed;
            ReceiptVerifies(signed, SecondReceipt()) && OmissionProvable(signed, SecondReceipt())
  {
    hide Run;
    hide Fault;
    hide Inv;
    hide Step;
    hide SecondReceipt;
    hide FirstReceipt;
    hide SampleHash;
    hide SpilledState;
    hide OmissionProvable;
    var events := Fault() + [ClockTick(0, 8)];
    DeskUsable();
    hide Desk;
    FaultReached();
    SecondPlace();
    SecondLinked();
    RunAppend(Fault(), ClockTick(0, 8));
    StepSeals(Run(Desk(), Fault()), 0, 8);
    EveryRunKeepsInv(Desk(), events);
    var s := Run(Desk(), events);
    assert s.issued[1] == SecondReceipt();
    IssuedIsSigned(Desk(), s, SecondReceipt());
    OmissionIff(Desk(), events, SecondReceipt());
  }

  lemma IssuedIsSigned(env: Env, s: Sys, r: Receipt)
    requires Inv(env, s) && r in s.issued
    ensures ReceiptMessage(r) in s.signed
  {}

  lemma SecondLinked()
    ensures var r := SecondReceipt(); r.d == DigestStep(r.dPrev, r.tick, r.pos, r.h, r.bucket, r.ticketId)
  {
    hide SampleHash;
  }

  // ----- a hole

  /** A third submission, of the other bucket, after the fault: it takes the place
      behind the abandoned one. */
  ghost function ThirdReceipt(): Receipt {
    ReceiptFor(Desk(), Run(Desk(), Fault()).adm, SampleHash(2, LongTail, W2), Sample(2, LongTail, W2), 2)
  }

  /** Tick 2 is open to the other bucket, behind the place taken. */
  lemma ThirdOpen(adm: AdmState)
    requires SpilledState(adm) && adm.openTick == 2 && adm.fenceUntil == Some(1)
    ensures Objection(Desk(), adm, SampleHash(2, LongTail, W2), Sample(2, LongTail, W2)).None?
    ensures FirstRoom(adm, 1, LongTail, adm.openTick, W2.End()) == Some(2)
  {
    SamplesDiffer(0, Majors, W1, 2, LongTail, W2);
    SamplesDiffer(1, Majors, W1, 2, LongTail, W2);
    hide SampleHash;
  }

  lemma ThirdPlace(adm: AdmState)
    requires SpilledState(adm)
    ensures var r := ReceiptFor(Desk(), adm, SampleHash(2, LongTail, W2), Sample(2, LongTail, W2), 2);
            r.tick == 2 && r.pos == 1 && r.h == SampleHash(2, LongTail, W2)
  {
    hide SampleHash;
    hide Sample;
  }

  lemma ThirdAdmitted()
    ensures var adm := Run(Desk(), Fault()).adm;
            Submit(Desk(), adm, SampleBytes(2, LongTail, W2), true)
              == (Reserve(adm, ThirdReceipt(), 0), Admitted(ThirdReceipt()))
    ensures ThirdReceipt().tick == 2 && ThirdReceipt().pos == 1 && ThirdReceipt().h == SampleHash(2, LongTail, W2)
  {
    hide Run;
    hide Fault;
    hide Submit;
    hide SpilledState;
    hide FirstReceipt;
    hide SecondReceipt;
    hide SampleBytes;
    hide SampleHash;
    hide Sample;
    hide Objection;
    hide FirstRoom;
    hide Reserve;
    hide ReceiptFor;
    DeskUsable();
    hide Desk;
    FaultReached();
    var adm := Run(Desk(), Fault()).adm;
    ThirdOpen(adm);
    ThirdPlace(adm);
    SampleAdmitted(adm, 2, LongTail, W2, 2);
  }

  function HoleRun(): seq<Event> {
    Fault() + [Submission(SampleBytes(2, LongTail, W2), true)] + [ClockTick(0, 8)]
  }

  lemma HasHole(s: Sys, q: Receipt, r: Receipt)
    requires q in s.issued && r in s.issued && q.tick == r.tick && q !in s.released && r in s.released && q.pos >= r.pos
    ensures !TranscriptLaws.NoHoles(s, q.tick)
  {}

  lemma ThirdReached()
    ensures var s := Run(Desk(), Fault() + [Submission(SampleBytes(2, LongTail, W2), true)]);
            && s.issued == [FirstReceipt(), SecondReceipt(), ThirdReceipt()] && |s.sealed| == 1
            && s.released == Run(Desk(), Fault()).released
  {
    hide Run;
    hide Fault;
    hide Step;
    hide Submit;
    hide SpilledState;
    hide Reserve;
    hide Sample;
    hide SampleBytes;
    hide SampleHash;
    hide FirstReceipt;
    hide SecondReceipt;
    hide ThirdReceipt;
    hide Desk;
    DeskUsable();
    var bytes := SampleBytes(2, LongTail, W2);
    FaultReached();
    ThirdAdmitted();
    RunAppend(Fault(), Submission(bytes, true));
    var before := Run(Desk(), Fault());
    StepAdmits(before, bytes, Reserve(before.adm, ThirdReceipt(), 0), ThirdReceipt());
  }

  lemma HoleReached()
    ensures |Run(Desk(), HoleRun()).sealed| == 2 && !TranscriptLaws.NoHoles(Run(Desk(), HoleRun()), 2)
  {
    hide Run;
    hide Fault;
    hide Step;
    hide Submit;
    hide SpilledState;
    hide Reserve;
    hide Sample;
    hide SampleBytes;
    hide SampleHash;
    hide FirstReceipt;
    hide SecondReceipt;
    hide ThirdReceipt;
    hide Desk;
    hide TranscriptLaws.NoHoles;
    DeskUsable();
    var submitted := Fault() + [Submission(SampleBytes(2, LongTail, W2), true)];
    ThirdReached();
    FaultReached();
    ThirdIsNew();
    RunAppend(submitted, ClockTick(0, 8));
    StepSeals(Run(Desk(), submitted), 0, 8);
    var s := Run(Desk(), HoleRun());
    assert s.issued[1] in s.issued && s.issued[2] in s.issued;
    HasHole(s, ThirdReceipt(), SecondReceipt());
  }

  /** The third receipt is none of those a fence has released. */
  lemma ThirdIsNew()
    ensures ThirdReceipt() !in Run(Desk(), Fault()).released
    ensures ThirdReceipt().tick == SecondReceipt().tick == 2 && ThirdReceipt().pos >= SecondReceipt().pos
  {
    hide Run;
    hide Fault;
    hide Step;
    hide Submit;
    hide SpilledState;
    hide Reserve;
    hide Sample;
    hide SampleBytes;
    hide SampleHash;
    hide FirstReceipt;
    hide SecondReceipt;
    hide ThirdReceipt;
    hide Desk;
    FaultReached();
    ThirdAdmitted();
    SecondPlace();
    SamplesDiffer(0, Majors, W1, 2, LongTail, W2);
    SamplesDiffer(1, Majors, W1, 2, LongTail, W2);
  }

  /** The honest run's own transcript is refused, and its first span never anchored,
      whatever happens next. */
  lemma HoleIsRefused(more: seq<Event>, proved: set<nat>)
    ensures var s := Run(Desk(), HoleRun());
            Transcript.CheckSpan(s.signed, 0, TranscriptLaws.StoreOf(s), 1, 2, Transcript.Span(LogGenesis(0), {})).Err?
    ensures Anchors.AnchorsFrom(Desk(), Run(Desk(), HoleRun() + more), proved, 0) == []
  {
    HoleReached();
    var s := Run(Desk(), HoleRun());
    hide HoleRun;
    hide TranscriptLaws.NoHoles;
    hide Transcript.CheckSpan;
    hide Anchors.AnchorsFrom;
    TranscriptLaws.RunVerifiesIff(Desk(), HoleRun(), 1, 2);
    Anchors.HoleStopsAnchors(Desk(), HoleRun(), more, proved, 0, 2);
    hide Run;
    assert s.sealed[..0] == [];
  }

  // ----- between taking a tick and opening the next

  /** A submission is admitted in the gap ... */
  lemma GapAdmits()
    ensures Submit(Desk(), TakeTick(Init(0), 1).0, SampleBytes(0, Majors, W1), true).1.Admitted?
  {
    hide SampleBytes;
    hide SampleHash;
    hide Submit;
    SampleAdmitted(TakeTick(Init(0), 1).0, 0, Majors, W1, 1);
  }

  /** ... and after an earlier receipt of the tick it is issued that receipt's place
      again, for another commitment. */
  lemma GapCollides()
    ensures var o := Submit(Desk(), TakeTick(AfterFirst(), 1).0, SampleBytes(1, Majors, W1), true).1;
            && o.Admitted? && o.receipt.tick == FirstReceipt().tick && o.receipt.pos == FirstReceipt().pos
            && o.receipt.h != FirstReceipt().h
  {
    SamplesDiffer(0, Majors, W1, 1, Majors, W1);
    hide SampleBytes;
    hide SampleHash;
    hide Submit;
    var adm := TakeTick(AfterFirst(), 1).0;
    assert adm.consumed == {Sample(0, Majors, W1).ticket.id} && adm.seen == {SampleHash(0, Majors, W1)};
    assert adm.openTick == 1 && adm.fenceUntil == None && adm.ticks == map[];
    SampleAdmitted(adm, 1, Majors, W1, 1);
  }
}
