/** Admission: windows, deterministic (tick, pos) assignment, tickets, fences
    (crates/sequencer/src/admission.rs). */
module Admission {
  import opened Wrappers
  import opened Digests
  import opened Records
  import opened Params
  import Envelope

  /** What the sequencer's surroundings decide: whether a ticket carries the
      issuer's signature, and the bytes of its own signatures. */
  datatype Env = Env(params: PosqParams, ticketValid: Envelope.Ticket -> bool, sign: Message -> Sig)

  datatype PendingEntry = PendingEntry(tick: nat, pos: nat, h: Digest, bucket: Bucket, delayClass: nat,
                                       ticketId: TicketId, receipt: Receipt)

  datatype TickBuffer = TickBuffer(nextPos: nat, dLast: Option<Digest>, counts: map<Bucket, nat>,
                                   entries: seq<PendingEntry>)

  datatype AdmState = AdmState(
    openTick: nat, xPrevHash: Digest, cPrev: Digest, ticks: map<nat, TickBuffer>,
    consumed: set<TicketId>, seen: set<Digest>, fenceUntil: Option<nat>)

  datatype Outcome =
    | Admitted(receipt: Receipt)
    | Rejected(h: Digest, bucket: Bucket, window: Window, reason: RejectReason, cLatest: Digest, sig: Sig)
    | FullWindow(bucket: Bucket, window: Window, capacity: nat, cLatest: Digest, sig: Sig)

  const NO_BUFFER: TickBuffer := TickBuffer(0, None, map[], [])

  function Init(epoch: nat): AdmState {
    AdmState(1, Raw(0), LogGenesis(epoch), map[], {}, {}, None)
  }

  function BufferAt(s: AdmState, t: nat): TickBuffer {
    if t in s.ticks then s.ticks[t] else NO_BUFFER
  }

  function CountIn(b: TickBuffer, bucket: Bucket): nat {
    if bucket in b.counts then b.counts[bucket] else 0
  }

  function Count(s: AdmState, t: nat, bucket: Bucket): nat {
    CountIn(BufferAt(s, t), bucket)
  }

  /** The earliest tick from t to the window's end with room for the bucket. */
  function FirstRoom(s: AdmState, capacity: nat, bucket: Bucket, t: nat, end: int): (r: Option<nat>)
    ensures r.Some? ==> t <= r.value <= end && Count(s, r.value, bucket) < capacity
    ensures r.Some? ==> forall u | t <= u < r.value :: Count(s, u, bucket) >= capacity
    ensures r.None? ==> forall u | t <= u <= end :: Count(s, u, bucket) >= capacity
    decreases end - t
  {
    if t > end then None
    else if Count(s, t, bucket) < capacity then Some(t)
    else FirstRoom(s, capacity, bucket, t + 1, end)
  }

  /** The checks before capacity, in the order they are made. */
  function Objection(env: Env, s: AdmState, h: Digest, e: Envelope.EnvelopeData): Option<RejectReason>
    requires Usable(env.params)
  {
    var w := e.window;
    if w.len > env.params.windowTicks then Some(Malformed)
    else if DelayTicks(env.params, e.delayClass).None? then Some(BadDelayClass)
    else if e.ticket.denomination != e.delayClass || e.ticket.bucket != e.bucket || !env.ticketValid(e.ticket)
    then Some(BadTicket)
    else if s.fenceUntil.Some? && w.start <= s.fenceUntil.value then Some(Fenced)
    else if s.openTick < w.start then Some(WindowNotOpen)
    else if s.openTick > w.End() then Some(WindowExpired)
    else if e.ticket.id in s.consumed then Some(TicketConsumed)
    else if h in s.seen then Some(Duplicate)
    else None
  }

  function Reject(env: Env, s: AdmState, h: Digest, bucket: Bucket, window: Window, reason: RejectReason): Outcome {
    Rejected(h, bucket, window, reason, s.cPrev,
             env.sign(RejectionMsg(env.params.epoch, h, bucket, window, reason, s.cPrev)))
  }

  function ReceiptFor(env: Env, s: AdmState, h: Digest, e: Envelope.EnvelopeData, t: nat): Receipt {
    var b := BufferAt(s, t);
    var dPrev := if b.dLast.Some? then b.dLast.value else DigestGenesis(env.params.epoch, t);
    var d := DigestStep(dPrev, t, b.nextPos, h, e.bucket, e.ticket.id);
    Receipt(env.params.epoch, t, b.nextPos, h, e.bucket, e.window, e.ticket.id, s.xPrevHash, s.cPrev, dPrev, d,
            env.sign(ReceiptMsg(env.params.epoch, t, b.nextPos, h, e.bucket, e.window, e.ticket.id, s.xPrevHash,
                                s.cPrev, dPrev, d)))
  }

  /** Reserve a slot for a receipt. */
  function Reserve(s: AdmState, r: Receipt, delayClass: nat): AdmState {
    var b := BufferAt(s, r.tick);
    var b' := TickBuffer(b.nextPos + 1, Some(r.d), b.counts[r.bucket := CountIn(b, r.bucket) + 1],
                         b.entries + [PendingEntry(r.tick, r.pos, r.h, r.bucket, delayClass, r.ticketId, r)]);
    s.(ticks := s.ticks[r.tick := b'], consumed := s.consumed + {r.ticketId}, seen := s.seen + {r.h})
  }

  /** `submit`. `stored` says whether the envelope body could be persisted. */
  function Submit(env: Env, s: AdmState, bytes: Bytes, stored: bool): (AdmState, Outcome)
    requires Usable(env.params)
  {
    var h := Commitment(env.params.epoch, bytes);
    if |bytes| != env.params.envelopeBytes then (s, Reject(env, s, h, Majors, Window(0, 1), WrongSize))
    else
      var decoded := Envelope.Decode(bytes, env.params.envelopeBytes);
      if decoded.Err? then (s, Reject(env, s, h, Majors, Window(0, 1), Malformed))
      else SubmitDecoded(env, s, h, decoded.value, stored)
  }

  function SubmitDecoded(env: Env, s: AdmState, h: Digest, e: Envelope.EnvelopeData, stored: bool): (AdmState, Outcome)
    requires Usable(env.params)
  {
    var objection := Objection(env, s, h, e);
    if objection.Some? then (s, Reject(env, s, h, e.bucket, e.window, objection.value))
    else
      var room := FirstRoom(s, env.params.capacity, e.bucket, s.openTick, e.window.End());
      if room.None? then
        (s, FullWindow(e.bucket, e.window, env.params.capacity, s.cPrev,
                       env.sign(FullWindowMsg(env.params.epoch, e.bucket, e.window, env.params.capacity, s.cPrev))))
      else if !stored then (s, Reject(env, s, h, e.bucket, e.window, Malformed))
      else
        var r := ReceiptFor(env, s, h, e, room.value);
        (Reserve(s, r, e.delayClass), Admitted(r))
  }

  function TakeTick(s: AdmState, t: nat): (AdmState, seq<PendingEntry>) {
    (s.(ticks := s.ticks - {t}), BufferAt(s, t).entries)
  }

  function AdvanceOpen(s: AdmState, t: nat, xHash: Digest, cT: Digest): AdmState {
    s.(openTick := t + 1, xPrevHash := xHash, cPrev := cT)
  }

  function Overlaps(w: Window, tick: nat): bool {
    w.start <= tick <= w.End()
  }

  function Retain(entries: seq<PendingEntry>, faultTick: nat): seq<PendingEntry> {
    if entries == [] then []
    else
      var last := entries[|entries| - 1];
      Retain(entries[..|entries| - 1], faultTick) + if Overlaps(last.receipt.window, faultTick) then [] else [last]
  }

  /** The reservations a fence at `faultTick` releases from one buffer. */
  ghost function HitAt(b: TickBuffer, faultTick: nat): set<PendingEntry> {
    set e | e in b.entries && Overlaps(e.receipt.window, faultTick)
  }

  /** The reservations a fence at `faultTick` releases from the given ticks. */
  ghost function HitIn(s: AdmState, ticks: set<nat>, faultTick: nat): set<PendingEntry> {
    set t, e | t in ticks && t in s.ticks && e in s.ticks[t].entries && Overlaps(e.receipt.window, faultTick) :: e
  }

  ghost function Hit(s: AdmState, faultTick: nat): set<PendingEntry> {
    HitIn(s, s.ticks.Keys, faultTick)
  }

  ghost function TicketsOf(es: set<PendingEntry>): set<TicketId> {
    set e | e in es :: e.ticketId
  }

  ghost function CommitmentsOf(es: set<PendingEntry>): set<Digest> {
    set e | e in es :: e.h
  }

  /** The fence applied to the buffers of some ticks. */
  ghost function FenceTicks(s: AdmState, ticks: set<nat>, faultTick: nat): AdmState {
    var until := if s.fenceUntil.Some? && s.fenceUntil.value > faultTick then s.fenceUntil.value else faultTick;
    s.(fenceUntil := Some(until),
       ticks := map t | t in s.ticks ::
                  if t in ticks then s.ticks[t].(entries := Retain(s.ticks[t].entries, faultTick)) else s.ticks[t],
       consumed := s.consumed - TicketsOf(HitIn(s, ticks, faultTick)),
       seen := s.seen - CommitmentsOf(HitIn(s, ticks, faultTick)))
  }

  ghost function Fence(s: AdmState, faultTick: nat): AdmState {
    FenceTicks(s, s.ticks.Keys, faultTick)
  }

  lemma FenceStep(s: AdmState, done: set<nat>, faultTick: nat, t: nat)
    requires t in s.ticks && t !in done
    ensures var now, next := FenceTicks(s, done, faultTick), FenceTicks(s, done + {t}, faultTick);
            var hit := HitAt(s.ticks[t], faultTick);
            && now.ticks[t] == s.ticks[t]
            && next == now.(ticks := now.ticks[t := now.ticks[t].(entries := Retain(now.ticks[t].entries, faultTick))],
                            consumed := now.consumed - TicketsOf(hit), seen := now.seen - CommitmentsOf(hit))
            && CommitmentsOf(HitIn(s, done + {t}, faultTick))
               == CommitmentsOf(HitIn(s, done, faultTick)) + CommitmentsOf(hit)
  {
    assert HitIn(s, done + {t}, faultTick) == HitIn(s, done, faultTick) + HitAt(s.ticks[t], faultTick);
  }

  lemma FenceNone(s: AdmState, faultTick: nat)
    ensures var none := FenceTicks(s, {}, faultTick);
            var until := if s.fenceUntil.Some? && s.fenceUntil.value > faultTick then s.fenceUntil.value else faultTick;
            && none == s.(fenceUntil := Some(until))
            && CommitmentsOf(HitIn(s, {}, faultTick)) == {}
  {}

  // ----- the class

  class AdmissionDesk {
    const env: Env
    var openTick: nat
    var xPrevHash: Digest
    var cPrev: Digest
    var ticks: map<nat, TickBuffer>
    var consumed: set<TicketId>
    var seen: set<Digest>
    var fenceUntil: Option<nat>

    constructor (env: Env)
      ensures this.env == env && State() == Init(env.params.epoch)
    {
      this.env := env;
      openTick, xPrevHash, cPrev := 1, Raw(0), LogGenesis(env.params.epoch);
      ticks, consumed, seen, fenceUntil := map[], {}, {}, None;
    }

    function State(): AdmState
      reads this
    {
      AdmState(openTick, xPrevHash, cPrev, ticks, consumed, seen, fenceUntil)
    }

    method SubmitEnvelope(bytes: Bytes, stored: bool) returns (outcome: Outcome)
      requires Usable(env.params)
      modifies this
      ensures (State(), outcome) == Submit(env, old(State()), bytes, stored)
    {
      hide Envelope.Decode;
      var h := Commitment(env.params.epoch, bytes);
      if |bytes| != env.params.envelopeBytes {
        return Reject(env, State(), h, Majors, Window(0, 1), WrongSize);
      }
      var decoded := Envelope.Decode(bytes, env.params.envelopeBytes);
      if decoded.Err? {
        return Reject(env, State(), h, Majors, Window(0, 1), Malformed);
      }
      outcome := SubmitParsed(h, decoded.value, stored);
    }

    /** The flow after the visible surface is parsed. */
    method SubmitParsed(h: Digest, e: Envelope.EnvelopeData, stored: bool) returns (outcome: Outcome)
      requires Usable(env.params)
      modifies this
      ensures (State(), outcome) == SubmitDecoded(env, old(State()), h, e, stored)
    {
      var objection := Object(h, e);
      if objection.Some? {
        return Reject(env, State(), h, e.bucket, e.window, objection.value);
      }
      var cap := env.params.capacity;
      var room := SearchRoom(e.bucket, e.window.End());
      if room.None? {
        return FullWindow(e.bucket, e.window, cap, cPrev,
                          env.sign(FullWindowMsg(env.params.epoch, e.bucket, e.window, cap, cPrev)));
      }
      if !stored {
        return Reject(env, State(), h, e.bucket, e.window, Malformed);
      }
      var t := room.value;
      var b := BufferAt(State(), t);
      var r := ReceiptFor(env, State(), h, e, t);
      var entry := PendingEntry(t, b.nextPos, h, e.bucket, e.delayClass, e.ticket.id, r);
      ticks := ticks[t := TickBuffer(b.nextPos + 1, Some(r.d), b.counts[e.bucket := CountIn(b, e.bucket) + 1],
                                     b.entries + [entry])];
      consumed := consumed + {e.ticket.id};
      seen := seen + {h};
      outcome := Admitted(r);
    }

    method Object(h: Digest, e: Envelope.EnvelopeData) returns (r: Option<RejectReason>)
      requires Usable(env.params)
      ensures r == Objection(env, State(), h, e)
    {
      var w := e.window;
      if w.len > env.params.windowTicks {
        return Some(Malformed);
      }
      if DelayTicks(env.params, e.delayClass).None? {
        return Some(BadDelayClass);
      }
      if e.ticket.denomination != e.delayClass || e.ticket.bucket != e.bucket || !env.ticketValid(e.ticket) {
        return Some(BadTicket);
      }
      if fenceUntil.Some? && w.start <= fenceUntil.value {
        return Some(Fenced);
      }
      if openTick < w.start {
        return Some(WindowNotOpen);
      }
      if openTick > w.End() {
        return Some(WindowExpired);
      }
      if e.ticket.id in consumed {
        return Some(TicketConsumed);
      }
      if h in seen {
        return Some(Duplicate);
      }
      r := None;
    }

    method SearchRoom(bucket: Bucket, end: int) returns (r: Option<nat>)
      ensures r == FirstRoom(State(), env.params.capacity, bucket, openTick, end)
    {
      var t := openTick;
      while t <= end
        invariant FirstRoom(State(), env.params.capacity, bucket, openTick, end)
                  == FirstRoom(State(), env.params.capacity, bucket, t, end)
        decreases end - t
      {
        if Count(State(), t, bucket) < env.params.capacity {
          return Some(t);
        }
        t := t + 1;
      }
      r := None;
    }

    method Take(t: nat) returns (entries: seq<PendingEntry>)
      modifies this`ticks
      ensures (State(), entries) == TakeTick(old(State()), t)
    {
      entries := if t in ticks then ticks[t].entries else [];
      ticks := ticks - {t};
    }

    method Advance(t: nat, xHash: Digest, cT: Digest)
      modifies this`openTick, this`xPrevHash, this`cPrev
      ensures State() == AdvanceOpen(old(State()), t, xHash, cT)
    {
      openTick := t + 1;
      xPrevHash := xHash;
      cPrev := cT;
    }

    /** `seal_tick` */
    method Seal(t: nat, xHash: Digest, cT: Digest) returns (entries: seq<PendingEntry>)
      modifies this
      ensures var (s, taken) := TakeTick(old(State()), t);
              State() == AdvanceOpen(s, t, xHash, cT) && entries == taken
    {
      entries := Take(t);
      Advance(t, xHash, cT);
    }

    method FenceAt(faultTick: nat) returns (released: set<Digest>)
      modifies this
      ensures State() == Fence(old(State()), faultTick)
      ensures released == CommitmentsOf(Hit(old(State()), faultTick))
    {
      hide FenceTicks;
      hide HitIn;
      hide HitAt;
      hide CommitmentsOf;
      hide TicketsOf;
      ghost var start := State();
      fenceUntil := Some(if fenceUntil.Some? && fenceUntil.value > faultTick then fenceUntil.value else faultTick);
      released := {};
      var todo := ticks.Keys;
      ghost var done: set<nat> := {};
      FenceNone(start, faultTick);
      while todo != {}
        invariant done + todo == start.ticks.Keys && done !! todo
        invariant State() == FenceTicks(start, done, faultTick) && ticks.Keys == start.ticks.Keys
        invariant released == CommitmentsOf(HitIn(start, done, faultTick))
        decreases todo
      {
        var t :| t in todo;
        FenceStep(start, done, faultTick, t);
        var freed := FenceBuffer(t, faultTick);
        released := released + freed;
        todo := todo - {t};
        done := done + {t};
      }
      assert done == start.ticks.Keys;
    }

    method FenceBuffer(t: nat, faultTick: nat) returns (freed: set<Digest>)
      requires t in ticks
      modifies this`ticks, this`consumed, this`seen
      ensures ticks == old(ticks)[t := old(ticks[t]).(entries := Retain(old(ticks[t].entries), faultTick))]
      ensures consumed == old(consumed) - TicketsOf(HitAt(old(ticks[t]), faultTick))
      ensures freed == CommitmentsOf(HitAt(old(ticks[t]), faultTick)) && seen == old(seen) - freed
    {
      var kept, hit := RetainEntries(ticks[t].entries, faultTick);
      ticks := ticks[t := ticks[t].(entries := kept)];
      consumed := consumed - (set e | e in hit :: e.ticketId);
      freed := set e | e in hit :: e.h;
      seen := seen - freed;
    }

    method RetainEntries(entries: seq<PendingEntry>, faultTick: nat)
      returns (kept: seq<PendingEntry>, hit: set<PendingEntry>)
      ensures kept == Retain(entries, faultTick)
      ensures hit == set e | e in entries && Overlaps(e.receipt.window, faultTick)
    {
      kept, hit := [], {};
      for i := 0 to |entries|
        invariant kept == Retain(entries[..i], faultTick)
        invariant hit == set e | e in entries[..i] && Overlaps(e.receipt.window, faultTick)
      {
        assert entries[..i + 1][..i] == entries[..i];
        if Overlaps(entries[i].receipt.window, faultTick) {
          hit := hit + {entries[i]};
        } else {
          kept := kept + [entries[i]];
        }
      }
      assert entries[..|entries|] == entries;
    }

    method LiftFence()
      modifies this`fenceUntil
      ensures State() == old(State()).(fenceUntil := None)
    {
      fenceUntil := None;
    }
  }
}
