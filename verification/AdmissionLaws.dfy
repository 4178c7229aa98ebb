/** Which submissions the sequencer must take, and what it answers to the others
    (crates/sequencer/src/admission.rs:110-235). */
module AdmissionLaws {
  import opened Wrappers
  import opened Digests
  import opened Records
  import opened Params
  import opened Admission

  /** Nothing stands against the envelope in this state. */
  ghost predicate Acceptable(env: Env, s: AdmState, h: Digest, e: Envelope.EnvelopeData) {
    && e.window.len <= env.params.windowTicks && e.window.start <= s.openTick < e.window.start + e.window.len
    && e.delayClass < |env.params.delayClasses|
    && e.ticket.denomination == e.delayClass && e.ticket.bucket == e.bucket && env.ticketValid(e.ticket)
    && e.ticket.id !in s.consumed && h !in s.seen
    && (s.fenceUntil == None || s.fenceUntil.value < e.window.start)
  }

  /** Some tick of the window still to be sealed has room for the bucket. */
  ghost predicate HasRoom(env: Env, s: AdmState, e: Envelope.EnvelopeData) {
    exists t: nat :: s.openTick <= t < e.window.start + e.window.len && Count(s, t, e.bucket) < env.params.capacity
  }

  /** What each refusal says is so. */
  ghost predicate Grounds(env: Env, s: AdmState, h: Digest, e: Envelope.EnvelopeData, stored: bool, why: RejectReason) {
    match why
    case Malformed => e.window.len > env.params.windowTicks || !stored
    case BadDelayClass => e.delayClass >= |env.params.delayClasses|
    case BadTicket =>
      e.ticket.denomination != e.delayClass || e.ticket.bucket != e.bucket || !env.ticketValid(e.ticket)
    case Fenced => s.fenceUntil.Some? && e.window.start <= s.fenceUntil.value
    case WindowNotOpen => s.openTick < e.window.start
    case WindowExpired => s.openTick >= e.window.start + e.window.len
    case TicketConsumed => e.ticket.id in s.consumed
    case Duplicate => h in s.seen
    case WrongSize => false
  }

  lemma ObjectionIff(env: Env, s: AdmState, h: Digest, e: Envelope.EnvelopeData)
    requires Usable(env.params)
    ensures Objection(env, s, h, e).None? <==> Acceptable(env, s, h, e)
    ensures Objection(env, s, h, e).Some? ==> Grounds(env, s, h, e, true, Objection(env, s, h, e).value)
  {}

  lemma RoomIff(env: Env, s: AdmState, e: Envelope.EnvelopeData)
    ensures FirstRoom(s, env.params.capacity, e.bucket, s.openTick, e.window.End()).Some? <==> HasRoom(env, s, e)
  {
    var r := FirstRoom(s, env.params.capacity, e.bucket, s.openTick, e.window.End());
    if r.Some? {
      assert Count(s, r.value, e.bucket) < env.params.capacity;
    }
  }

  /** A well-formed envelope is admitted exactly when nothing stands against it, some
      tick of its window has room and its body could be stored; it is answered with a
      full window exactly when only room is missing; and every other refusal names a
      ground that holds. */
  lemma AnswerToEnvelope(env: Env, s: AdmState, bytes: Bytes, e: Envelope.EnvelopeData, stored: bool)
    requires Usable(env.params) && Envelope.Decode(bytes, env.params.envelopeBytes) == Ok(e)
    ensures var h, o := Commitment(env.params.epoch, bytes), Submit(env, s, bytes, stored).1;
            && (o.Admitted? <==> Acceptable(env, s, h, e) && HasRoom(env, s, e) && stored)
            && (o.FullWindow? <==> Acceptable(env, s, h, e) && !HasRoom(env, s, e))
            && (o.Rejected? ==> o.h == h && o.bucket == e.bucket && o.window == e.window
                                && Grounds(env, s, h, e, stored, o.reason))
            && (o.FullWindow? ==> o.bucket == e.bucket && o.window == e.window && o.capacity == env.params.capacity)
            && (!o.Admitted? ==> o.cLatest == s.cPrev && Submit(env, s, bytes, stored).0 == s)
  {
    var h := Commitment(env.params.epoch, bytes);
    DecodedSize(bytes, env.params.envelopeBytes, e);
    ObjectionIff(env, s, h, e);
    RoomIff(env, s, e);
    hide Envelope.Decode;
    hide Objection;
    hide FirstRoom;
    hide Acceptable;
    hide HasRoom;
    hide Reserve;
  }

  lemma DecodedSize(bytes: Bytes, size: nat, e: Envelope.EnvelopeData)
    requires size >= Envelope.BODY_OFFSET && Envelope.Decode(bytes, size) == Ok(e)
    ensures |bytes| == size
  {}

  /** Bytes that are no envelope are refused for their size or their form, and change
      nothing. */
  lemma AnswerToGarbage(env: Env, s: AdmState, bytes: Bytes, stored: bool)
    requires Usable(env.params) && Envelope.Decode(bytes, env.params.envelopeBytes).Err?
    ensures var (s', o) := Submit(env, s, bytes, stored);
            && s' == s && o.Rejected? && o.h == Commitment(env.params.epoch, bytes) && o.cLatest == s.cPrev
            && o.bucket == Majors && o.window == Window(0, 1)
            && o.reason == if |bytes| != env.params.envelopeBytes then WrongSize else Malformed
  {
    hide Objection;
    hide FirstRoom;
  }

  /** The receipt is for the envelope: it carries its commitment, bucket, window and
      ticket, and the slot is the first tick of the window with room. */
  lemma ReceiptIsForEnvelope(env: Env, s: AdmState, bytes: Bytes, e: Envelope.EnvelopeData, stored: bool)
    requires Usable(env.params) && Envelope.Decode(bytes, env.params.envelopeBytes) == Ok(e)
    requires Submit(env, s, bytes, stored).1.Admitted?
    ensures var (s', o) := Submit(env, s, bytes, stored);
            var r := o.receipt;
            && r.h == Commitment(env.params.epoch, bytes) && r.epoch == env.params.epoch
            && r.bucket == e.bucket && r.window == e.window && r.ticketId == e.ticket.id
            && s.openTick <= r.tick < e.window.start + e.window.len
            && Count(s, r.tick, e.bucket) < env.params.capacity
            && (forall t | s.openTick <= t < r.tick :: Count(s, t, e.bucket) >= env.params.capacity)
            && r.sig == env.sign(ReceiptMessage(r))
            && s'.consumed == s.consumed + {e.ticket.id} && s'.seen == s.seen + {r.h}
  {
    DecodedSize(bytes, env.params.envelopeBytes, e);
    hide Envelope.Decode;
    hide Objection;
  }

  /** An admitted envelope, submitted again, is refused as long as its reservation or
      its batch stands: its ticket is consumed. */
  lemma AdmittedOnce(env: Env, s: AdmState, bytes: Bytes, stored: bool, again: bool)
    requires Usable(env.params) && Submit(env, s, bytes, stored).1.Admitted?
    ensures !Submit(env, Submit(env, s, bytes, stored).0, bytes, again).1.Admitted?
  {
    var d := Envelope.Decode(bytes, env.params.envelopeBytes);
    hide Envelope.Decode;
    if d.Err? {
      AnswerToGarbage(env, s, bytes, stored);
    } else {
      ReceiptIsForEnvelope(env, s, bytes, d.value, stored);
      AnswerToEnvelope(env, Submit(env, s, bytes, stored).0, bytes, d.value, again);
      hide Submit;
    }
  }
}
