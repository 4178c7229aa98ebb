/** The sequencer as one state machine: admission, atomic sealing into signed
    records, fences (crates/sequencer/src/admission.rs, node.rs:263-353). */
module Sequencer {
  import opened Wrappers
  import opened Digests
  import opened Records
  import opened Params
  import opened Admission
  import opened Merkle

  /** What has happened so far. `issued`, `released` and `signed` are history: the
      receipts handed out, those a fence took back, and every signed message. */
  datatype Sys = Sys(adm: AdmState, sealed: seq<SealedTick>, issued: seq<Receipt>, released: set<Receipt>,
                     signed: set<Message>)

  datatype Event =
    | Submission(bytes: Bytes, stored: bool)
    | ClockTick(segment: nat, x: nat)
    | CadenceFault(tick: nat)
    | Recovery

  function Genesis(env: Env): Sys {
    Sys(Init(env.params.epoch), [], [], {}, {})
  }

  function OutcomeMessage(env: Env, o: Outcome): Message {
    match o
    case Admitted(r) => ReceiptMessage(r)
    case Rejected(h, bucket, window, reason, c, _) => RejectionMsg(env.params.epoch, h, bucket, window, reason, c)
    case FullWindow(bucket, window, capacity, c, _) => FullWindowMsg(env.params.epoch, bucket, window, capacity, c)
  }

  /** The log commitment after the given sealed ticks. */
  function LogHead(epoch: nat, sealed: seq<SealedTick>): Digest {
    if sealed == [] then LogGenesis(epoch) else sealed[|sealed| - 1].record.cT
  }

  /** The hash of the clock state after them. */
  function XHead(sealed: seq<SealedTick>): Digest {
    if sealed == [] then Raw(0) else GroupElement(sealed[|sealed| - 1].record.x)
  }

  function BatchOf(entries: seq<PendingEntry>): (es: seq<BatchEntry>)
    ensures |es| == |entries|
  {
    seq(|entries|, i requires 0 <= i < |entries| =>
      BatchEntry(entries[i].tick, entries[i].pos, entries[i].h, entries[i].bucket, entries[i].ticketId,
                 entries[i].receipt.sig))
  }

  function ReceiptsIn(entries: seq<PendingEntry>): (rs: seq<Receipt>)
    ensures |rs| == |entries| && forall i | 0 <= i < |rs| :: rs[i] == entries[i].receipt
  {
    seq(|entries|, i requires 0 <= i < |entries| => entries[i].receipt)
  }

  /** The tick handler's record over a batch. */
  function RecordFor(env: Env, segment: nat, tick: nat, x: nat, cPrev: Digest, batch: seq<BatchEntry>): TickRecord {
    var root := Root(LeavesOf(batch));
    var cT := LogStep(cPrev, tick, root, GroupElement(x));
    TickRecord(env.params.epoch, segment, tick, x, cPrev, cT, root, root,
               env.sign(RecordMsg(env.params.epoch, segment, tick, GroupElement(x), cPrev, cT, root, root)))
  }

  function SealStep(env: Env, s: Sys, segment: nat, x: nat): Sys {
    var tick := |s.sealed| + 1;
    var (adm, entries) := TakeTick(s.adm, tick);
    var record := RecordFor(env, segment, tick, x, LogHead(env.params.epoch, s.sealed), BatchOf(entries));
    s.(adm := AdvanceOpen(adm, tick, GroupElement(x), record.cT),
       sealed := s.sealed + [SealedTick(record, BatchOf(entries), ReceiptsIn(entries))],
       signed := s.signed + {RecordMessage(record)})
  }

  ghost function ReceiptsHit(adm: AdmState, faultTick: nat): set<Receipt> {
    set e | e in Hit(adm, faultTick) :: e.receipt
  }

  ghost function Step(env: Env, s: Sys, ev: Event): Sys
    requires Usable(env.params)
  {
    match ev
    case Submission(bytes, stored) =>
      var (adm, o) := Submit(env, s.adm, bytes, stored);
      s.(adm := adm, signed := s.signed + {OutcomeMessage(env, o)},
         issued := if o.Admitted? then s.issued + [o.receipt] else s.issued)
    case ClockTick(segment, x) => SealStep(env, s, segment, x)
    case CadenceFault(tick) => s.(adm := Fence(s.adm, tick), released := s.released + ReceiptsHit(s.adm, tick))
    case Recovery => s.(adm := s.adm.(fenceUntil := None))
  }

  ghost function Run(env: Env, events: seq<Event>): Sys
    requires Usable(env.params)
    decreases |events|
  {
    if events == [] then Genesis(env) else Step(env, Run(env, events[..|events| - 1]), events[|events| - 1])
  }

  // ----- receipts of a tick

  /** The receipts issued for tick t, in order of issue. */
  function IssuedAt(rs: seq<Receipt>, t: nat): seq<Receipt> {
    if rs == [] then []
    else
      var last := rs[|rs| - 1];
      IssuedAt(rs[..|rs| - 1], t) + if last.tick == t then [last] else []
  }

  /** Those not released by a fence. */
  ghost function Live(rs: seq<Receipt>, released: set<Receipt>): seq<Receipt> {
    if rs == [] then []
    else
      var last := rs[|rs| - 1];
      Live(rs[..|rs| - 1], released) + if last in released then [] else [last]
  }

  lemma {:induction false} IssuedAtMembers(rs: seq<Receipt>, t: nat)
    ensures forall r :: r in IssuedAt(rs, t) <==> r in rs && r.tick == t
  {
    if rs != [] {
      IssuedAtMembers(rs[..|rs| - 1], t);
      assert rs == rs[..|rs| - 1] + [rs[|rs| - 1]];
    }
  }

  lemma {:induction false} LiveMembers(rs: seq<Receipt>, released: set<Receipt>)
    ensures forall r :: r in Live(rs, released) <==> r in rs && r !in released
  {
    if rs != [] {
      LiveMembers(rs[..|rs| - 1], released);
      assert rs == rs[..|rs| - 1] + [rs[|rs| - 1]];
    }
  }

  lemma LiveAt(rs: seq<Receipt>, released: set<Receipt>, i: nat) returns (r: Receipt)
    requires i < |Live(rs, released)|
    ensures r == Live(rs, released)[i] && r in rs && r !in released
  {
    r := Live(rs, released)[i];
    LiveMembers(rs, released);
    assert r in Live(rs, released);
  }

  lemma {:induction false} LiveAgree(rs: seq<Receipt>, a: set<Receipt>, b: set<Receipt>)
    requires forall r | r in rs :: r in a <==> r in b
    ensures Live(rs, a) == Live(rs, b)
  {
    if rs != [] {
      LiveAgree(rs[..|rs| - 1], a, b);
    }
  }

  lemma IssuedAppend(rs: seq<Receipt>, r: Receipt, t: nat)
    ensures IssuedAt(rs + [r], t) == IssuedAt(rs, t) + if r.tick == t then [r] else []
  {
    assert (rs + [r])[..|rs|] == rs;
  }

  lemma LiveAppend(rs: seq<Receipt>, r: Receipt, released: set<Receipt>)
    ensures Live(rs + [r], released) == Live(rs, released) + if r in released then [] else [r]
  {
    assert (rs + [r])[..|rs|] == rs;
  }

  // ----- the invariant

  /** The receipts issued for a tick are numbered from zero and form one digest
      chain from the tick's genesis. */
  ghost predicate Chained(epoch: nat, t: nat, rs: seq<Receipt>) {
    forall i | 0 <= i < |rs| :: Linked(epoch, t, rs, i)
  }

  ghost predicate Linked(epoch: nat, t: nat, rs: seq<Receipt>, i: nat)
    requires i < |rs|
  {
    var r := rs[i];
    && r.epoch == epoch && r.tick == t && r.pos == i
    && r.dPrev == (if i == 0 then DigestGenesis(epoch, t) else rs[i - 1].d)
    && r.d == DigestStep(r.dPrev, t, i, r.h, r.bucket, r.ticketId)
  }

  predicate EntryFits(e: PendingEntry) {
    var r := e.receipt;
    e.tick == r.tick && e.pos == r.pos && e.h == r.h && e.bucket == r.bucket && e.ticketId == r.ticketId
  }

  /** A buffer continues its tick's chain and holds the unreleased receipts. */
  ghost predicate BufferFits(b: TickBuffer, rs: seq<Receipt>, released: set<Receipt>) {
    && b.nextPos == |rs|
    && b.dLast == (if rs == [] then None else Some(rs[|rs| - 1].d))
    && ReceiptsIn(b.entries) == Live(rs, released)
    && forall i | 0 <= i < |b.entries| :: EntryFits(b.entries[i])
  }

  ghost predicate SealedFits(epoch: nat, sealed: seq<SealedTick>, i: nat)
    requires i < |sealed|
  {
    var r := sealed[i].record;
    && r.epoch == epoch && r.tick == i + 1
    && r.cPrev == LogHead(epoch, sealed[..i])
    && r.batchRoot == Root(LeavesOf(sealed[i].entries)) && r.daRef == r.batchRoot
    && r.cT == LogStep(r.cPrev, r.tick, r.batchRoot, GroupElement(r.x))
  }

  /** The log: consecutive ticks, one commitment chain, signed roots of the batches. */
  ghost predicate LogOk(env: Env, s: Sys) {
    && s.adm.openTick == |s.sealed| + 1
    && s.adm.cPrev == LogHead(env.params.epoch, s.sealed) && s.adm.xPrevHash == XHead(s.sealed)
    && (forall t | t in s.adm.ticks :: t >= s.adm.openTick)
    && forall i | 0 <= i < |s.sealed| :: SealedFits(env.params.epoch, s.sealed, i)
  }

  ghost predicate ChainsOk(env: Env, s: Sys) {
    forall t: nat :: Chained(env.params.epoch, t, IssuedAt(s.issued, t))
  }

  ghost predicate BuffersOk(s: Sys) {
    forall t: nat | t >= s.adm.openTick :: BufferFits(BufferAt(s.adm, t), IssuedAt(s.issued, t), s.released)
  }

  /** A sealed batch is exactly the tick's unreleased receipts, in chain order. */
  ghost predicate BatchesOk(s: Sys) {
    forall i | 0 <= i < |s.sealed| :: BatchFits(s.sealed[i], IssuedAt(s.issued, i + 1), s.released)
  }

  ghost predicate BatchFits(sealed: SealedTick, rs: seq<Receipt>, released: set<Receipt>) {
    sealed.receipts == Live(rs, released) && sealed.entries == EntriesOf(sealed.receipts)
  }

  ghost function LiveTickets(s: Sys): set<TicketId> {
    set r | r in s.issued && r !in s.released :: r.ticketId
  }

  ghost function LiveCommitments(s: Sys): set<Digest> {
    set r | r in s.issued && r !in s.released :: r.h
  }

  /** A ticket or a commitment backs at most one unreleased receipt, and the
      consumed sets are exactly those of the unreleased receipts. */
  ghost predicate AccountsOk(s: Sys) {
    && s.adm.consumed == LiveTickets(s) && s.adm.seen == LiveCommitments(s)
    && (forall q, r | q in s.issued && r in s.issued && q !in s.released && r !in s.released && q != r ::
          q.ticketId != r.ticketId && q.h != r.h)
  }

  /** The receipt names the log and clock state after k ticks, all before its own. */
  ghost predicate BoundAt(env: Env, sealed: seq<SealedTick>, r: Receipt, k: nat) {
    && k <= |sealed| && k < r.tick
    && r.cPrev == LogHead(env.params.epoch, sealed[..k]) && r.xPrevHash == XHead(sealed[..k])
  }

  ghost predicate Bound(env: Env, sealed: seq<SealedTick>, r: Receipt) {
    exists k: nat :: BoundAt(env, sealed, r, k)
  }

  /** Released receipts were issued; every receipt is bound to a sealed state before
      its tick, which lies in its window, no longer than the profile's. */
  ghost predicate ReceiptsOk(env: Env, s: Sys) {
    && (forall r | r in s.released :: r in s.issued)
    && forall r | r in s.issued ::
         && 0 < r.tick && r.window.start <= r.tick < r.window.start + r.window.len
         && r.window.len <= env.params.windowTicks
         && r.epoch == env.params.epoch && Bound(env, s.sealed, r)
  }

  /** The sequencer signs receipts it issues and records it seals, and no others. */
  ghost predicate SignedOk(s: Sys) {
    && (forall m | m in s.signed && m.ReceiptMsg? :: exists r :: r in s.issued && ReceiptMessage(r) == m)
    && (forall m | m in s.signed && m.RecordMsg? :: exists i ::
        0 <= i < |s.sealed| && RecordMessage(s.sealed[i].record) == m)
    && (forall r | r in s.issued :: ReceiptMessage(r) in s.signed)
    && (forall i | 0 <= i < |s.sealed| :: RecordMessage(s.sealed[i].record) in s.signed)
  }

  ghost predicate Inv(env: Env, s: Sys) {
    && LogOk(env, s) && ChainsOk(env, s) && BuffersOk(s) && BatchesOk(s) && AccountsOk(s) && ReceiptsOk(env, s)
    && SignedOk(s)
  }

  // ----- submissions

  /** What an admitted receipt meets in the state that issued it. */
  ghost predicate Fresh(env: Env, adm: AdmState, r: Receipt) {
    var b := BufferAt(adm, r.tick);
    && r.epoch == env.params.epoch && r.window.start <= adm.openTick <= r.tick <= r.window.End()
    && r.window.len <= env.params.windowTicks && (adm.fenceUntil.Some? ==> r.window.start > adm.fenceUntil.value)
    && r.pos == b.nextPos && r.cPrev == adm.cPrev && r.xPrevHash == adm.xPrevHash
    && r.dPrev == (if b.dLast.Some? then b.dLast.value else DigestGenesis(env.params.epoch, r.tick))
    && r.d == DigestStep(r.dPrev, r.tick, r.pos, r.h, r.bucket, r.ticketId)
    && r.ticketId !in adm.consumed && r.h !in adm.seen
    && Count(adm, r.tick, r.bucket) < env.params.capacity
    && forall u: nat | adm.openTick <= u < r.tick :: Count(adm, u, r.bucket) >= env.params.capacity
  }

  /** A submission either changes nothing or reserves a fresh slot. */
  lemma SubmitCases(env: Env, adm: AdmState, bytes: Bytes, stored: bool) returns (delayClass: nat)
    requires Usable(env.params)
    ensures var (adm', o) := Submit(env, adm, bytes, stored);
            if o.Admitted? then Fresh(env, adm, o.receipt) && adm' == Reserve(adm, o.receipt, delayClass)
              else adm' == adm
  {
    hide Envelope.Decode;
    delayClass := 0;
    if |bytes| == env.params.envelopeBytes {
      var d := Envelope.Decode(bytes, env.params.envelopeBytes);
      if d.Ok? {
        delayClass := d.value.delayClass;
      }
    }
  }

  /** A receipt is never issued twice, so no earlier receipt has its place. */
  lemma NewPlace(env: Env, s: Sys, r: Receipt)
    requires ChainsOk(env, s) && BuffersOk(s) && Fresh(env, s.adm, r)
    ensures r !in s.issued && forall q | q in s.issued :: q.tick != r.tick || q.pos < r.pos
  {
    var rs := IssuedAt(s.issued, r.tick);
    IssuedAtMembers(s.issued, r.tick);
    assert BufferFits(BufferAt(s.adm, r.tick), rs, s.released);
    assert Chained(env.params.epoch, r.tick, rs);
    forall q | q in s.issued && q.tick == r.tick
      ensures q.pos < r.pos
    {
      assert q in rs;
      var i :| 0 <= i < |rs| && rs[i] == q;
      assert Linked(env.params.epoch, r.tick, rs, i);
    }
  }
}
