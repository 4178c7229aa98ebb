/** What a sequencer cannot do without being convicted: the fraud proofs of
    crates/sequencer/src/fraud.rs against any set of signed messages, honest or not. */
module Accountability {
  import opened Wrappers
  import opened Digests
  import opened Records
  import opened Merkle
  import opened Params
  import opened Admission
  import opened Sequencer
  import opened SequencerLaws
  import opened Transcript
  import opened FraudProofs

  // ----- two records of one tick

  /** Equal but for the signature bytes. */
  predicate SameRecord(a: TickRecord, b: TickRecord) {
    a.(sig := b.sig) == b
  }

  /** Two signed records of one tick convict exactly when they differ. */
  lemma DifferingRecordsConvict(signed: set<Message>, a: TickRecord, b: TickRecord)
    requires RecordVerifies(signed, a) && RecordVerifies(signed, b) && a.epoch == b.epoch && a.tick == b.tick
    ensures Equivocation(signed, a, b) <==> !SameRecord(a, b)
  {}

  /** An accepted tick, without what was checked before it. */
  ghost predicate AcceptedTick(signed: set<Message>, epoch: nat, t: nat, found: Option<SealedTick>) {
    exists before :: CheckTick(signed, epoch, t, found, before).Ok?
  }

  lemma {:induction false} SpanTicks(signed: set<Message>, epoch: nat, store: Store, start: nat, count: nat,
                                     before: Span, t: nat)
    requires CheckSpan(signed, epoch, store, start, count, before).Ok? && start <= t < start + count
    ensures AcceptedTick(signed, epoch, t, store(t))
    decreases count
  {
    hide CheckTick;
    if t > start {
      var first := CheckTick(signed, epoch, start, store(start), before).value;
      SpanTicks(signed, epoch, store, start + 1, count - 1, first, t);
    }
  }

  /** A split view convicts: whoever is shown two accepted histories of one tick, from
      any stores and whatever came before, holds the same batch under the same record
      or a verifying equivocation proof, and never both. */
  lemma SplitViewConvicts(signed: set<Message>, epoch: nat, t: nat, a: Option<SealedTick>, b: Option<SealedTick>)
    requires AcceptedTick(signed, epoch, t, a) && AcceptedTick(signed, epoch, t, b)
    ensures a.Some? && b.Some?
    ensures Equivocation(signed, a.value.record, b.value.record)
            <==> !(SameRecord(a.value.record, b.value.record) && a.value.entries == b.value.entries)
  {
    var before :| CheckTick(signed, epoch, t, a, before).Ok?;
    var before' :| CheckTick(signed, epoch, t, b, before').Ok?;
    TickAccepted(signed, epoch, t, a, before);
    TickAccepted(signed, epoch, t, b, before');
    hide CheckTick;
    DifferingRecordsConvict(signed, a.value.record, b.value.record);
    if SameRecord(a.value.record, b.value.record) {
      NumberedRootsFixEntries(t, a.value.entries, b.value.entries);
    }
  }

  /** The same over spans: two accepted spans of one range agree tick by tick, or some
      tick convicts. */
  lemma SplitHistoriesConvict(signed: set<Message>, epoch: nat, store: Store, store': Store, start: nat, count: nat,
                              before: Span, before': Span)
    requires CheckSpan(signed, epoch, store, start, count, before).Ok?
    requires CheckSpan(signed, epoch, store', start, count, before').Ok?
    ensures forall t | start <= t < start + count :: store(t).Some? && store'(t).Some?
    ensures (exists t :: start <= t < start + count
                         && Equivocation(signed, store(t).value.record, store'(t).value.record))
       <==> !(forall t | start <= t < start + count ::
                && SameRecord(store(t).value.record, store'(t).value.record)
                && store(t).value.entries == store'(t).value.entries)
  {
    forall t | start <= t < start + count
      ensures store(t).Some? && store'(t).Some?
      ensures Equivocation(signed, store(t).value.record, store'(t).value.record)
              <==> !(SameRecord(store(t).value.record, store'(t).value.record)
                     && store(t).value.entries == store'(t).value.entries)
    {
      SpanTicks(signed, epoch, store, start, count, before, t);
      SpanTicks(signed, epoch, store', start, count, before', t);
      SplitViewConvicts(signed, epoch, t, store(t), store'(t));
    }
  }

  // ----- the log

  /** The tick is refused for its link to the log, or not at all. */
  predicate OnlyLinkInDoubt(r: Result<Span, Violation>, t: nat) {
    r.Ok? || r.error == LogChainBroken(t)
  }

  /** A log record convicts with its predecessor exactly when the transcript predicate
      refuses it, after that predecessor, for its link. */
  lemma BrokenLinkConvictsIff(signed: set<Message>, epoch: nat, t: nat, found: Option<SealedTick>, prev: TickRecord,
                              seen: set<Digest>)
    requires RecordVerifies(signed, prev) && prev.epoch == epoch && prev.tick + 1 == t
    requires OnlyLinkInDoubt(CheckTick(signed, epoch, t, found, Span(prev.cT, seen)), t)
    ensures found.Some?
    ensures CheckTick(signed, epoch, t, found, Span(prev.cT, seen)) == Err(LogChainBroken(t))
       <==> InvalidLog(signed, prev, found.value.record)
  {
    hide Root;
    hide CheckEntries;
    hide CheckReceipts;
    if found.Some? {
      EntriesErrors(t, found.value.entries, 0, seen);
      ReceiptsErrors(t, found.value.entries, found.value.receipts, 0);
    }
  }

  /** The entries and receipts loops never report a log violation. */
  lemma {:induction false} EntriesErrors(t: nat, entries: seq<BatchEntry>, i: nat, seen: set<Digest>)
    requires i <= |entries|
    ensures CheckEntries(t, entries, i, seen).Err? ==> !CheckEntries(t, entries, i, seen).error.LogChainBroken?
    decreases |entries| - i
  {
    if i < |entries| {
      EntriesErrors(t, entries, i + 1, seen + {entries[i].h});
    }
  }

  lemma {:induction false} ReceiptsErrors(t: nat, entries: seq<BatchEntry>, receipts: seq<Receipt>, i: nat)
    requires i <= |receipts|
    ensures var r := CheckReceipts(t, entries, receipts, i); r.Err? ==> !r.error.LogChainBroken?
    decreases |receipts| - i
  {
    if i < |receipts| {
      ReceiptsErrors(t, entries, receipts, i + 1);
    }
  }

  /** Tick t of a range after `prev` convicts with the record before it. */
  ghost predicate LinkConvicts(signed: set<Message>, store: Store, prev: TickRecord, t: nat) {
    && t > 0 && store(t).Some?
    && if t - 1 == prev.tick then InvalidLog(signed, prev, store(t).value.record)
       else store(t - 1).Some? && InvalidLog(signed, store(t - 1).value.record, store(t).value.record)
  }

  /** A range of published ticks after a signed record breaks the log, as the transcript
      predicate reports it, only at a tick whose record convicts with the one before;
      and an accepted range convicts nowhere. So a signed range without a verifying
      proof is one commitment chain. */
  lemma {:induction false} ChainUnlessConvicted(signed: set<Message>, epoch: nat, store: Store, prev: TickRecord,
                                                count: nat, seen: set<Digest>)
    requires RecordVerifies(signed, prev) && prev.epoch == epoch
    ensures var r := CheckSpan(signed, epoch, store, prev.tick + 1, count, Span(prev.cT, seen));
            && (r.Err? && r.error.LogChainBroken? ==>
                  prev.tick < r.error.tick && LinkConvicts(signed, store, prev, r.error.tick))
            && (r.Ok? ==> forall t | prev.tick < t <= prev.tick + count :: !LinkConvicts(signed, store, prev, t))
    decreases count
  {
    hide CheckTick;
    hide InvalidLog;
    if count > 0 {
      var t := prev.tick + 1;
      var first := CheckTick(signed, epoch, t, store(t), Span(prev.cT, seen));
      TickErrors(signed, epoch, t, store(t), Span(prev.cT, seen));
      if OnlyLinkInDoubt(first, t) {
        BrokenLinkConvictsIff(signed, epoch, t, store(t), prev, seen);
      }
      if first.Ok? {
        var next := store(t).value.record;
        TickAccepted(signed, epoch, t, store(t), Span(prev.cT, seen));
        hide TickGood;
        ChainUnlessConvicted(signed, epoch, store, next, count - 1, first.value.seen);
        assert forall u | u > t :: LinkConvicts(signed, store, next, u) <==> LinkConvicts(signed, store, prev, u);
      }
    }
  }

  lemma TickErrors(signed: set<Message>, epoch: nat, t: nat, found: Option<SealedTick>, before: Span)
    ensures var r := CheckTick(signed, epoch, t, found, before);
            && (r.Err? && r.error.LogChainBroken? ==> r.error.tick == t)
            && (r.Ok? ==> found.Some? && found.value.record.tick == t && found.value.record.epoch == epoch
                          && RecordVerifies(signed, found.value.record))
  {
    hide Root;
    hide CheckEntries;
    hide CheckReceipts;
    if found.Some? {
      EntriesErrors(t, found.value.entries, 0, before.seen);
      ReceiptsErrors(t, found.value.entries, found.value.receipts, 0);
    }
  }

  // ----- receipts against batches

  /** Against any root, whatever batch is behind it, the entry at a receipt's place
      convicts, with the generated path, exactly when both objects are signed for one
      tick of one epoch and the entry claims the receipt's place for another
      commitment. */
  lemma DisplacedReceiptConvicts(signed: set<Message>, receipt: Receipt, record: TickRecord, entries: seq<BatchEntry>)
    requires record.batchRoot == Root(LeavesOf(entries)) && receipt.pos < |entries|
    ensures var e := entries[receipt.pos];
            Reorder(signed, receipt, record, e, PathFrom(LeavesOf(entries), receipt.pos))
            <==> && ReceiptVerifies(signed, receipt) && RecordVerifies(signed, record)
                 && (receipt.epoch, receipt.tick) == (record.epoch, record.tick)
                 && (e.tick, e.pos) == (receipt.tick, receipt.pos) && e.h != receipt.h
  {
    PathVerifies(LeavesOf(entries), receipt.pos);
    hide Root;
    hide Climb;
  }

  ghost predicate ReorderProvable(signed: set<Message>, receipt: Receipt, record: TickRecord) {
    exists entry, path :: Reorder(signed, receipt, record, entry, path)
  }

  ghost predicate OmissionProvableFrom(signed: set<Message>, receipt: Receipt, record: TickRecord) {
    exists fullBatch :: Omission(signed, receipt, record, fullBatch)
  }

  /** The batch holds the receipt's commitment at the receipt's place. */
  predicate Honoured(entries: seq<BatchEntry>, receipt: Receipt) {
    receipt.pos < |entries| && entries[receipt.pos].h == receipt.h
  }

  /** Receipts are binding: for a verifying receipt of an accepted tick, an omission is
      provable exactly when the batch does not honour it, and a reordering exactly when
      the batch reaches its place and holds something else there. */
  lemma ReceiptBindsBatch(signed: set<Message>, epoch: nat, t: nat, found: Option<SealedTick>, receipt: Receipt)
    requires AcceptedTick(signed, epoch, t, found)
    requires ReceiptVerifies(signed, receipt) && receipt.epoch == epoch && receipt.tick == t
    ensures found.Some?
    ensures OmissionProvableFrom(signed, receipt, found.value.record) <==> !Honoured(found.value.entries, receipt)
    ensures ReorderProvable(signed, receipt, found.value.record)
       <==> receipt.pos < |found.value.entries| && !Honoured(found.value.entries, receipt)
  {
    var before :| CheckTick(signed, epoch, t, found, before).Ok?;
    TickAccepted(signed, epoch, t, found, before);
    hide CheckTick;
    var record, entries := found.value.record, found.value.entries;
    if receipt.pos < |entries| && !Honoured(entries, receipt) {
      DisplacedReceiptConvicts(signed, receipt, record, entries);
    }
    if !Honoured(entries, receipt) {
      assert Omission(signed, receipt, record, entries);
    }
    if entry, path :| Reorder(signed, receipt, record, entry, path) {
      OnlyEntryAtPlace(entries, entry, path);
    }
    if fullBatch :| Omission(signed, receipt, record, fullBatch) {
      OmittedIsNotHonoured(entries, receipt, fullBatch);
    }
  }

  lemma OmittedIsNotHonoured(entries: seq<BatchEntry>, receipt: Receipt, fullBatch: seq<BatchEntry>)
    requires forall i | 0 <= i < |entries| :: entries[i].pos == i
    requires Root(LeavesOf(entries)) == Root(LeavesOf(fullBatch))
    requires !exists i | 0 <= i < |fullBatch| :: fullBatch[i].pos == receipt.pos && fullBatch[i].h == receipt.h
    ensures !Honoured(entries, receipt)
  {
    hide Root;
    forall e | e in entries
      ensures !(e.pos == receipt.pos && e.h == receipt.h)
    {
      SameBatch(entries, fullBatch, e);
      var i :| 0 <= i < |fullBatch| && fullBatch[i] == e;
    }
  }

  /** What verifies at a place of a numbered batch is the entry there. */
  lemma OnlyEntryAtPlace(entries: seq<BatchEntry>, entry: BatchEntry, path: seq<Digest>)
    requires forall i | 0 <= i < |entries| :: entries[i].pos == i
    requires Climb(LeafOf(entry), entry.pos, path) == Root(LeavesOf(entries))
    ensures entry.pos < |entries| && entries[entry.pos] == entry
  {
    VerifyingLeafIsEntry(LeavesOf(entries), LeafOf(entry), entry.pos, path);
    LeafFixesEntry(entries, entry);
  }

  // ----- receipts against each other

  /** Each verifies and names its predecessor's digest. */
  predicate IsLinked(signed: set<Message>, rs: seq<Receipt>) {
    && (forall i | 0 <= i < |rs| :: ReceiptVerifies(signed, rs[i]))
    && forall i | 0 < i < |rs| :: rs[i].dPrev == rs[i - 1].d
  }

  /** Equal in what the digest commits to. */
  predicate SameSlot(q: Receipt, r: Receipt) {
    && q.tick == r.tick && q.pos == r.pos && q.h == r.h && q.bucket == r.bucket && q.ticketId == r.ticketId
    && q.dPrev == r.dPrev && q.d == r.d
  }

  /** A receipt commits to its tick's whole history: linked lists of verifying receipts
      of one length that end in one digest agree in every slot, whoever signed them. */
  lemma {:induction false} LastDigestBindsReceipts(signed: set<Message>, signed': set<Message>, rs: seq<Receipt>,
                                                   rs': seq<Receipt>)
    requires IsLinked(signed, rs) && IsLinked(signed', rs') && |rs| == |rs'| > 0
    requires rs[|rs| - 1].d == rs'[|rs| - 1].d
    ensures forall i | 0 <= i < |rs| :: SameSlot(rs[i], rs'[i])
    decreases |rs|
  {
    var n := |rs| - 1;
    assert ReceiptVerifies(signed, rs[n]) && ReceiptVerifies(signed', rs'[n]);
    if n > 0 {
      LastDigestBindsReceipts(signed, signed', rs[..n], rs'[..n]);
      assert forall i | 0 <= i < n :: rs[..n][i] == rs[i] && rs'[..n][i] == rs'[i];
    }
  }

  // ----- epochs

  /** Everything the sequencer signs as a record or a receipt names its epoch. */
  lemma SignedNamesEpoch(env: Env, s: Sys)
    requires Inv(env, s)
    ensures forall r | RecordVerifies(s.signed, r) :: r.epoch == env.params.epoch
    ensures forall r | ReceiptVerifies(s.signed, r) :: r.epoch == env.params.epoch
  {
    forall r | RecordVerifies(s.signed, r)
      ensures r.epoch == env.params.epoch
    {
      SignedRecord(env, s, r);
      assert SealedFits(env.params.epoch, s.sealed, r.tick - 1);
    }
    forall r | ReceiptVerifies(s.signed, r)
      ensures r.epoch == env.params.epoch
    {
      var issued := SignedReceipt(env, s, r);
    }
  }

  /** Epochs do not mix: one identity that signs two honest runs of different epochs
      convicts by no proof that neither run alone admits. No equivocation, reordering or
      log proof exists over both, and an omission is one of its own epoch's. */
  lemma EpochsDoNotMix(env: Env, events: seq<Event>, env': Env, events': seq<Event>)
    requires Usable(env.params) && Usable(env'.params) && env.params.epoch != env'.params.epoch
    ensures var signed := Run(env, events).signed + Run(env', events').signed;
            && (forall a, b :: !Equivocation(signed, a, b))
            && (forall prev, curr :: !InvalidLog(signed, prev, curr))
            && (forall receipt, record, entry, path :: !Reorder(signed, receipt, record, entry, path))
            && (forall receipt, record, batch | Omission(signed, receipt, record, batch) ::
                  Omission(Run(env, events).signed, receipt, record, batch)
                  || Omission(Run(env', events').signed, receipt, record, batch))
  {
    EveryRunKeepsInv(env, events);
    EveryRunKeepsInv(env', events');
    var s, s' := Run(env, events), Run(env', events');
    SignedNamesEpoch(env, s);
    SignedNamesEpoch(env', s');
    hide Run;
    hide Root;
    hide Climb;
    hide ChainsOk;
    hide BuffersOk;
    hide AccountsOk;
    hide ReceiptsOk;
    forall a, b
      ensures !Equivocation(s.signed + s'.signed, a, b)
    {
      NoEquivocation(env, s, a, b);
      NoEquivocation(env', s', a, b);
    }
    forall prev, curr
      ensures !InvalidLog(s.signed + s'.signed, prev, curr)
    {
      NoInvalidLog(env, s, prev, curr);
      NoInvalidLog(env', s', prev, curr);
    }
    forall receipt, record, entry, path
      ensures !Reorder(s.signed + s'.signed, receipt, record, entry, path)
    {
      NoReorder(env, s, receipt, record, entry, path);
      NoReorder(env', s', receipt, record, entry, path);
    }
  }
}
