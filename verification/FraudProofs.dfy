/** The four fraud proofs (crates/sequencer/src/fraud.rs), and what an honest
    run of the sequencer exposes itself to. */
module FraudProofs {
  import opened Digests
  import opened Records
  import opened Params
  import opened Admission
  import opened Merkle
  import opened Sequencer
  import opened SequencerLaws

  /** Content hashes are equal exactly when the messages are. */
  predicate Equivocation(signed: set<Message>, a: TickRecord, b: TickRecord) {
    && a.epoch == b.epoch && a.tick == b.tick && RecordMessage(a) != RecordMessage(b)
    && RecordVerifies(signed, a) && RecordVerifies(signed, b)
  }

  predicate Reorder(signed: set<Message>, receipt: Receipt, record: TickRecord, entry: BatchEntry, path: seq<Digest>) {
    && receipt.epoch == record.epoch && receipt.tick == record.tick
    && ReceiptVerifies(signed, receipt) && RecordVerifies(signed, record)
    && entry.tick == receipt.tick && entry.pos == receipt.pos && entry.h != receipt.h
    && Climb(LeafOf(entry), entry.pos, path) == record.batchRoot
  }

  predicate Omission(signed: set<Message>, receipt: Receipt, record: TickRecord, fullBatch: seq<BatchEntry>) {
    && receipt.epoch == record.epoch && receipt.tick == record.tick
    && ReceiptVerifies(signed, receipt) && RecordVerifies(signed, record)
    && Root(LeavesOf(fullBatch)) == record.batchRoot
    && !exists i | 0 <= i < |fullBatch| :: fullBatch[i].pos == receipt.pos && fullBatch[i].h == receipt.h
  }

  predicate InvalidLog(signed: set<Message>, prev: TickRecord, curr: TickRecord) {
    && prev.epoch == curr.epoch && curr.tick == prev.tick + 1
    && RecordVerifies(signed, prev) && RecordVerifies(signed, curr)
    && (curr.cPrev != prev.cT || curr.cT != LogStep(curr.cPrev, curr.tick, curr.batchRoot, GroupElement(curr.x)))
  }

  // ----- what signed objects look like

  /** A verifying record is one of the sealed ones. */
  lemma SignedRecord(env: Env, s: Sys, r: TickRecord)
    requires LogOk(env, s) && SignedOk(s) && RecordVerifies(s.signed, r)
    ensures 1 <= r.tick <= |s.sealed| && RecordMessage(r) == RecordMessage(s.sealed[r.tick - 1].record)
  {
    var i :| 0 <= i < |s.sealed| && RecordMessage(s.sealed[i].record) == RecordMessage(r);
    assert SealedFits(env.params.epoch, s.sealed, i);
  }

  /** A verifying receipt is an issued one, up to its signature bytes. */
  lemma SignedReceipt(env: Env, s: Sys, r: Receipt) returns (issued: Receipt)
    requires SignedOk(s) && ReceiptVerifies(s.signed, r)
    ensures issued in s.issued && r == issued.(sig := r.sig)
  {
    issued :| issued in s.issued && ReceiptMessage(issued) == ReceiptMessage(r);
  }

  /** The receipt issued at a place is unique. */
  lemma PlaceFixesReceipt(env: Env, s: Sys, q: Receipt, r: Receipt)
    requires ChainsOk(env, s) && q in s.issued && r in s.issued && q.tick == r.tick && q.pos == r.pos
    ensures q == r
  {
    var rs := IssuedAt(s.issued, r.tick);
    IssuedAtMembers(s.issued, r.tick);
    var i :| 0 <= i < |rs| && rs[i] == q;
    var j :| 0 <= j < |rs| && rs[j] == r;
    assert Chained(env.params.epoch, r.tick, rs);
    assert Linked(env.params.epoch, r.tick, rs, i) && Linked(env.params.epoch, r.tick, rs, j);
  }

  /** The batch of a sealed tick: the entries of its unreleased receipts. */
  lemma SealedEntry(s: Sys, t: nat, e: BatchEntry)
    requires BatchesOk(s) && 1 <= t <= |s.sealed|
    ensures e in s.sealed[t - 1].entries
            <==> exists r :: r in s.issued && r !in s.released && r.tick == t && EntryOf(r) == e
  {
    var sealed := s.sealed[t - 1];
    assert BatchFits(sealed, IssuedAt(s.issued, t), s.released);
    IssuedAtMembers(s.issued, t);
    LiveMembers(IssuedAt(s.issued, t), s.released);
    if e in sealed.entries {
      var i :| 0 <= i < |sealed.entries| && sealed.entries[i] == e;
      assert sealed.receipts[i] in sealed.receipts && EntryOf(sealed.receipts[i]) == e;
    }
    if r :| r in s.issued && r !in s.released && r.tick == t && EntryOf(r) == e {
      var i :| 0 <= i < |sealed.receipts| && sealed.receipts[i] == r;
      assert sealed.entries[i] == e;
    }
  }

  /** A sealed batch has nothing but the issued receipt at its place. */
  lemma EntryAtPlace(env: Env, s: Sys, t: nat, e: BatchEntry, r: Receipt)
    requires ChainsOk(env, s) && BatchesOk(s) && 1 <= t <= |s.sealed| && e in s.sealed[t - 1].entries
    requires r in s.issued && r.tick == t && e.pos == r.pos
    ensures e == EntryOf(r) && r !in s.released
  {
    SealedEntry(s, t, e);
    var q :| q in s.issued && q !in s.released && q.tick == t && EntryOf(q) == e;
    PlaceFixesReceipt(env, s, q, r);
  }

  lemma LeafFixesEntry(entries: seq<BatchEntry>, e: BatchEntry)
    ensures LeafOf(e) in LeavesOf(entries) <==> e in entries
  {
    if LeafOf(e) in LeavesOf(entries) {
      var i :| 0 <= i < |entries| && LeavesOf(entries)[i] == LeafOf(e);
      assert entries[i] == e;
    }
    if e in entries {
      var i :| 0 <= i < |entries| && entries[i] == e;
      assert LeavesOf(entries)[i] == LeafOf(e);
    }
  }

  // ----- no honest run is slashable

  lemma NeverEquivocates(env: Env, events: seq<Event>, a: TickRecord, b: TickRecord)
    requires Usable(env.params)
    ensures !Equivocation(Run(env, events).signed, a, b)
  {
    EveryRunKeepsInv(env, events);
    NoEquivocation(env, Run(env, events), a, b);
  }

  lemma NoEquivocation(env: Env, s: Sys, a: TickRecord, b: TickRecord)
    requires LogOk(env, s) && SignedOk(s)
    ensures !Equivocation(s.signed, a, b)
  {
    if Equivocation(s.signed, a, b) {
      SignedRecord(env, s, a);
      SignedRecord(env, s, b);
    }
  }

  lemma NeverInvalidLog(env: Env, events: seq<Event>, prev: TickRecord, curr: TickRecord)
    requires Usable(env.params)
    ensures !InvalidLog(Run(env, events).signed, prev, curr)
  {
    var s := Run(env, events);
    EveryRunKeepsInv(env, events);
    NoInvalidLog(env, s, prev, curr);
  }

  lemma Consecutive(env: Env, s: Sys, i: nat)
    requires LogOk(env, s) && 0 < i < |s.sealed|
    ensures var prev, curr := s.sealed[i - 1].record, s.sealed[i].record;
            curr.cPrev == prev.cT && curr.cT == LogStep(curr.cPrev, curr.tick, curr.batchRoot, GroupElement(curr.x))
  {
    assert SealedFits(env.params.epoch, s.sealed, i);
    assert s.sealed[..i][i - 1] == s.sealed[i - 1];
  }

  lemma NoInvalidLog(env: Env, s: Sys, prev: TickRecord, curr: TickRecord)
    requires LogOk(env, s) && SignedOk(s)
    ensures !InvalidLog(s.signed, prev, curr)
  {
    if InvalidLog(s.signed, prev, curr) {
      SignedRecord(env, s, prev);
      SignedRecord(env, s, curr);
      Consecutive(env, s, curr.tick - 1);
    }
  }

  /** Whatever entry and path the challenger picks, and whatever was fenced. */
  lemma NeverReorders(env: Env, events: seq<Event>, receipt: Receipt, record: TickRecord, entry: BatchEntry,
                      path: seq<Digest>)
    requires Usable(env.params)
    ensures !Reorder(Run(env, events).signed, receipt, record, entry, path)
  {
    var s := Run(env, events);
    EveryRunKeepsInv(env, events);
    NoReorder(env, s, receipt, record, entry, path);
  }

  lemma NoReorder(env: Env, s: Sys, receipt: Receipt, record: TickRecord, entry: BatchEntry, path: seq<Digest>)
    requires LogOk(env, s) && SignedOk(s) && ChainsOk(env, s) && BatchesOk(s)
    ensures !Reorder(s.signed, receipt, record, entry, path)
  {
    if Reorder(s.signed, receipt, record, entry, path) {
      SignedRecord(env, s, record);
      var issued := SignedReceipt(env, s, receipt);
      hide SignedOk;
      hide ChainsOk;
      hide BatchesOk;
      hide Climb;
      hide Root;
      var sealed := s.sealed[record.tick - 1];
      assert SealedFits(env.params.epoch, s.sealed, record.tick - 1);
      VerifyingLeafIsEntry(LeavesOf(sealed.entries), LeafOf(entry), entry.pos, path);
      LeafFixesEntry(sealed.entries, entry);
      EntryAtPlace(env, s, record.tick, entry, issued);
    }
  }

  /** A challenger holding the receipt can convict on omission. */
  ghost predicate OmissionProvable(signed: set<Message>, receipt: Receipt) {
    exists record, fullBatch :: Omission(signed, receipt, record, fullBatch)
  }

  /** The receipt was issued for a tick since sealed, and a fence released it. */
  ghost predicate ReleasedAndSealed(s: Sys, receipt: Receipt) {
    exists r :: r in s.released && receipt == r.(sig := receipt.sig) && r.tick <= |s.sealed|
  }

  /** In every run a verifying receipt proves an omission exactly when a fence
      released it and its tick has been sealed. So no omission proof exists in a
      run that released nothing; and a release followed by the seal is provable,
      although the sequencer followed its own protocol. */
  lemma OmissionIff(env: Env, events: seq<Event>, receipt: Receipt)
    requires Usable(env.params) && ReceiptVerifies(Run(env, events).signed, receipt)
    ensures OmissionProvable(Run(env, events).signed, receipt) <==> ReleasedAndSealed(Run(env, events), receipt)
  {
    var s := Run(env, events);
    EveryRunKeepsInv(env, events);
    if record, fullBatch :| Omission(s.signed, receipt, record, fullBatch) {
      OmissionMeansReleased(env, s, receipt, record, fullBatch);
    }
    if r :| r in s.released && receipt == r.(sig := receipt.sig) && r.tick <= |s.sealed| {
      ReleasedMeansOmission(env, s, receipt, r);
    }
  }

  lemma OmissionMeansReleased(env: Env, s: Sys, receipt: Receipt, record: TickRecord, fullBatch: seq<BatchEntry>)
    requires Inv(env, s) && Omission(s.signed, receipt, record, fullBatch)
    ensures ReleasedAndSealed(s, receipt)
  {
    SignedRecord(env, s, record);
    var issued := SignedReceipt(env, s, receipt);
    var sealed := s.sealed[record.tick - 1];
    assert SealedFits(env.params.epoch, s.sealed, record.tick - 1);
    hide LogOk;
    hide ChainsOk;
    hide BuffersOk;
    hide AccountsOk;
    hide ReceiptsOk;
    hide SignedOk;
    hide Root;
    if issued !in s.released {
      var e := EntryOf(issued);
      SealedEntry(s, record.tick, e);
      hide BatchesOk;
      SameBatch(sealed.entries, fullBatch, e);
    }
  }

  /** One root, one set of entries. */
  lemma SameBatch(a: seq<BatchEntry>, b: seq<BatchEntry>, e: BatchEntry)
    requires Root(LeavesOf(a)) == Root(LeavesOf(b))
    ensures e in a <==> e in b
  {
    LeafFixesEntry(a, e);
    LeafFixesEntry(b, e);
    SameRootSameEntries(LeavesOf(a), LeavesOf(b));
  }

  lemma ReleasedMeansOmission(env: Env, s: Sys, receipt: Receipt, r: Receipt)
    requires Inv(env, s) && ReceiptVerifies(s.signed, receipt)
    requires r in s.released && receipt == r.(sig := receipt.sig) && r.tick <= |s.sealed|
    ensures OmissionProvable(s.signed, receipt)
  {
    var sealed := s.sealed[r.tick - 1];
    assert SealedFits(env.params.epoch, s.sealed, r.tick - 1);
    if i :| 0 <= i < |sealed.entries| && sealed.entries[i].pos == receipt.pos && sealed.entries[i].h == receipt.h {
      EntryAtPlace(env, s, r.tick, sealed.entries[i], r);
    }
    assert Omission(s.signed, receipt, sealed.record, sealed.entries);
  }

  // ----- the gap between taking a tick and opening the next

  /** The tick handler takes the open tick's buffer and opens the next tick in two
      locked sections (node.rs:266 and 332). A submission admitted between them
      lands on the tick just taken, at position 0 of a fresh buffer. It doubles
      the place of an earlier receipt exactly when the tick had any. */
  lemma GapSubmission(env: Env, s: Sys, bytes: Bytes, stored: bool)
    requires Usable(env.params) && Inv(env, s) && env.params.capacity > 0
    requires Submit(env, TakeTick(s.adm, s.adm.openTick).0, bytes, stored).1.Admitted?
    ensures var r := Submit(env, TakeTick(s.adm, s.adm.openTick).0, bytes, stored).1.receipt;
            && r.tick == s.adm.openTick && r.pos == 0
            && ((exists q :: q in s.issued && q.tick == r.tick && q.pos == r.pos)
                <==> IssuedAt(s.issued, s.adm.openTick) != [])
  {
    var open := s.adm.openTick;
    var adm := TakeTick(s.adm, open).0;
    var k := SubmitCases(env, adm, bytes, stored);
    var r := Submit(env, adm, bytes, stored).1.receipt;
    hide Submit;
    assert Count(adm, open, r.bucket) == 0;
    var rs := IssuedAt(s.issued, open);
    IssuedAtMembers(s.issued, open);
    if rs != [] {
      assert Chained(env.params.epoch, open, rs) && Linked(env.params.epoch, open, rs, 0);
      assert rs[0] in s.issued && rs[0].tick == open && rs[0].pos == 0;
    }
  }

  /** Such a receipt convicts: the record of the tick, sealed from what was taken
      before it, omits it. */
  lemma GapReceiptIsOmitted(env: Env, s: Sys, segment: nat, x: nat, bytes: Bytes, stored: bool)
    requires Usable(env.params) && Inv(env, s) && env.params.capacity > 0
    requires Submit(env, TakeTick(s.adm, s.adm.openTick).0, bytes, stored).1.Admitted?
    ensures var r := Submit(env, TakeTick(s.adm, s.adm.openTick).0, bytes, stored).1.receipt;
            var sealed := SealStep(env, s, segment, x).sealed[|s.sealed|];
            Omission(s.signed + {ReceiptMessage(r), RecordMessage(sealed.record)}, r, sealed.record, sealed.entries)
  {
    hide Submit;
    hide Inv;
    hide Root;
    hide LeavesOf;
    hide LogHead;
    var adm := TakeTick(s.adm, s.adm.openTick).0;
    var r := Submit(env, adm, bytes, stored).1.receipt;
    GapSubmission(env, s, bytes, stored);
    var k := SubmitCases(env, adm, bytes, stored);
    TakenWereSeen(env, s);
    var entries := TakeTick(s.adm, s.adm.openTick).1;
    OpenTickIs(env, s);
    assert forall i | 0 <= i < |entries| :: BatchOf(entries)[i].h == entries[i].h;
  }

  lemma OpenTickIs(env: Env, s: Sys)
    requires Inv(env, s)
    ensures s.adm.openTick == |s.sealed| + 1
  {}

  lemma TakenWereSeen(env: Env, s: Sys)
    requires Inv(env, s)
    ensures var entries := TakeTick(s.adm, s.adm.openTick).1;
            forall i | 0 <= i < |entries| :: entries[i].h in s.adm.seen
  {
    var b := BufferAt(s.adm, s.adm.openTick);
    var rs := IssuedAt(s.issued, s.adm.openTick);
    assert BufferFits(b, rs, s.released);
    IssuedAtMembers(s.issued, s.adm.openTick);
    forall i | 0 <= i < |b.entries|
      ensures b.entries[i].h in s.adm.seen
    {
      assert EntryFits(b.entries[i]) && ReceiptsIn(b.entries)[i] == b.entries[i].receipt;
      var r := LiveAt(rs, s.released, i);
    }
  }
}
