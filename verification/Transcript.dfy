/** The sequencing predicate (crates/sequencer/src/transcript.rs) and what its
    acceptance means. */
module Transcript {
  import opened Wrappers
  import opened Digests
  import opened Records
  import opened Merkle

  datatype Violation =
    | MissingTick(tick: nat)
    | LogChainBroken(tick: nat)
    | DigestChainBroken(tick: nat, pos: nat)
    | BatchRootMismatch(tick: nat)
    | DuplicateCommitment(h: Digest)
    | EntryOrderBroken(tick: nat, pos: nat)
    | BadSignature(tick: nat)

  datatype Span = Span(c: Digest, seen: set<Digest>)

  type Store = nat -> Option<SealedTick>

  /** The entries from position i on, given what was seen before them. */
  function CheckEntries(t: nat, entries: seq<BatchEntry>, i: nat, seen: set<Digest>): Result<set<Digest>, Violation>
    requires i <= |entries|
    decreases |entries| - i
  {
    if i == |entries| then Ok(seen)
    else if entries[i].tick != t || entries[i].pos != i then Err(EntryOrderBroken(t, entries[i].pos))
    else if entries[i].h in seen then Err(DuplicateCommitment(entries[i].h))
    else CheckEntries(t, entries, i + 1, seen + {entries[i].h})
  }

  predicate ReceiptMatches(t: nat, entries: seq<BatchEntry>, r: Receipt) {
    && r.pos < |entries| && r.h == entries[r.pos].h
    && r.d == DigestStep(r.dPrev, t, r.pos, entries[r.pos].h, entries[r.pos].bucket, entries[r.pos].ticketId)
  }

  function CheckReceipts(t: nat, entries: seq<BatchEntry>, receipts: seq<Receipt>, i: nat): Result<(), Violation>
    requires i <= |receipts|
    decreases |receipts| - i
  {
    if i == |receipts| then Ok(())
    else if !ReceiptMatches(t, entries, receipts[i]) then Err(DigestChainBroken(t, receipts[i].pos))
    else CheckReceipts(t, entries, receipts, i + 1)
  }

  /** One tick of the span. */
  function CheckTick(signed: set<Message>, epoch: nat, t: nat, found: Option<SealedTick>, before: Span)
    : Result<Span, Violation>
  {
    if found.None? then Err(MissingTick(t))
    else
      var sealed := found.value;
      var record := sealed.record;
      if record.tick != t || record.epoch != epoch then Err(MissingTick(t))
      else if !RecordVerifies(signed, record) then Err(BadSignature(t))
      else if Root(LeavesOf(sealed.entries)) != record.batchRoot then Err(BatchRootMismatch(t))
      else
        var entries := CheckEntries(t, sealed.entries, 0, before.seen);
        if entries.Err? then Err(entries.error)
        else
          var receipts := CheckReceipts(t, sealed.entries, sealed.receipts, 0);
          if receipts.Err? then Err(receipts.error)
          else
            var expected := LogStep(before.c, t, record.batchRoot, GroupElement(record.x));
            if record.cPrev != before.c || record.cT != expected then Err(LogChainBroken(t))
            else Ok(Span(expected, entries.value))
  }

  /** `count` ticks from `start` on. */
  function CheckSpan(signed: set<Message>, epoch: nat, store: Store, start: nat, count: nat, before: Span)
    : Result<Span, Violation>
    decreases count
  {
    if count == 0 then Ok(before)
    else
      var first := CheckTick(signed, epoch, start, store(start), before);
      if first.Err? then first else CheckSpan(signed, epoch, store, start + 1, count - 1, first.value)
  }

  // ----- the loops

  method VerifySpan(signed: set<Message>, epoch: nat, cBefore: Digest, start: nat, end: int, store: Store,
                    seenBefore: set<Digest>)
    returns (r: Result<Digest, Violation>)
    ensures var spec := CheckSpan(signed, epoch, store, start, CountBetween(start, end), Span(cBefore, seenBefore));
            r == if spec.Ok? then Ok(spec.value.c) else Err(spec.error)
  {
    hide CheckTick;
    var c, seen, t := cBefore, seenBefore, start;
    ghost var count := CountBetween(start, end);
    while t <= end
      invariant t <= start + count
      invariant CheckSpan(signed, epoch, store, start, count, Span(cBefore, seenBefore))
             == CheckSpan(signed, epoch, store, t, start + count - t, Span(c, seen))
      decreases end - t
    {
      var step := VerifyTick(signed, epoch, t, store(t), Span(c, seen));
      if step.Err? {
        return Err(step.error);
      }
      c, seen := step.value.c, step.value.seen;
      t := t + 1;
    }
    r := Ok(c);
  }

  method VerifyTick(signed: set<Message>, epoch: nat, t: nat, found: Option<SealedTick>, before: Span)
    returns (r: Result<Span, Violation>)
    ensures r == CheckTick(signed, epoch, t, found, before)
  {
    if found.None? {
      return Err(MissingTick(t));
    }
    var sealed, record := found.value, found.value.record;
    if record.tick != t || record.epoch != epoch {
      return Err(MissingTick(t));
    }
    if !RecordVerifies(signed, record) {
      return Err(BadSignature(t));
    }
    var root := MerkleRoot(LeavesOf(sealed.entries));
    if root != record.batchRoot {
      return Err(BatchRootMismatch(t));
    }
    var entries := VerifyEntries(t, sealed.entries, before.seen);
    if entries.Err? {
      return Err(entries.error);
    }
    var receipts := VerifyReceipts(t, sealed.entries, sealed.receipts);
    if receipts.Err? {
      return Err(receipts.error);
    }
    var expected := LogStep(before.c, t, record.batchRoot, GroupElement(record.x));
    if record.cPrev != before.c || record.cT != expected {
      return Err(LogChainBroken(t));
    }
    r := Ok(Span(expected, entries.value));
  }

  method VerifyEntries(t: nat, entries: seq<BatchEntry>, seenBefore: set<Digest>)
    returns (r: Result<set<Digest>, Violation>)
    ensures r == CheckEntries(t, entries, 0, seenBefore)
  {
    var seen := seenBefore;
    for i := 0 to |entries|
      invariant CheckEntries(t, entries, 0, seenBefore) == CheckEntries(t, entries, i, seen)
    {
      var e := entries[i];
      if e.tick != t || e.pos != i {
        return Err(EntryOrderBroken(t, e.pos));
      }
      if e.h in seen {
        return Err(DuplicateCommitment(e.h));
      }
      seen := seen + {e.h};
    }
    r := Ok(seen);
  }

  method VerifyReceipts(t: nat, entries: seq<BatchEntry>, receipts: seq<Receipt>) returns (r: Result<(), Violation>)
    ensures r == CheckReceipts(t, entries, receipts, 0)
  {
    for i := 0 to |receipts|
      invariant CheckReceipts(t, entries, receipts, 0) == CheckReceipts(t, entries, receipts, i)
    {
      var receipt := receipts[i];
      if receipt.pos >= |entries| {
        return Err(DigestChainBroken(t, receipt.pos));
      }
      var entry := entries[receipt.pos];
      var expected := DigestStep(receipt.dPrev, t, receipt.pos, entry.h, entry.bucket, entry.ticketId);
      if receipt.d != expected || receipt.h != entry.h {
        return Err(DigestChainBroken(t, receipt.pos));
      }
    }
    r := Ok(());
  }

  // ----- what acceptance means

  /** The entries are numbered from zero on tick t, and no commitment repeats. */
  ghost predicate EntriesGood(t: nat, entries: seq<BatchEntry>, i: nat, seen: set<Digest>) {
    && (forall j | i <= j < |entries| :: entries[j].tick == t && entries[j].pos == j && entries[j].h !in seen)
    && forall j, k | i <= j < k < |entries| :: entries[j].h != entries[k].h
  }

  ghost function CommitmentsFrom(entries: seq<BatchEntry>, i: nat): set<Digest> {
    set j | i <= j < |entries| :: entries[j].h
  }

  lemma {:induction false} EntriesAccepted(t: nat, entries: seq<BatchEntry>, i: nat, seen: set<Digest>)
    requires i <= |entries|
    ensures CheckEntries(t, entries, i, seen).Ok? <==> EntriesGood(t, entries, i, seen)
    ensures CheckEntries(t, entries, i, seen).Ok?
            ==> CheckEntries(t, entries, i, seen).value == seen + CommitmentsFrom(entries, i)
    decreases |entries| - i
  {
    if i < |entries| {
      var e := entries[i];
      EntriesAccepted(t, entries, i + 1, seen + {e.h});
      assert CommitmentsFrom(entries, i) == {e.h} + CommitmentsFrom(entries, i + 1);
      if EntriesGood(t, entries, i + 1, seen + {e.h}) && e.tick == t && e.pos == i && e.h !in seen {
        forall j | i < j < |entries|
          ensures entries[j].h != e.h && entries[j].h !in seen
        {
          assert entries[j].h !in seen + {e.h};
        }
      }
    } else {
      assert CommitmentsFrom(entries, i) == {};
    }
  }

  lemma {:induction false} ReceiptsAccepted(t: nat, entries: seq<BatchEntry>, receipts: seq<Receipt>, i: nat)
    requires i <= |receipts|
    ensures CheckReceipts(t, entries, receipts, i).Ok?
            <==> forall j | i <= j < |receipts| :: ReceiptMatches(t, entries, receipts[j])
    decreases |receipts| - i
  {
    if i < |receipts| {
      ReceiptsAccepted(t, entries, receipts, i + 1);
    }
  }

  /** A tick is accepted exactly when its record is present, signed and chained,
      its root is that of its entries, the entries are numbered from zero with
      fresh commitments, and every receipt is the digest of its entry. */
  ghost predicate TickGood(signed: set<Message>, epoch: nat, t: nat, found: Option<SealedTick>, before: Span) {
    && found.Some?
    && var sealed := found.value;
       var r := sealed.record;
       && r.tick == t && r.epoch == epoch && RecordVerifies(signed, r)
       && r.batchRoot == Root(LeavesOf(sealed.entries))
       && EntriesGood(t, sealed.entries, 0, before.seen)
       && (forall j | 0 <= j < |sealed.receipts| :: ReceiptMatches(t, sealed.entries, sealed.receipts[j]))
       && r.cPrev == before.c && r.cT == LogStep(before.c, t, r.batchRoot, GroupElement(r.x))
  }

  lemma TickAccepted(signed: set<Message>, epoch: nat, t: nat, found: Option<SealedTick>, before: Span)
    ensures var r := CheckTick(signed, epoch, t, found, before);
            && (r.Ok? <==> TickGood(signed, epoch, t, found, before))
            && (r.Ok? ==> found.Some?)
            && (r.Ok? ==> r.value == Span(found.value.record.cT, before.seen + CommitmentsFrom(found.value.entries, 0)))
  {
    if found.Some? {
      EntriesAccepted(t, found.value.entries, 0, before.seen);
      ReceiptsAccepted(t, found.value.entries, found.value.receipts, 0);
      hide EntriesGood;
      hide CheckEntries;
      hide CheckReceipts;
      hide Root;
    }
  }

  /** What each refusal reports is so. */
  ghost predicate Reports(signed: set<Message>, epoch: nat, t: nat, found: Option<SealedTick>, before: Span,
                          v: Violation)
  {
    match v
    case MissingTick(u) => u == t && (found.None? || found.value.record.tick != t || found.value.record.epoch != epoch)
    case BadSignature(u) => u == t && found.Some? && RecordMessage(found.value.record) !in signed
    case BatchRootMismatch(u) =>
      u == t && found.Some? && found.value.record.batchRoot != Root(LeavesOf(found.value.entries))
    case EntryOrderBroken(u, p) => u == t && found.Some? && exists i :: Misplaced(t, found.value.entries, i, p)
    case DuplicateCommitment(h) =>
      found.Some? && (h in before.seen || exists i, j :: Repeated(found.value.entries, i, j, h))
    case DigestChainBroken(u, p) => u == t && found.Some? && exists r :: Unfounded(t, found.value, r, p)
    case LogChainBroken(u) =>
      && u == t && found.Some?
      && var r := found.value.record;
         r.cPrev != before.c || r.cT != LogStep(before.c, t, r.batchRoot, GroupElement(r.x))
  }

  predicate Misplaced(t: nat, entries: seq<BatchEntry>, i: nat, p: nat) {
    i < |entries| && entries[i].pos == p && (entries[i].tick != t || p != i)
  }

  predicate Repeated(entries: seq<BatchEntry>, i: nat, j: nat, h: Digest) {
    i < j < |entries| && entries[i].h == entries[j].h == h
  }

  predicate Unfounded(t: nat, sealed: SealedTick, r: Receipt, p: nat) {
    r in sealed.receipts && r.pos == p && !ReceiptMatches(t, sealed.entries, r)
  }

  lemma {:induction false} EntriesReport(t: nat, entries: seq<BatchEntry>, i: nat, seen: set<Digest>, base: set<Digest>)
    requires i <= |entries| && seen == base + set j | 0 <= j < i :: entries[j].h
    requires CheckEntries(t, entries, i, seen).Err?
    ensures match CheckEntries(t, entries, i, seen).error
            case EntryOrderBroken(u, p) => u == t && exists k :: Misplaced(t, entries, k, p)
            case DuplicateCommitment(h) => h in base || exists j, k :: Repeated(entries, j, k, h)
            case _ => false
    decreases |entries| - i
  {
    var e := entries[i];
    if e.tick != t || e.pos != i {
      assert Misplaced(t, entries, i, e.pos);
    } else if e.h in seen {
      if e.h !in base {
        var j: nat :| j < i && entries[j].h == e.h;
        assert Repeated(entries, j, i, e.h);
      }
    } else {
      EntriesReport(t, entries, i + 1, seen + {e.h}, base);
    }
  }

  lemma {:induction false} ReceiptsReport(t: nat, sealed: SealedTick, i: nat)
    requires i <= |sealed.receipts| && CheckReceipts(t, sealed.entries, sealed.receipts, i).Err?
    ensures match CheckReceipts(t, sealed.entries, sealed.receipts, i).error
            case DigestChainBroken(u, p) => u == t && exists r :: Unfounded(t, sealed, r, p)
            case _ => false
    decreases |sealed.receipts| - i
  {
    var r := sealed.receipts[i];
    if ReceiptMatches(t, sealed.entries, r) {
      ReceiptsReport(t, sealed, i + 1);
    } else {
      assert Unfounded(t, sealed, r, r.pos);
    }
  }

  /** A refused tick is refused for something that is so of it. */
  lemma RefusalIsTrue(signed: set<Message>, epoch: nat, t: nat, found: Option<SealedTick>, before: Span)
    requires CheckTick(signed, epoch, t, found, before).Err?
    ensures Reports(signed, epoch, t, found, before, CheckTick(signed, epoch, t, found, before).error)
  {
    if found.Some? {
      var sealed := found.value;
      if CheckEntries(t, sealed.entries, 0, before.seen).Err? {
        EntriesReport(t, sealed.entries, 0, before.seen, before.seen);
      }
      if CheckReceipts(t, sealed.entries, sealed.receipts, 0).Err? {
        ReceiptsReport(t, sealed, 0);
      }
      hide CheckEntries;
      hide CheckReceipts;
      hide Root;
    }
  }

  /** Accepting a span is accepting its first part and then the rest from where
      it left off, with the commitments seen carried over. */
  lemma {:induction false} SpansCompose(signed: set<Message>, epoch: nat, store: Store, start: nat, a: nat, b: nat,
                                        before: Span)
    ensures var whole := CheckSpan(signed, epoch, store, start, a + b, before);
            var first := CheckSpan(signed, epoch, store, start, a, before);
            whole == if first.Err? then first else CheckSpan(signed, epoch, store, start + a, b, first.value)
    decreases a
  {
    hide CheckTick;
    if a > 0 {
      var first := CheckTick(signed, epoch, start, store(start), before);
      if first.Ok? {
        SpansCompose(signed, epoch, store, start + 1, a - 1, b, first.value);
      }
    }
  }

  /** The same batch under the same clock state. */
  predicate SameContent(a: SealedTick, b: SealedTick) {
    a.record.batchRoot == b.record.batchRoot && a.record.x == b.record.x && a.record.cT == b.record.cT
      && a.entries == b.entries
  }

  /** Numbered entry lists with one root are one list: the root fixes the set of
      leaves, and the numbering fixes their order. */
  lemma NumberedRootsFixEntries(t: nat, a: seq<BatchEntry>, b: seq<BatchEntry>)
    requires forall i | 0 <= i < |a| :: a[i].pos == i
    requires forall i | 0 <= i < |b| :: b[i].pos == i
    requires Root(LeavesOf(a)) == Root(LeavesOf(b))
    ensures a == b
  {
    SameRootSameEntries(LeavesOf(a), LeavesOf(b));
    hide Root;
    NumberedPrefix(a, b);
    NumberedPrefix(b, a);
  }

  lemma NumberedPrefix(a: seq<BatchEntry>, b: seq<BatchEntry>)
    requires forall i | 0 <= i < |a| :: a[i].pos == i
    requires forall i | 0 <= i < |b| :: b[i].pos == i
    requires forall x | x in LeavesOf(a) :: x in LeavesOf(b)
    ensures a <= b
  {
    forall i | 0 <= i < |a|
      ensures a[i] in b
    {
      assert LeavesOf(a)[i] in LeavesOf(b);
      var j :| 0 <= j < |b| && LeavesOf(b)[j] == LeavesOf(a)[i];
      assert LeafOf(a[i]) == LeafOf(b[j]);
    }
    if |a| > 0 {
      assert a[|a| - 1] in b;
    }
  }

  lemma EndBindsTick(signed: set<Message>, signed': set<Message>, epoch: nat, epoch': nat, t: nat,
                     found: Option<SealedTick>, found': Option<SealedTick>, before: Span, before': Span)
    requires TickGood(signed, epoch, t, found, before) && TickGood(signed', epoch', t, found', before')
    requires found.value.record.cT == found'.value.record.cT
    ensures before.c == before'.c && SameContent(found.value, found'.value)
  {
    NumberedRootsFixEntries(t, found.value.entries, found'.value.entries);
  }

  /** The start and end commitments bind a span: two accepted spans of one length
      that end in one commitment start in one commitment and hold the same batches
      and clock states, whatever store, signer and earlier commitments each was
      checked against. */
  lemma {:induction false} EndBindsSpan(signed: set<Message>, signed': set<Message>, epoch: nat, epoch': nat,
                                        store: Store, store': Store, start: nat, count: nat, before: Span,
                                        before': Span)
    requires CheckSpan(signed, epoch, store, start, count, before).Ok?
    requires CheckSpan(signed', epoch', store', start, count, before').Ok?
    requires CheckSpan(signed, epoch, store, start, count, before).value.c
             == CheckSpan(signed', epoch', store', start, count, before').value.c
    ensures before.c == before'.c
    ensures forall t | start <= t < start + count ::
      store(t).Some? && store'(t).Some? && SameContent(store(t).value, store'(t).value)
    decreases count
  {
    hide CheckTick;
    hide TickGood;
    hide SameContent;
    if count > 0 {
      TickAccepted(signed, epoch, start, store(start), before);
      TickAccepted(signed', epoch', start, store'(start), before');
      EndBindsSpan(signed, signed', epoch, epoch', store, store', start + 1, count - 1,
                   CheckTick(signed, epoch, start, store(start), before).value,
                   CheckTick(signed', epoch', start, store'(start), before').value);
      EndBindsTick(signed, signed', epoch, epoch', start, store(start), store'(start), before, before');
    }
  }

  // ----- what acceptance does not mean

  predicate Relinkable(sealed: SealedTick, i: nat) {
    i < |sealed.receipts| && ReceiptMatches(sealed.record.tick, sealed.entries, sealed.receipts[i])
  }

  /** One receipt linked to another predecessor digest, its own digest following. */
  function RelinkTick(sealed: SealedTick, i: nat, dPrev: Digest): SealedTick
    requires Relinkable(sealed, i)
  {
    var r := sealed.receipts[i];
    var e := sealed.entries[r.pos];
    var d := DigestStep(dPrev, sealed.record.tick, r.pos, e.h, e.bucket, e.ticketId);
    sealed.(receipts := sealed.receipts[i := r.(dPrev := dPrev, d := d)])
  }

  lemma {:induction false} RelinkKeepsReceipts(sealed: SealedTick, i: nat, dPrev: Digest, j: nat)
    requires Relinkable(sealed, i) && j <= |sealed.receipts|
    ensures CheckReceipts(sealed.record.tick, sealed.entries, RelinkTick(sealed, i, dPrev).receipts, j)
         == CheckReceipts(sealed.record.tick, sealed.entries, sealed.receipts, j)
    decreases |sealed.receipts| - j
  {
    if j < |sealed.receipts| {
      RelinkKeepsReceipts(sealed, i, dPrev, j + 1);
    }
  }

  lemma RelinkKeepsTick(signed: set<Message>, epoch: nat, t: nat, sealed: SealedTick, i: nat, dPrev: Digest,
                        before: Span)
    requires Relinkable(sealed, i)
    ensures CheckTick(signed, epoch, t, Some(RelinkTick(sealed, i, dPrev)), before)
            == CheckTick(signed, epoch, t, Some(sealed), before)
  {
    RelinkKeepsReceipts(sealed, i, dPrev, 0);
    hide CheckEntries;
    hide CheckReceipts;
    hide Root;
  }

  /** The store with one receipt of tick u linked elsewhere. */
  function RelinkStore(store: Store, u: nat, i: nat, dPrev: Digest): Store
    requires store(u).Some? && Relinkable(store(u).value, i)
  {
    (t: nat) => if t == u then Some(RelinkTick(store(u).value, i, dPrev)) else store(t)
  }

  /** Receipt linkage is not part of the predicate: linking a receipt to any other
      predecessor digest leaves the verdict on every span as it is, to the end
      commitment and the error. */
  lemma {:induction false} LinkageUnchecked(signed: set<Message>, epoch: nat, store: Store, start: nat, count: nat,
                                            before: Span, u: nat, i: nat, dPrev: Digest)
    requires store(u).Some? && Relinkable(store(u).value, i)
    ensures CheckSpan(signed, epoch, RelinkStore(store, u, i, dPrev), start, count, before)
         == CheckSpan(signed, epoch, store, start, count, before)
    decreases count
  {
    hide CheckTick;
    if count > 0 {
      if start == u {
        RelinkKeepsTick(signed, epoch, start, store(u).value, i, dPrev, before);
      }
      var first := CheckTick(signed, epoch, start, store(start), before);
      if first.Ok? {
        LinkageUnchecked(signed, epoch, store, start + 1, count - 1, first.value, u, i, dPrev);
      }
    }
  }

  // ----- the optimistic prover

  /** The hash of the predicate instance, ideal like the others. */
  datatype PredicateCommitment = PredicateCommitment(epoch: nat, start: nat, end: int, cBefore: Digest, cAfter: Digest)

  datatype Proved = Proved(cAfter: Digest, commitment: PredicateCommitment)

  function CountBetween(start: nat, end: int): nat {
    if start <= end then end - start + 1 else 0
  }

  function ReplaySpec(signed: set<Message>, epoch: nat, cBefore: Digest, start: nat, end: int,
                      store: Store): Result<Proved, Violation> {
    var r := CheckSpan(signed, epoch, store, start, CountBetween(start, end), Span(cBefore, {}));
    if r.Err? then Err(r.error)
    else Ok(Proved(r.value.c, PredicateCommitment(epoch, start, end, cBefore, r.value.c)))
  }

  /** `ReplayProver::prove` */
  method Replay(signed: set<Message>, epoch: nat, cBefore: Digest, start: nat, end: int, store: Store)
    returns (r: Result<Proved, Violation>)
    ensures r == ReplaySpec(signed, epoch, cBefore, start, end, store)
  {
    var c := VerifySpan(signed, epoch, cBefore, start, end, store, {});
    if c.Err? {
      return Err(c.error);
    }
    r := Ok(Proved(c.value, PredicateCommitment(epoch, start, end, cBefore, c.value)));
  }

  /** An anchor's predicate commitment binds the whole span: any two stores that
      replay to it hold the same batches and clock states. */
  lemma CommitmentBindsSpan(signed: set<Message>, signed': set<Message>, a: PredicateCommitment, store: Store,
                            store': Store)
    requires var r := ReplaySpec(signed, a.epoch, a.cBefore, a.start, a.end, store); r.Ok? && r.value.commitment == a
    requires var r := ReplaySpec(signed', a.epoch, a.cBefore, a.start, a.end, store'); r.Ok? && r.value.commitment == a
    ensures forall t: nat | a.start <= t <= a.end ::
      store(t).Some? && store'(t).Some? && SameContent(store(t).value, store'(t).value)
  {
    hide SameContent;
    hide CheckTick;
    var before := Span(a.cBefore, {});
    EndBindsSpan(signed, signed', a.epoch, a.epoch, store, store', a.start, CountBetween(a.start, a.end), before,
                 before);
  }
}
