/** What an accepted sequence transition says of its receipts and executions as a
    whole (crates/continuum-lighter-plugin/src/sequence.rs:134-348). */
module SequenceLaws {
  import opened Streams
  import opened Sequence

  /** Receipt i comes before receipt j: at an earlier tick, or earlier in its tick. */
  predicate Earlier(q: Receipt, r: Receipt) {
    q.tick < r.tick || (q.tick == r.tick && q.position < r.position)
  }

  lemma {:induction false} GoodIsOrdered(a: Authenticator, p: Public, rs: seq<Receipt>, i: nat, j: nat)
    requires ReceiptsGood(a, p, rs, |rs|) && i < j < |rs|
    ensures Earlier(rs[i], rs[j]) && rs[i].digest != rs[j].digest && rs[i].envelopeHash != rs[j].envelopeHash
    decreases j
  {
    assert ReceiptGood(a, p, rs, i) && ReceiptGood(a, p, rs, j);
    if i < j - 1 {
      GoodIsOrdered(a, p, rs, i, j - 1);
    }
  }

  /** The span as a whole: receipts follow one another on the tape, none repeats, and
      they take the cursors from the old state's on. */
  ghost predicate SpanOrdered(p: Public, rs: seq<Receipt>) {
    && (forall i, j | 0 <= i < j < |rs| ::
          Earlier(rs[i], rs[j]) && rs[i].digest != rs[j].digest && rs[i].envelopeHash != rs[j].envelopeHash)
    && forall i | 0 <= i < |rs| :: rs[i].globalCursor == p.oldState.globalCursor + 1 + i < U64_MAX
  }

  /** Receipt i follows the one before it, the first the old chain root, and is of the
      epoch, signed and available. */
  predicate LinkedAt(a: Authenticator, p: Public, rs: seq<Receipt>, i: nat)
    requires i < |rs|
  {
    && rs[i].previousDigest == (if i == 0 then p.oldState.receiptChainRoot else rs[i - 1].digest)
    && rs[i].epoch == p.oldState.epoch && a.receipt(rs[i]) && a.da(rs[i], p.newState.daCommitment)
  }

  ghost predicate SpanLinked(a: Authenticator, p: Public, rs: seq<Receipt>) {
    forall i | 0 <= i < |rs| :: LinkedAt(a, p, rs, i)
  }

  /** The checks the verifier makes receipt by receipt, against neighbours and what it
      has seen, hold of all receipts exactly when the span as a whole is ordered and
      linked. */
  lemma ReceiptsGoodIff(a: Authenticator, p: Public, rs: seq<Receipt>)
    ensures ReceiptsGood(a, p, rs, |rs|) <==> SpanOrdered(p, rs) && SpanLinked(a, p, rs)
  {
    if ReceiptsGood(a, p, rs, |rs|) {
      forall i, j | 0 <= i < j < |rs|
        ensures Earlier(rs[i], rs[j]) && rs[i].digest != rs[j].digest && rs[i].envelopeHash != rs[j].envelopeHash
      {
        GoodIsOrdered(a, p, rs, i, j);
      }
      forall i | 0 <= i < |rs|
        ensures LinkedAt(a, p, rs, i) && rs[i].globalCursor == p.oldState.globalCursor + 1 + i < U64_MAX
      {
        assert ReceiptGood(a, p, rs, i);
      }
    }
    if SpanOrdered(p, rs) && SpanLinked(a, p, rs) {
      forall i | 0 <= i < |rs|
        ensures ReceiptGood(a, p, rs, i)
      {
        assert LinkedAt(a, p, rs, i) && (i > 0 ==> Earlier(rs[i - 1], rs[i]));
      }
    }
  }

  /** In an accepted transition order, cursors and tape places agree, and no receipt or
      envelope occurs twice. */
  lemma ReceiptsAreOrdered(h: Hasher, a: Authenticator, p: Public, w: Witness)
    requires Accepts(h, a, p, w)
    ensures w.receipts != [] && SpanOrdered(p, w.receipts)
  {
    hide ItemsGood;
    hide ResolutionsGood;
    hide ItemsRootFits;
    hide StreamFits;
    ReceiptsGoodIff(a, p, w.receipts);
  }

  /** The receipts form one digest chain from the old state's chain root to the new
      one's, all of the transition's epoch, signed and available. */
  lemma ReceiptsLinkStates(h: Hasher, a: Authenticator, p: Public, w: Witness)
    requires Accepts(h, a, p, w)
    ensures var rs := w.receipts; var n := |rs|;
            && n > 0 && rs[0].previousDigest == p.oldState.receiptChainRoot
            && rs[n - 1].digest == p.newState.receiptChainRoot
            && (forall i | 0 < i < n :: rs[i].previousDigest == rs[i - 1].digest)
            && (forall i | 0 <= i < n ::
                  rs[i].epoch == p.newState.epoch && a.receipt(rs[i]) && a.da(rs[i], p.newState.daCommitment))
            && p.newState.globalCursor == p.oldState.globalCursor + n <= U64_MAX
  {
    hide ItemsGood;
    hide ResolutionsGood;
    hide ItemsRootFits;
    hide StreamFits;
    var rs := w.receipts;
    forall i | 0 <= i < |rs|
      ensures rs[i].previousDigest == DigestBefore(p, rs, i) && rs[i].epoch == p.newState.epoch
      ensures a.receipt(rs[i]) && a.da(rs[i], p.newState.daCommitment)
      ensures rs[i].globalCursor == p.oldState.globalCursor + 1 + i < U64_MAX
    {
      assert ReceiptGood(a, p, rs, i);
    }
  }

  /** The item is a live transaction exactly when its envelope cleared; otherwise it is
      an empty no-op that carries the reason for which it did not. */
  ghost predicate LiveIffClear(item: ResolvedItem) {
    var d, x := item.derived, item.execution;
    if d.resolution == Clear then
      !x.terminalNoop && x.txType > 0 && d.cleartextLength > 0 && d.terminalReason == 0
    else
      && x.terminalNoop && x.txType == 0 && x.txHash == [0, 0, 0, 0, 0]
      && x.outcomeClass == d.terminalReason
      && d.terminalReason == (match d.resolution case BadAead => 1 case BadEncoding => 2 case L1Cancelled => 3
                                                 case Clear => 0)
      && (d.resolution != BadEncoding ==> d.cleartextLength == 0 && d.cleartextHash == [0, 0, 0, 0])
  }

  /** The verifier's terminal semantics are exactly these. */
  lemma TerminalIff(item: ResolvedItem)
    ensures TerminalGood(item) <==> LiveIffClear(item)
  {}

  /** Execution k of an accepted transition is that of the k-th namespace receipt, under
      index k, live exactly if that receipt's envelope cleared, as the authenticator
      resolved it. */
  lemma ExecutionsFollowReceipts(h: Hasher, a: Authenticator, p: Public, w: Witness, k: nat)
    requires Accepts(h, a, p, w) && k < |Protected(w.receipts, p.namespaceId)|
    ensures var r := Protected(w.receipts, p.namespaceId)[k];
            var item := InReceiptOrder(w.items, Protected(w.receipts, p.namespaceId))[k];
            && item in w.items && item.receiptDigest == r.digest && a.resolution(r, item)
            && item.execution.logicalIndex == k && LiveIffClear(item)
            && item.derived.domainHash == p.oldState.domainHash
            && item.derived.tick == r.tick && item.derived.position == r.position
            && item.derived.envelopeHash == r.envelopeHash && item.derived.receiptDigest == r.digest
  {
    hide ReceiptsGood;
    hide ResolutionsGood;
    hide ItemsRootFits;
    hide StreamFits;
    hide StateFits;
    assert ResolvedAt(a, p, w.items, Protected(w.receipts, p.namespaceId), k);
  }

  /** One domain, epoch and configuration on both sides of a transition, and the
      authenticator's word for the transcript and the frames. */
  lemma StatesAgree(h: Hasher, a: Authenticator, p: Public, w: Witness)
    requires Accepts(h, a, p, w)
    ensures p.newState.domainHash == p.oldState.domainHash && p.newState.epoch == p.oldState.epoch
    ensures p.newState.configHash == p.oldState.configHash
    ensures p.newState.namespaceItemCount
            == p.oldState.namespaceItemCount + |Protected(w.receipts, p.namespaceId)| <= U64_MAX
    ensures a.transcript(p.oldState.transcriptRoot, w.receipts, p.newState.transcriptRoot) && a.frames(w, p)
  {
    hide ReceiptsGood;
    hide ResolutionsGood;
    hide ItemsGood;
    hide ItemsRootFits;
    hide StreamFits;
  }
}
