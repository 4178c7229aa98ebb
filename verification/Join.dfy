/** The settlement join (crates/continuum-lighter-plugin/src/join.rs), and what a
    whole run of joined batches has consumed. */
module Join {
  import opened Streams
  import opened Sequence
  import opened SequenceVerifier

  datatype SequencePublic = SequencePublic(
    domainHash: Hash32, verifierId: Hash32, epoch: nat, oldGlobalCursor: nat, newGlobalCursor: nat,
    oldTranscriptRoot: Hash32, newTranscriptRoot: Hash32, oldNamespaceCount: nat, newNamespaceCount: nat,
    orderedItemRoot: Hash32, executionStreamRoot: Hash32, orderedItemCount: nat, priorityStart: nat, priorityEnd: nat,
    cBind: Hash32)

  datatype ExecutionPublic = ExecutionPublic(
    domainHash: Hash32, verifierId: Hash32, epoch: nat, oldStateRoot: Hash32, newStateRoot: Hash32,
    orderedItemRoot: Hash32, executionStreamRoot: Hash32, orderedItemCount: nat, blobCBind: Hash32, cBind: Hash32)

  datatype Head = Head(
    domainHash: Hash32, sequenceVerifierId: Hash32, executionVerifierId: Hash32, epoch: nat, globalCursor: nat,
    namespaceCount: nat, transcriptRoot: Hash32, stateRoot: Hash32, priorityHead: nat, lastCBind: Hash32)

  datatype JoinError =
    | DomainMismatch | EpochMismatch | SequenceVerifierMismatch | ExecutionVerifierMismatch | CursorContinuity
    | NamespaceContinuity | TranscriptContinuity | StateRootContinuity | PriorityContinuity | BindingMismatch
    | BlobBindingMismatch | StreamMismatch | CountMismatch

  datatype Joined = Advanced(head: Head) | Refused(error: JoinError)

  /** `to_join_public` */
  function ToJoin(p: Public, verifierId: Hash32): SequencePublic {
    SequencePublic(
      p.oldState.domainHash, verifierId, p.oldState.epoch, p.oldState.globalCursor, p.newState.globalCursor,
      p.oldState.transcriptRoot, p.newState.transcriptRoot, p.oldState.namespaceItemCount,
      p.newState.namespaceItemCount, p.binding.orderedItemRoot, p.binding.executionStreamRoot,
      p.binding.orderedItemCount, p.binding.priorityStart, p.binding.priorityEnd,
      p.cBind)
  }

  function AdvanceHead(head: Head, s: SequencePublic, x: ExecutionPublic): Joined {
    if s.domainHash != head.domainHash || x.domainHash != head.domainHash then Refused(DomainMismatch)
    else if s.epoch != head.epoch || x.epoch != head.epoch then Refused(EpochMismatch)
    else if s.verifierId != head.sequenceVerifierId then Refused(SequenceVerifierMismatch)
    else if x.verifierId != head.executionVerifierId then Refused(ExecutionVerifierMismatch)
    else if s.oldGlobalCursor != head.globalCursor || s.newGlobalCursor <= s.oldGlobalCursor
    then Refused(CursorContinuity)
    else if s.oldNamespaceCount != head.namespaceCount || s.newNamespaceCount < s.oldNamespaceCount
    then Refused(NamespaceContinuity)
    else if s.oldTranscriptRoot != head.transcriptRoot then Refused(TranscriptContinuity)
    else if x.oldStateRoot != head.stateRoot then Refused(StateRootContinuity)
    else if s.priorityStart != head.priorityHead || s.priorityEnd < s.priorityStart then Refused(PriorityContinuity)
    else if s.cBind != x.cBind then Refused(BindingMismatch)
    else if x.blobCBind != x.cBind then Refused(BlobBindingMismatch)
    else if s.orderedItemRoot != x.orderedItemRoot || s.executionStreamRoot != x.executionStreamRoot
    then Refused(StreamMismatch)
    else if s.orderedItemCount != x.orderedItemCount || s.newNamespaceCount - s.oldNamespaceCount != s.orderedItemCount
    then Refused(JoinError.CountMismatch)
    else Advanced(Head(head.domainHash, head.sequenceVerifierId, head.executionVerifierId, head.epoch,
                       s.newGlobalCursor, s.newNamespaceCount, s.newTranscriptRoot, x.newStateRoot, s.priorityEnd,
                       s.cBind))
  }

  // ----- runs

  /** One settled batch: the sequence transition with its witness, the execution
      publics, and the stream the execution consumed, from whatever cursor its
      prover used. */
  datatype Batch = Batch(pub: Public, wit: Witness, verifierId: Hash32, exec: ExecutionPublic,
                         consumed: seq<ExecutionItem>, start: nat)

  /** Both proofs mean what they say: the transition is accepted for the pinned
      namespace, and the execution ran the stream its root commits to. */
  ghost predicate Proved(h: Hasher, a: Authenticator, ns: nat, b: Batch) {
    && b.pub.namespaceId == ns && Accepts(h, a, b.pub, b.wit)
    && b.exec.executionStreamRoot == StreamRoot(h, b.exec.domainHash, b.start, b.consumed)
  }

  /** The head after every batch joins in turn, if all do. */
  function Settle(head: Head, batches: seq<Batch>): Joined
    decreases |batches|
  {
    if batches == [] then Advanced(head)
    else
      var before := Settle(head, batches[..|batches| - 1]);
      var b := batches[|batches| - 1];
      if before.Refused? then before else AdvanceHead(before.head, ToJoin(b.pub, b.verifierId), b.exec)
  }

  function AllReceipts(batches: seq<Batch>): seq<Receipt>
    decreases |batches|
  {
    if batches == [] then [] else AllReceipts(batches[..|batches| - 1]) + batches[|batches| - 1].wit.receipts
  }

  function AllConsumed(batches: seq<Batch>): seq<ExecutionItem>
    decreases |batches|
  {
    if batches == [] then [] else AllConsumed(batches[..|batches| - 1]) + batches[|batches| - 1].consumed
  }

  /** The namespace's resolutions of the whole run, in receipt order. */
  ghost function AllResolved(h: Hasher, a: Authenticator, ns: nat, batches: seq<Batch>): seq<ResolvedItem>
    requires forall i | 0 <= i < |batches| :: Proved(h, a, ns, batches[i])
    decreases |batches|
  {
    if batches == [] then []
    else
      var b := batches[|batches| - 1];
      assert Proved(h, a, ns, b);
      AllResolved(h, a, ns, batches[..|batches| - 1]) + InReceiptOrder(b.wit.items, Protected(b.wit.receipts, ns))
  }

  lemma {:induction false} ProtectedConcat(a: seq<Receipt>, b: seq<Receipt>, ns: nat)
    ensures Protected(a + b, ns) == Protected(a, ns) + Protected(b, ns)
    decreases |b|
  {
    if b == [] {
      assert a + b == a;
    } else {
      ProtectedConcat(a, b[..|b| - 1], ns);
      assert (a + b)[..|a + b| - 1] == a + b[..|b| - 1];
    }
  }

  /** The k-th item is for the k-th receipt. */
  ghost predicate ItemOf(r: Receipt, item: ResolvedItem) {
    && item.derived.tick == r.tick && item.derived.position == r.position && item.derived.envelopeHash == r.envelopeHash
    && item.derived.receiptDigest == item.receiptDigest == r.digest && TerminalGood(item)
  }

  ghost predicate ItemsOf(rs: seq<Receipt>, items: seq<ResolvedItem>) {
    |rs| == |items| && forall k | 0 <= k < |rs| :: ItemOf(rs[k], items[k])
  }

  /** What one accepted and joined batch consumed. */
  lemma BatchConsumes(h: Hasher, a: Authenticator, ns: nat, head: Head, b: Batch)
    requires Injective(h) && Proved(h, a, ns, b) && AdvanceHead(head, ToJoin(b.pub, b.verifierId), b.exec).Advanced?
    ensures var protected := Protected(b.wit.receipts, ns);
            var next := AdvanceHead(head, ToJoin(b.pub, b.verifierId), b.exec).head;
            && AllResolve(b.wit.items, protected)
            && b.consumed == Executed(InReceiptOrder(b.wit.items, protected))
            && ItemsOf(protected, InReceiptOrder(b.wit.items, protected))
            && next.globalCursor == head.globalCursor + |b.wit.receipts|
            && next.namespaceCount == head.namespaceCount + |b.consumed|
            && |b.wit.items| == |protected|
    ensures forall i | 0 <= i < |b.wit.receipts| :: b.wit.receipts[i].globalCursor == head.globalCursor + 1 + i
    ensures forall k | 0 <= k < |b.consumed| :: b.consumed[k].logicalIndex == k
  {
    hide StreamRoot;
    hide ItemsRoot;
    var protected := Protected(b.wit.receipts, ns);
    var resolved := InReceiptOrder(b.wit.items, protected);
    StreamRootInjective(h, b.pub.oldState.domainHash, b.exec.domainHash, b.pub.oldState.globalCursor, b.start,
                        Executed(resolved), b.consumed);
    forall i | 0 <= i < |b.wit.receipts|
      ensures b.wit.receipts[i].globalCursor == head.globalCursor + 1 + i
    {
      assert ReceiptGood(a, b.pub, b.wit.receipts, i);
    }
    forall k | 0 <= k < |protected|
      ensures ItemOf(protected[k], resolved[k]) && Executed(resolved)[k].logicalIndex == k
    {
      assert ResolvedAt(a, b.pub, b.wit.items, protected, k);
    }
  }

  /** Exact consumption over any run of joined batches. The receipts of all
      batches carry the cursors from the genesis head on, each once and in order;
      what was executed is, item by item, the projection of those receipts to the
      namespace; and the counters of the head count exactly these. */
  lemma {:induction false} RunConsumesExactly(h: Hasher, a: Authenticator, ns: nat, head: Head, batches: seq<Batch>)
    requires Injective(h) && Settle(head, batches).Advanced?
    requires forall i | 0 <= i < |batches| :: Proved(h, a, ns, batches[i])
    ensures var final := Settle(head, batches).head;
            var receipts := AllReceipts(batches);
            var resolved := AllResolved(h, a, ns, batches);
            && AllConsumed(batches) == Executed(resolved)
            && ItemsOf(Protected(receipts, ns), resolved)
            && final.globalCursor == head.globalCursor + |receipts|
            && final.namespaceCount == head.namespaceCount + |AllConsumed(batches)|
    ensures forall i | 0 <= i < |AllReceipts(batches)| ::
      AllReceipts(batches)[i].globalCursor == head.globalCursor + 1 + i
    decreases |batches|
  {
    if batches != [] {
      hide Proved;
      hide AdvanceHead;
      hide ItemOf;
      hide Protected;
      hide AllResolve;
      hide Executed;
      var front, b := batches[..|batches| - 1], batches[|batches| - 1];
      RunConsumesExactly(h, a, ns, head, front);
      assert Proved(h, a, ns, b);
      BatchConsumes(h, a, ns, Settle(head, front).head, b);
      ProtectedConcat(AllReceipts(front), b.wit.receipts, ns);
      JoinItems(Protected(AllReceipts(front), ns), AllResolved(h, a, ns, front), Protected(b.wit.receipts, ns),
                InReceiptOrder(b.wit.items, Protected(b.wit.receipts, ns)));
    }
  }

  lemma JoinItems(rs: seq<Receipt>, items: seq<ResolvedItem>, rs': seq<Receipt>, items': seq<ResolvedItem>)
    requires ItemsOf(rs, items) && ItemsOf(rs', items')
    ensures ItemsOf(rs + rs', items + items') && Executed(items + items') == Executed(items) + Executed(items')
  {
    forall k | 0 <= k < |rs + rs'|
      ensures ItemOf((rs + rs')[k], (items + items')[k])
    {}
  }

  /** A batch's resolutions and its namespace receipts correspond one to one. */
  lemma ResolutionsAreBijective(h: Hasher, a: Authenticator, p: Public, w: Witness, j: nat)
    requires Accepts(h, a, p, w) && j < |w.items|
    ensures exists k :: IsReceiptOf(w, p.namespaceId, j, k)
    ensures forall k, m :: IsReceiptOf(w, p.namespaceId, j, k) && IsReceiptOf(w, p.namespaceId, j, m) ==> k == m
  {
    forall i | 0 <= i < |w.receipts|
      ensures NewDigest(w.receipts, i)
    {
      assert ReceiptGood(a, p, w.receipts, i);
    }
    OneReceiptEach(p, w, j);
  }

  lemma OneReceiptEach(p: Public, w: Witness, j: nat)
    requires j < |w.items| == |Protected(w.receipts, p.namespaceId)|
    requires ResolutionsGood(w, |w.items|) && AllResolve(w.items, Protected(w.receipts, p.namespaceId))
    requires forall i | 0 <= i < |w.receipts| :: NewDigest(w.receipts, i)
    ensures exists k :: IsReceiptOf(w, p.namespaceId, j, k)
    ensures forall k, m :: IsReceiptOf(w, p.namespaceId, j, k) && IsReceiptOf(w, p.namespaceId, j, m) ==> k == m
  {
    var protected := Protected(w.receipts, p.namespaceId);
    ProtectedDistinct(w.receipts, p.namespaceId);
    var table := TableOf(w, |w.items|);
    SurplusIsOrphan(p, w, protected, table);
    hide ResolutionsGood;
    hide AllResolve;
    hide NewDigest;
    hide Tabulates;
    hide Protected;
    assert Names(protected, w.items[j].receiptDigest);
    var k :| 0 <= k < |protected| && protected[k].digest == w.items[j].receiptDigest;
    assert IsReceiptOf(w, p.namespaceId, j, k);
  }

  ghost predicate IsReceiptOf(w: Witness, ns: nat, j: nat, k: nat) {
    j < |w.items| && k < |Protected(w.receipts, ns)| && Protected(w.receipts, ns)[k].digest == w.items[j].receiptDigest
  }

  lemma {:induction false} ProtectedDistinct(rs: seq<Receipt>, ns: nat)
    requires forall i | 0 <= i < |rs| :: NewDigest(rs, i)
    ensures forall k, m | 0 <= k < m < |Protected(rs, ns)| :: Protected(rs, ns)[k].digest != Protected(rs, ns)[m].digest
    decreases |rs|
  {
    if rs != [] {
      var n := |rs| - 1;
      forall i | 0 <= i < n
        ensures NewDigest(rs[..n], i)
      {
        assert NewDigest(rs, i);
      }
      ProtectedDistinct(rs[..n], ns);
      assert NewDigest(rs, n);
      ProtectedMembers(rs[..n], ns);
      forall k | 0 <= k < |Protected(rs[..n], ns)|
        ensures Protected(rs[..n], ns)[k].digest != rs[n].digest
      {
        assert Protected(rs[..n], ns)[k] in rs[..n];
      }
    }
  }
}
