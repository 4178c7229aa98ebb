/** What the join carries from batch to batch, over runs of the join and of the
    contract (crates/continuum-lighter-plugin/src/join.rs:71-135,
    contracts/production/ContinuumLighterBinding.sol:136-199), and what its
    binding hash commits to. */
module JoinLaws {
  import opened Streams
  import opened Sequence
  import opened Join
  import opened Settlement

  // ----- one join

  /** Both publics speak of the head's chain and were made by its provers. */
  predicate SameChain(head: Head, s: SequencePublic, x: ExecutionPublic) {
    && s.domainHash == x.domainHash == head.domainHash && s.epoch == x.epoch == head.epoch
    && s.verifierId == head.sequenceVerifierId && x.verifierId == head.executionVerifierId
  }

  /** Everything carried starts where the head stands. */
  predicate StartsAt(head: Head, s: SequencePublic, x: ExecutionPublic) {
    && s.oldGlobalCursor == head.globalCursor && s.oldNamespaceCount == head.namespaceCount
    && s.oldTranscriptRoot == head.transcriptRoot && s.priorityStart == head.priorityHead
    && x.oldStateRoot == head.stateRoot
  }

  /** Order and execution are of the same items, which account for the count; the
      span is not empty. */
  predicate SameItems(s: SequencePublic, x: ExecutionPublic) {
    && s.newGlobalCursor > s.oldGlobalCursor && s.priorityEnd >= s.priorityStart
    && s.newNamespaceCount == s.oldNamespaceCount + s.orderedItemCount && x.orderedItemCount == s.orderedItemCount
    && x.orderedItemRoot == s.orderedItemRoot && x.executionStreamRoot == s.executionStreamRoot
    && s.cBind == x.cBind == x.blobCBind
  }

  predicate Joins(head: Head, s: SequencePublic, x: ExecutionPublic) {
    SameChain(head, s, x) && StartsAt(head, s, x) && SameItems(s, x)
  }

  /** The refusal's own complaint. */
  predicate Complaint(head: Head, s: SequencePublic, x: ExecutionPublic, e: JoinError) {
    match e
    case DomainMismatch => s.domainHash != head.domainHash || x.domainHash != head.domainHash
    case EpochMismatch => s.epoch != head.epoch || x.epoch != head.epoch
    case SequenceVerifierMismatch => s.verifierId != head.sequenceVerifierId
    case ExecutionVerifierMismatch => x.verifierId != head.executionVerifierId
    case CursorContinuity => s.oldGlobalCursor != head.globalCursor || s.newGlobalCursor <= head.globalCursor
    case NamespaceContinuity => s.oldNamespaceCount != head.namespaceCount || s.newNamespaceCount < head.namespaceCount
    case TranscriptContinuity => s.oldTranscriptRoot != head.transcriptRoot
    case StateRootContinuity => x.oldStateRoot != head.stateRoot
    case PriorityContinuity => s.priorityStart != head.priorityHead || s.priorityEnd < head.priorityHead
    case BindingMismatch => s.cBind != x.cBind
    case BlobBindingMismatch => x.blobCBind != x.cBind
    case StreamMismatch => s.orderedItemRoot != x.orderedItemRoot || s.executionStreamRoot != x.executionStreamRoot
    case CountMismatch =>
      s.orderedItemCount != x.orderedItemCount || s.newNamespaceCount != s.oldNamespaceCount + s.orderedItemCount
  }

  /** The join advances exactly when the publics join, and otherwise complains of
      something that is so. */
  lemma AdvancesIff(head: Head, s: SequencePublic, x: ExecutionPublic)
    ensures var r := AdvanceHead(head, s, x);
            && (r.Advanced? <==> Joins(head, s, x))
            && (r.Refused? ==> Complaint(head, s, x, r.error))
  {}

  // ----- runs of the join

  function CursorBefore(head: Head, batches: seq<Batch>, i: nat): nat
    requires i <= |batches|
  {
    if i == 0 then head.globalCursor else batches[i - 1].pub.newState.globalCursor
  }

  function CountBefore(head: Head, batches: seq<Batch>, i: nat): nat
    requires i <= |batches|
  {
    if i == 0 then head.namespaceCount else batches[i - 1].pub.newState.namespaceItemCount
  }

  function TranscriptBefore(head: Head, batches: seq<Batch>, i: nat): Hash32
    requires i <= |batches|
  {
    if i == 0 then head.transcriptRoot else batches[i - 1].pub.newState.transcriptRoot
  }

  function StateBefore(head: Head, batches: seq<Batch>, i: nat): Hash32
    requires i <= |batches|
  {
    if i == 0 then head.stateRoot else batches[i - 1].exec.newStateRoot
  }

  function PriorityBefore(head: Head, batches: seq<Batch>, i: nat): nat
    requires i <= |batches|
  {
    if i == 0 then head.priorityHead else batches[i - 1].pub.binding.priorityEnd
  }

  function BindingBefore(head: Head, batches: seq<Batch>, i: nat): Hash32
    requires i <= |batches|
  {
    if i == 0 then head.lastCBind else batches[i - 1].pub.cBind
  }

  /** Batch i is of the head's chain, starts in what batch i - 1 left (in the head, for
      the first), and orders what it executes. */
  ghost predicate Continues(head: Head, batches: seq<Batch>, i: nat)
    requires i < |batches|
  {
    var b := batches[i];
    var s := ToJoin(b.pub, b.verifierId);
    && SameChain(head, s, b.exec) && SameItems(s, b.exec)
    && b.pub.oldState.globalCursor == CursorBefore(head, batches, i)
    && b.pub.oldState.namespaceItemCount == CountBefore(head, batches, i)
    && b.pub.oldState.transcriptRoot == TranscriptBefore(head, batches, i)
    && b.exec.oldStateRoot == StateBefore(head, batches, i)
    && b.pub.binding.priorityStart == PriorityBefore(head, batches, i)
  }

  ghost predicate AllContinue(head: Head, batches: seq<Batch>, n: nat)
    requires n <= |batches|
  {
    forall i | 0 <= i < n :: Continues(head, batches, i)
  }

  /** The head after the batches: what the last one left, on the same chain. */
  function HeadLeft(head: Head, batches: seq<Batch>): Head {
    var n := |batches|;
    Head(head.domainHash, head.sequenceVerifierId, head.executionVerifierId, head.epoch,
         CursorBefore(head, batches, n), CountBefore(head, batches, n), TranscriptBefore(head, batches, n),
         StateBefore(head, batches, n), PriorityBefore(head, batches, n), BindingBefore(head, batches, n))
  }

  /** A run of batches joins exactly when each continues the one before it, and then
      the head is what the last one left: nothing is skipped, forked or replayed in
      cursor, count, transcript, execution state or priority queue. */
  lemma {:induction false} RunJoinsIff(head: Head, batches: seq<Batch>)
    ensures Settle(head, batches).Advanced? <==> AllContinue(head, batches, |batches|)
    ensures Settle(head, batches).Advanced? ==> Settle(head, batches).head == HeadLeft(head, batches)
    decreases |batches|
  {
    if batches != [] {
      var n := |batches| - 1;
      var front := batches[..n];
      RunJoinsIff(head, front);
      FrontContinues(head, batches);
      if Settle(head, front).Advanced? {
        var b := batches[n];
        var s := ToJoin(b.pub, b.verifierId);
        AdvancesIff(HeadLeft(head, front), s, b.exec);
        LastContinues(head, batches);
        hide Continues;
      }
    }
  }

  lemma FrontContinues(head: Head, batches: seq<Batch>)
    requires batches != []
    ensures AllContinue(head, batches, |batches|)
       <==> AllContinue(head, batches[..|batches| - 1], |batches| - 1) && Continues(head, batches, |batches| - 1)
  {
    var n := |batches| - 1;
    var front := batches[..n];
    forall i | 0 <= i < n
      ensures Continues(head, batches, i) <==> Continues(head, front, i)
    {
      hide SameChain;
      hide SameItems;
      hide ToJoin;
    }
    hide Continues;
  }

  /** The last batch continues the run exactly when it joins the head left before it. */
  lemma LastContinues(head: Head, batches: seq<Batch>)
    requires batches != []
    ensures var b, front := batches[|batches| - 1], batches[..|batches| - 1];
            Continues(head, batches, |batches| - 1)
            <==> Joins(HeadLeft(head, front), ToJoin(b.pub, b.verifierId), b.exec)
  {
    var n := |batches| - 1;
    var front := batches[..n];
    assert n > 0 ==> front[n - 1] == batches[n - 1];
    hide SameItems;
  }

  // ----- runs of the contract

  /** A call finalises exactly when its batch is pending with these commitments, its
      publics join the head, and both proofs verify. */
  lemma FinalizesIff(v: Verifiers, st: State, c: Call)
    requires c.Finalize?
    ensures Finalizes(v, st, c)
       <==> c.batchId in st.pending
            && st.pending[c.batchId] == PendingBatch(c.x.batchCommitment, c.x.blobVersionedHash, c.x.cBind)
            && Joins(st.head, c.s, c.x.Joined())
            && v.sequence(c.sequenceProof, OfSequence(c.s))
            && v.execution(c.executionProof, OfExecution(c.batchId, c.x))
  {
    AdvancesIff(st.head, c.s, c.x.Joined());
  }

  /** Whoever calls what, the contract's head is what its last finalised batch left,
      and every finalised batch continues the one before it, from the starting head. */
  lemma ContractHeadIsLeft(h: Hasher, a: Authenticator, ns: nat, v: Verifiers, st: State, calls: seq<Call>)
    returns (batches: seq<Batch>)
    requires Sound(h, a, ns, v)
    ensures AllExplained(h, a, ns, Finalized(v, st, calls), batches)
    ensures AllContinue(st.head, batches, |batches|) && RunCalls(v, st, calls).head == HeadLeft(st.head, batches)
  {
    batches := ContractRunsAreJoins(h, a, ns, v, st, calls);
    RunJoinsIff(st.head, batches);
  }

  // ----- what the publics commit to

  /** What a prover is free to choose beside the witness: the authenticated new
      transcript root, plan and availability commitments, and the publics that the
      transition only carries. */
  predicate SameChoices(p: Public, q: Public) {
    && p.namespaceId == q.namespaceId && p.oldState == q.oldState
    && p.newState.transcriptRoot == q.newState.transcriptRoot && p.newState.framePlanRoot == q.newState.framePlanRoot
    && p.newState.daCommitment == q.newState.daCommitment
    && p.binding.priorityStart == q.binding.priorityStart && p.binding.priorityEnd == q.binding.priorityEnd
    && p.binding.priorityRoot == q.binding.priorityRoot
    && p.binding.oracleSnapshotRoot == q.binding.oracleSnapshotRoot
    && p.binding.protocolEventRoot == q.binding.protocolEventRoot
    && p.binding.l1OriginHash == q.binding.l1OriginHash && p.binding.policyHash == q.binding.policyHash
    && p.binding.decryptionModuleId == q.binding.decryptionModuleId
  }

  /** Nothing else is free: one witness over one old state leaves no choice in any
      cursor, count, root, chain end or binding hash of an accepted transition. */
  lemma AcceptedPublicsAreDetermined(h: Hasher, a: Authenticator, p: Public, q: Public, w: Witness)
    requires Accepts(h, a, p, w) && Accepts(h, a, q, w) && SameChoices(p, q)
    ensures p == q
  {
    hide ReceiptsGood;
    hide ResolutionsGood;
    hide ItemsGood;
    hide ItemsRoot;
    hide StreamRoot;
    assert p.binding == q.binding;
    assert p.newState == q.newState;
  }

  /** The binding hash commits to the batch: two accepted transitions with one hash
      have the same binding inputs, the same namespace receipts as far as these are
      derived, and the same items and executions in the same order. */
  lemma BindingHashFixesBatch(h: Hasher, a: Authenticator, p: Public, w: Witness, p': Public, w': Witness)
    requires Injective(h) && Accepts(h, a, p, w) && Accepts(h, a, p', w') && p.cBind == p'.cBind
    ensures p.binding == p'.binding && |w.receipts| == |w'.receipts|
    ensures var rs, rs' := Protected(w.receipts, p.namespaceId), Protected(w'.receipts, p'.namespaceId);
            var items, items' := InReceiptOrder(w.items, rs), InReceiptOrder(w'.items, rs');
            && |rs| == |rs'| && Derived(items) == Derived(items') && Executed(items) == Executed(items')
            && forall k | 0 <= k < |rs| ::
                 && rs[k].tick == rs'[k].tick && rs[k].position == rs'[k].position
                 && rs[k].envelopeHash == rs'[k].envelopeHash && rs[k].digest == rs'[k].digest
  {
    hide ReceiptsGood;
    hide ResolutionsGood;
    hide ItemsGood;
    hide StateFits;
    hide ItemsRoot;
    hide StreamRoot;
    hide Protected;
    hide AllResolve;
    SpanLength(h, a, p, w);
    SpanLength(h, a, p', w');
    RootsOf(h, a, p, w);
    RootsOf(h, a, p', w');
    DerivedNameReceipts(h, a, p, w);
    DerivedNameReceipts(h, a, p', w');
    var rs, rs' := Protected(w.receipts, p.namespaceId), Protected(w'.receipts, p'.namespaceId);
    var items, items' := InReceiptOrder(w.items, rs), InReceiptOrder(w'.items, rs');
    SameRoots(h, p, p', Derived(items), Derived(items'), Executed(items), Executed(items'));
    hide Accepts;
    forall k | 0 <= k < |rs|
      ensures rs[k].tick == rs'[k].tick && rs[k].position == rs'[k].position
      ensures rs[k].envelopeHash == rs'[k].envelopeHash && rs[k].digest == rs'[k].digest
    {
      assert Derived(items)[k] == Derived(items')[k];
    }
  }

  /** The roots and the hash of a transition are those of what it carries. */
  ghost predicate CommitsTo(h: Hasher, p: Public, derived: seq<DerivedItem>, executed: seq<ExecutionItem>) {
    && p.cBind == h(Streams.Binding(p.binding))
    && p.binding.executionStreamRoot == StreamRoot(h, p.oldState.domainHash, p.oldState.globalCursor, executed)
    && p.binding.orderedItemRoot
       == ItemsRoot(h, p.oldState.domainHash, FrameOf(derived), p.oldState.globalCursor, derived)
  }

  lemma RootsOf(h: Hasher, a: Authenticator, p: Public, w: Witness)
    requires Accepts(h, a, p, w)
    ensures var items := InReceiptOrder(w.items, Protected(w.receipts, p.namespaceId));
            CommitsTo(h, p, Derived(items), Executed(items))
  {}

  lemma SameRoots(h: Hasher, p: Public, p': Public, derived: seq<DerivedItem>, derived': seq<DerivedItem>,
                  executed: seq<ExecutionItem>, executed': seq<ExecutionItem>)
    requires Injective(h) && CommitsTo(h, p, derived, executed) && CommitsTo(h, p', derived', executed')
    requires p.cBind == p'.cBind
    ensures p.binding == p'.binding && derived == derived' && executed == executed'
  {
    assert Streams.Binding(p.binding) == Streams.Binding(p'.binding);
    StreamRootInjective(h, p.oldState.domainHash, p'.oldState.domainHash, p.oldState.globalCursor,
                        p'.oldState.globalCursor, executed, executed');
    ItemsRootInjective(h, p.oldState.domainHash, p'.oldState.domainHash, FrameOf(derived), FrameOf(derived'),
                       p.oldState.globalCursor, p'.oldState.globalCursor, derived, derived');
  }

  /** The cursors of the binding count the span. */
  lemma SpanLength(h: Hasher, a: Authenticator, p: Public, w: Witness)
    requires Accepts(h, a, p, w)
    ensures p.binding.newGlobalCursor == p.binding.oldGlobalCursor + |w.receipts| && w.receipts != []
  {
    hide ItemsGood;
    hide ResolutionsGood;
    hide ItemsRoot;
    hide StreamRoot;
    assert ReceiptGood(a, p, w.receipts, |w.receipts| - 1);
  }

  lemma DerivedNameReceipts(h: Hasher, a: Authenticator, p: Public, w: Witness)
    requires Accepts(h, a, p, w)
    ensures var rs := Protected(w.receipts, p.namespaceId);
            var derived := Derived(InReceiptOrder(w.items, rs));
            forall k | 0 <= k < |rs| ::
              && derived[k].tick == rs[k].tick && derived[k].position == rs[k].position
              && derived[k].envelopeHash == rs[k].envelopeHash && derived[k].receiptDigest == rs[k].digest
  {
    hide ReceiptsGood;
    hide ResolutionsGood;
    hide ItemsRoot;
    hide StreamRoot;
    var rs := Protected(w.receipts, p.namespaceId);
    forall k | 0 <= k < |rs|
      ensures var d := Derived(InReceiptOrder(w.items, rs))[k];
              && d.tick == rs[k].tick && d.position == rs[k].position
              && d.envelopeHash == rs[k].envelopeHash && d.receiptDigest == rs[k].digest
    {
      assert ResolvedAt(a, p, w.items, rs, k);
    }
  }
}
