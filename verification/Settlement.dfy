/** The on-chain join (contracts/production/ContinuumLighterBinding.sol), refining
    `Join.AdvanceHead`. */
module Settlement {
  import opened Streams
  import opened Sequence
  import opened Join

  datatype HostExecution = HostExecution(
    domainHash: Hash32, verifierId: Hash32, epoch: nat, oldStateRoot: Hash32, newStateRoot: Hash32,
    orderedItemRoot: Hash32, executionStreamRoot: Hash32, orderedItemCount: nat, batchCommitment: Hash32,
    blobVersionedHash: Hash32, blobCBind: Hash32, cBind: Hash32)
  {
    /** The part the join relates. */
    function Joined(): ExecutionPublic {
      ExecutionPublic(domainHash, verifierId, epoch, oldStateRoot, newStateRoot, orderedItemRoot, executionStreamRoot,
                      orderedItemCount, blobCBind, cBind)
    }
  }

  datatype PendingBatch = PendingBatch(batchCommitment: Hash32, blobVersionedHash: Hash32, cBind: Hash32)

  type Proof = seq<nat>

  /** What a proof attests: the hash of the tagged publics, ideal. */
  datatype PublicHash = OfSequence(s: SequencePublic) | OfExecution(batchId: Hash32, x: HostExecution)

  datatype Verifiers = Verifiers(sequence: (Proof, PublicHash) -> bool, execution: (Proof, PublicHash) -> bool)

  datatype CallResult =
    | Success | BatchNotCommitted | BatchAlreadyCommitted | InvalidTransition | CBindMismatch | InvalidProof

  datatype State = State(head: Head, pending: map<Hash32, PendingBatch>)

  datatype Call =
    | Commit(batchId: Hash32, batch: PendingBatch)
    | Finalize(batchId: Hash32, sequenceProof: Proof, executionProof: Proof, s: SequencePublic, x: HostExecution)

  /** A call to finalise succeeds exactly when the batch is pending with these
      commitments, the join relation holds of the head, and both proofs verify. */
  predicate Finalizes(v: Verifiers, st: State, c: Call)
    requires c.Finalize?
  {
    && c.batchId in st.pending
    && c.x.batchCommitment == st.pending[c.batchId].batchCommitment
    && c.x.blobVersionedHash == st.pending[c.batchId].blobVersionedHash
    && c.x.cBind == st.pending[c.batchId].cBind
    && AdvanceHead(st.head, c.s, c.x.Joined()).Advanced?
    && v.sequence(c.sequenceProof, OfSequence(c.s)) && v.execution(c.executionProof, OfExecution(c.batchId, c.x))
  }

  predicate Commits(st: State, c: Call)
    requires c.Commit?
  {
    && c.batchId !in st.pending && c.batchId != 0
    && c.batch.batchCommitment != 0 && c.batch.blobVersionedHash != 0 && c.batch.cBind != 0
  }

  /** The state after a call; a failed call leaves it as it was. */
  function StateAfter(v: Verifiers, st: State, c: Call): State {
    if c.Commit? then (if Commits(st, c) then st.(pending := st.pending[c.batchId := c.batch]) else st)
    else if Finalizes(v, st, c) then State(AdvanceHead(st.head, c.s, c.x.Joined()).head, st.pending - {c.batchId})
    else st
  }

  class ContinuumBinding {
    const verifiers: Verifiers
    var head: Head
    var pendingBatches: map<Hash32, PendingBatch>

    constructor (verifiers: Verifiers, genesis: Head)
      requires genesis.domainHash != 0
      ensures this.verifiers == verifiers && Contents() == State(genesis, map[])
    {
      this.verifiers := verifiers;
      head, pendingBatches := genesis, map[];
    }

    function Contents(): State
      reads this
    {
      State(head, pendingBatches)
    }

    method CommitBatch(batchId: Hash32, batchCommitment: Hash32, blobVersionedHash: Hash32, cBind: Hash32)
      returns (r: CallResult)
      modifies this
      ensures Contents() == StateAfter(verifiers, old(Contents()),
                                       Commit(batchId, PendingBatch(batchCommitment, blobVersionedHash, cBind)))
      ensures r.Success? <==> Commits(old(Contents()),
                                      Commit(batchId, PendingBatch(batchCommitment, blobVersionedHash, cBind)))
      ensures r.BatchAlreadyCommitted? <==> batchId in old(pendingBatches)
      ensures !r.Success? ==> r.BatchAlreadyCommitted? || r.InvalidTransition?
    {
      if batchId in pendingBatches {
        return BatchAlreadyCommitted;
      }
      if batchId == 0 || batchCommitment == 0 || blobVersionedHash == 0 || cBind == 0 {
        return InvalidTransition;
      }
      pendingBatches := pendingBatches[batchId := PendingBatch(batchCommitment, blobVersionedHash, cBind)];
      r := Success;
    }

    method VerifyAndAdvance(batchId: Hash32, sequenceProof: Proof, executionProof: Proof, s: SequencePublic,
                            x: HostExecution)
      returns (r: CallResult)
      modifies this
      ensures Contents() == StateAfter(verifiers, old(Contents()),
                                       Finalize(batchId, sequenceProof, executionProof, s, x))
      ensures r.Success? <==> Finalizes(verifiers, old(Contents()),
                                        Finalize(batchId, sequenceProof, executionProof, s, x))
      ensures r.BatchNotCommitted? <==> batchId !in old(pendingBatches)
      ensures r.InvalidProof? ==> AdvanceHead(old(head), s, x.Joined()).Advanced?
      ensures var j := AdvanceHead(old(head), s, x.Joined());
              r.CBindMismatch? && j.Refused? ==> j.error in {BindingMismatch, BlobBindingMismatch}
    {
      if batchId !in pendingBatches {
        return BatchNotCommitted;
      }
      var pending, before := pendingBatches[batchId], head;
      if s.domainHash != before.domainHash || x.domainHash != before.domainHash || s.epoch != before.epoch
         || x.epoch != before.epoch
         || s.verifierId != before.sequenceVerifierId || x.verifierId != before.executionVerifierId
         || s.oldGlobalCursor != before.globalCursor || s.newGlobalCursor <= s.oldGlobalCursor
         || s.oldNamespaceCount != before.namespaceCount || s.newNamespaceCount < s.oldNamespaceCount
         || s.orderedItemCount != s.newNamespaceCount - s.oldNamespaceCount || s.orderedItemCount != x.orderedItemCount
         || s.orderedItemRoot != x.orderedItemRoot || s.executionStreamRoot != x.executionStreamRoot
         || s.oldTranscriptRoot != before.transcriptRoot || x.oldStateRoot != before.stateRoot
         || s.priorityStart != before.priorityHead || s.priorityEnd < s.priorityStart
         || x.batchCommitment != pending.batchCommitment || x.blobVersionedHash != pending.blobVersionedHash
      {
        return InvalidTransition;
      }
      if s.cBind != x.cBind || x.blobCBind != x.cBind || pending.cBind != x.cBind {
        return CBindMismatch;
      }
      if !verifiers.sequence(sequenceProof, OfSequence(s)) {
        return InvalidProof;
      }
      if !verifiers.execution(executionProof, OfExecution(batchId, x)) {
        return InvalidProof;
      }
      head := head.(globalCursor := s.newGlobalCursor, namespaceCount := s.newNamespaceCount,
                    transcriptRoot := s.newTranscriptRoot, stateRoot := x.newStateRoot, priorityHead := s.priorityEnd,
                    lastCBind := s.cBind);
      pendingBatches := pendingBatches - {batchId};
      r := Success;
    }
  }

  // ----- runs of the contract

  function RunCalls(v: Verifiers, st: State, calls: seq<Call>): State
    decreases |calls|
  {
    if calls == [] then st else StateAfter(v, RunCalls(v, st, calls[..|calls| - 1]), calls[|calls| - 1])
  }

  /** The calls that finalised a batch, in order. */
  function Finalized(v: Verifiers, st: State, calls: seq<Call>): seq<Call>
    decreases |calls|
  {
    if calls == [] then []
    else
      var before := RunCalls(v, st, calls[..|calls| - 1]);
      var c := calls[|calls| - 1];
      Finalized(v, st, calls[..|calls| - 1]) + if c.Finalize? && Finalizes(v, before, c) then [c] else []
  }

  /** The verifiers are sound: a sequence proof comes from an accepted transition of
      the pinned namespace, and an execution proof from a stream with its root. */
  ghost predicate Sound(h: Hasher, a: Authenticator, ns: nat, v: Verifiers) {
    && (forall proof, s :: v.sequence(proof, OfSequence(s)) ==> exists b :: SequenceWitness(h, a, ns, s, b))
    && (forall proof, id, x :: v.execution(proof, OfExecution(id, x)) ==> exists b :: ExecutionWitness(h, x, b))
  }

  ghost predicate SequenceWitness(h: Hasher, a: Authenticator, ns: nat, s: SequencePublic, b: Batch) {
    b.pub.namespaceId == ns && Accepts(h, a, b.pub, b.wit) && ToJoin(b.pub, b.verifierId) == s
  }

  ghost predicate ExecutionWitness(h: Hasher, x: HostExecution, b: Batch) {
    b.exec == x.Joined() && x.executionStreamRoot == StreamRoot(h, x.domainHash, b.start, b.consumed)
  }

  /** The batch behind a finalised call. */
  ghost predicate Explains(h: Hasher, a: Authenticator, ns: nat, c: Call, b: Batch) {
    c.Finalize? && Proved(h, a, ns, b) && ToJoin(b.pub, b.verifierId) == c.s && b.exec == c.x.Joined()
  }

  ghost predicate AllExplained(h: Hasher, a: Authenticator, ns: nat, calls: seq<Call>, batches: seq<Batch>) {
    |calls| == |batches| && forall i | 0 <= i < |calls| :: Explains(h, a, ns, calls[i], batches[i])
  }

  lemma FinalizedHasBatch(h: Hasher, a: Authenticator, ns: nat, v: Verifiers, st: State, c: Call) returns (b: Batch)
    requires Sound(h, a, ns, v) && c.Finalize? && Finalizes(v, st, c)
    ensures Explains(h, a, ns, c, b)
  {
    var s :| SequenceWitness(h, a, ns, c.s, s);
    var x :| ExecutionWitness(h, c.x, x);
    b := Batch(s.pub, s.wit, s.verifierId, c.x.Joined(), x.consumed, x.start);
  }

  /** Whoever calls what in whatever order, the finalised calls are a run of the
      join from the starting head, one batch behind each. So `RunConsumesExactly`
      holds of every head the contract ever shows. */
  lemma {:induction false} ContractRunsAreJoins(h: Hasher, a: Authenticator, ns: nat, v: Verifiers, st: State,
                                                calls: seq<Call>)
    returns (batches: seq<Batch>)
    requires Sound(h, a, ns, v)
    ensures AllExplained(h, a, ns, Finalized(v, st, calls), batches)
    ensures Settle(st.head, batches) == Advanced(RunCalls(v, st, calls).head)
    decreases |calls|
  {
    batches := [];
    if calls != [] {
      var front, c := calls[..|calls| - 1], calls[|calls| - 1];
      var before := RunCalls(v, st, front);
      batches := ContractRunsAreJoins(h, a, ns, v, st, front);
      hide Sound;
      hide Explains;
      hide AdvanceHead;
      if c.Finalize? && Finalizes(v, before, c) {
        batches := ExtendRun(h, a, ns, v, st.head, Finalized(v, st, front), batches, before, c);
      }
    }
  }

  lemma ExtendRun(h: Hasher, a: Authenticator, ns: nat, v: Verifiers, head: Head, calls: seq<Call>, batches: seq<Batch>,
                  before: State, c: Call)
    returns (grown: seq<Batch>)
    requires Sound(h, a, ns, v) && AllExplained(h, a, ns, calls, batches)
    requires Settle(head, batches) == Advanced(before.head) && c.Finalize? && Finalizes(v, before, c)
    ensures AllExplained(h, a, ns, calls + [c], grown)
    ensures Settle(head, grown) == AdvanceHead(before.head, c.s, c.x.Joined())
  {
    var b := FinalizedHasBatch(h, a, ns, v, before, c);
    hide Sound;
    hide AdvanceHead;
    grown := batches + [b];
    assert grown[..|batches|] == batches;
  }

  /** Every batch is committed before it is finalised, and a finalised id is free to
      be committed again: what is pending was committed with nonzero fields. */
  lemma {:induction false} PendingIsWellFormed(v: Verifiers, st: State, calls: seq<Call>, id: Hash32)
    requires st.pending == map[] && id in RunCalls(v, st, calls).pending
    ensures id != 0
    ensures exists c ::
              && c in calls && c == Commit(id, RunCalls(v, st, calls).pending[id])
              && c.batch.cBind != 0 && c.batch.batchCommitment != 0 && c.batch.blobVersionedHash != 0
    decreases |calls|
  {
    if calls != [] {
      var front, c := calls[..|calls| - 1], calls[|calls| - 1];
      var before := RunCalls(v, st, front);
      hide Finalizes;
      if id in before.pending && RunCalls(v, st, calls).pending[id] == before.pending[id] {
        PendingIsWellFormed(v, st, front, id);
      } else {
        assert c == Commit(id, RunCalls(v, st, calls).pending[id]);
      }
    }
  }
}
