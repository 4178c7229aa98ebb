/** The structural verifier of a sequence transition
    (crates/continuum-lighter-plugin/src/sequence.rs). */
module Sequence {
  import opened Streams

  const U64_MAX: nat := 0xFFFF_FFFF_FFFF_FFFF

  datatype SequenceState = SequenceState(
    domainHash: Hash32, epoch: nat, globalCursor: nat, namespaceItemCount: nat, transcriptRoot: Hash32,
    receiptChainRoot: Hash32, framePlanRoot: Hash32, daCommitment: Hash32, configHash: Hash32)

  datatype Receipt = Receipt(
    epoch: nat, globalCursor: nat, tick: nat, position: nat, namespaceId: nat, envelopeHash: Hash32,
    previousDigest: Hash32, digest: Hash32, daLeaf: Hash32, signature: seq<nat>)

  datatype ResolvedItem = ResolvedItem(receiptDigest: Hash32, derived: DerivedItem, execution: ExecutionItem,
                                       openingCommitment: Hash32)

  datatype Public = Public(namespaceId: nat, oldState: SequenceState, newState: SequenceState, binding: BindingInputs,
                           cBind: Hash32)

  datatype Witness = Witness(receipts: seq<Receipt>, items: seq<ResolvedItem>)

  /** The cryptographic checks, as predicates. */
  datatype Authenticator = Authenticator(
    receipt: Receipt -> bool,
    da: (Receipt, Hash32) -> bool,
    resolution: (Receipt, ResolvedItem) -> bool,
    transcript: (Hash32, seq<Receipt>, Hash32) -> bool,
    frames: (Witness, Public) -> bool)

  datatype Error =
    | Domain | Epoch | Config | EmptySpan | Cursor | ReceiptOrder | ReceiptChain | DuplicateReceipt | DuplicateEnvelope
    | InvalidReceipt | InvalidDa | MissingResolution | DuplicateResolution | OrphanResolution | ResolutionBinding
    | InvalidTerminalSemantics | InvalidExecutionLeaf | Transcript | FrameCommitment | NewState | OrderedItemRoot
    | ExecutionStreamRoot | Binding

  // ----- what acceptance means

  predicate DomainAgrees(p: Public) {
    p.oldState.domainHash == p.newState.domainHash == p.binding.domainHash
  }

  predicate EpochAgrees(p: Public) {
    p.oldState.epoch == p.newState.epoch == p.binding.epoch
  }

  predicate After(q: Receipt, r: Receipt) {
    q.tick < r.tick || (q.tick == r.tick && q.position < r.position)
  }

  /** Receipt i stands at the next cursor, and the one after it still fits 64 bits. */
  predicate CursorFits(p: Public, rs: seq<Receipt>, i: nat)
    requires i < |rs|
  {
    rs[i].globalCursor == p.oldState.globalCursor + 1 + i && rs[i].globalCursor < U64_MAX
  }

  predicate InOrder(rs: seq<Receipt>, i: nat)
    requires i < |rs|
  {
    i > 0 ==> After(rs[i - 1], rs[i])
  }

  function DigestBefore(p: Public, rs: seq<Receipt>, i: nat): Hash32
    requires i <= |rs|
  {
    if i == 0 then p.oldState.receiptChainRoot else rs[i - 1].digest
  }

  ghost predicate NewDigest(rs: seq<Receipt>, i: nat)
    requires i < |rs|
  {
    forall j | 0 <= j < i :: rs[j].digest != rs[i].digest
  }

  ghost predicate NewEnvelope(rs: seq<Receipt>, i: nat)
    requires i < |rs|
  {
    forall j | 0 <= j < i :: rs[j].envelopeHash != rs[i].envelopeHash
  }

  ghost predicate ReceiptGood(a: Authenticator, p: Public, rs: seq<Receipt>, i: nat)
    requires i < |rs|
  {
    && rs[i].epoch == p.oldState.epoch && CursorFits(p, rs, i) && InOrder(rs, i)
    && rs[i].previousDigest == DigestBefore(p, rs, i) && NewDigest(rs, i) && NewEnvelope(rs, i)
    && a.receipt(rs[i]) && a.da(rs[i], p.newState.daCommitment)
  }

  function Protected(rs: seq<Receipt>, ns: nat): seq<Receipt>
    decreases |rs|
  {
    if rs == [] then []
    else Protected(rs[..|rs| - 1], ns) + if rs[|rs| - 1].namespaceId == ns then [rs[|rs| - 1]] else []
  }

  ghost predicate NewResolution(items: seq<ResolvedItem>, j: nat)
    requires j < |items|
  {
    forall k | 0 <= k < j :: items[k].receiptDigest != items[j].receiptDigest
  }

  ghost predicate Names(rs: seq<Receipt>, d: Hash32) {
    exists i :: 0 <= i < |rs| && rs[i].digest == d
  }

  ghost predicate Resolves(items: seq<ResolvedItem>, d: Hash32) {
    exists j :: 0 <= j < |items| && items[j].receiptDigest == d
  }

  ghost function ItemFor(items: seq<ResolvedItem>, d: Hash32): (item: ResolvedItem)
    requires Resolves(items, d)
    ensures item in items && item.receiptDigest == d
  {
    var j :| 0 <= j < |items| && items[j].receiptDigest == d;
    items[j]
  }

  predicate BindsReceipt(p: Public, r: Receipt, item: ResolvedItem) {
    && item.derived.domainHash == p.oldState.domainHash
    && item.derived.tick == r.tick && item.derived.position == r.position
    && item.derived.envelopeHash == r.envelopeHash && item.derived.receiptDigest == r.digest
  }

  predicate TerminalExecution(item: ResolvedItem) {
    && item.execution.terminalNoop && item.execution.txType == 0 && item.execution.txHash == [0, 0, 0, 0, 0]
    && item.execution.outcomeClass == item.derived.resolution.Code()
    && item.derived.terminalReason == item.execution.outcomeClass
  }

  /** A cleared item is a live transaction; every other one is a no-op that carries
      its reason, with no cleartext unless only its encoding was bad. */
  predicate TerminalGood(item: ResolvedItem) {
    match item.derived.resolution
    case Clear =>
      !item.execution.terminalNoop && item.execution.txType != 0 && item.derived.cleartextLength != 0
      && item.derived.terminalReason == 0
    case BadEncoding => TerminalExecution(item)
    case BadAead | L1Cancelled =>
      TerminalExecution(item) && item.derived.cleartextLength == 0 && item.derived.cleartextHash == [0, 0, 0, 0]
  }

  predicate ItemGood(a: Authenticator, p: Public, r: Receipt, item: ResolvedItem, logicalIndex: nat) {
    && BindsReceipt(p, r, item) && a.resolution(r, item) && TerminalGood(item)
    && item.execution.logicalIndex == logicalIndex
  }

  /** The k-th receipt of the namespace has a resolution, good at logical index k. */
  ghost predicate ResolvedAt(a: Authenticator, p: Public, items: seq<ResolvedItem>, protected: seq<Receipt>, k: nat)
    requires k < |protected|
  {
    Resolves(items, protected[k].digest) && ItemGood(a, p, protected[k], ItemFor(items, protected[k].digest), k)
  }

  ghost predicate AllResolve(items: seq<ResolvedItem>, protected: seq<Receipt>) {
    forall k | 0 <= k < |protected| :: Resolves(items, protected[k].digest)
  }

  /** The resolutions in receipt order. */
  ghost function InReceiptOrder(items: seq<ResolvedItem>, protected: seq<Receipt>): (s: seq<ResolvedItem>)
    requires AllResolve(items, protected)
    ensures |s| == |protected|
    ensures forall k | 0 <= k < |s| :: s[k] == ItemFor(items, protected[k].digest)
  {
    seq(|protected|, k requires 0 <= k < |protected| => ItemFor(items, protected[k].digest))
  }

  function Derived(items: seq<ResolvedItem>): (s: seq<DerivedItem>)
    ensures |s| == |items|
  {
    seq(|items|, k requires 0 <= k < |items| => items[k].derived)
  }

  function Executed(items: seq<ResolvedItem>): (s: seq<ExecutionItem>)
    ensures |s| == |items|
  {
    seq(|items|, k requires 0 <= k < |items| => items[k].execution)
  }

  function FrameOf(derived: seq<DerivedItem>): nat {
    if derived == [] then 0 else derived[0].frameId
  }

  predicate StateFits(p: Public, rs: seq<Receipt>, count: nat)
    requires rs != []
  {
    && p.oldState.namespaceItemCount + count <= U64_MAX
    && p.newState.globalCursor == rs[|rs| - 1].globalCursor
    && p.newState.namespaceItemCount == p.oldState.namespaceItemCount + count
    && p.newState.receiptChainRoot == rs[|rs| - 1].digest
    && p.newState.framePlanRoot == p.binding.framePlanRoot
    && p.newState.transcriptRoot == p.binding.newTranscriptRoot
    && p.oldState.transcriptRoot == p.binding.oldTranscriptRoot
    && p.oldState.globalCursor == p.binding.oldGlobalCursor && p.newState.globalCursor == p.binding.newGlobalCursor
  }

  predicate ItemsRootFits(h: Hasher, p: Public, derived: seq<DerivedItem>) {
    && p.binding.orderedItemRoot
       == ItemsRoot(h, p.oldState.domainHash, FrameOf(derived), p.oldState.globalCursor, derived)
    && p.binding.orderedItemCount == |derived|
  }

  predicate StreamFits(h: Hasher, p: Public, executed: seq<ExecutionItem>) {
    p.binding.executionStreamRoot == StreamRoot(h, p.oldState.domainHash, p.oldState.globalCursor, executed)
  }

  ghost predicate ReceiptsGood(a: Authenticator, p: Public, rs: seq<Receipt>, n: nat)
    requires n <= |rs|
  {
    forall i | 0 <= i < n :: ReceiptGood(a, p, rs, i)
  }

  /** Resolutions are distinct, each names a receipt of the span, and there are as
      many as the namespace has receipts. */
  ghost predicate ResolutionsGood(w: Witness, n: nat)
    requires n <= |w.items|
  {
    forall j | 0 <= j < n :: NewResolution(w.items, j) && Names(w.receipts, w.items[j].receiptDigest)
  }

  ghost predicate ItemsGood(a: Authenticator, p: Public, items: seq<ResolvedItem>, protected: seq<Receipt>, n: nat)
    requires n <= |protected|
  {
    forall k | 0 <= k < n :: ResolvedAt(a, p, items, protected, k)
  }

  /** Everything the verifier establishes. */
  ghost predicate Accepts(h: Hasher, a: Authenticator, p: Public, w: Witness) {
    var protected := Protected(w.receipts, p.namespaceId);
    && DomainAgrees(p) && EpochAgrees(p) && p.oldState.configHash == p.newState.configHash
    && w.receipts != [] && ReceiptsGood(a, p, w.receipts, |w.receipts|)
    && ResolutionsGood(w, |w.items|) && |w.items| == |protected|
    && AllResolve(w.items, protected) && ItemsGood(a, p, w.items, protected, |protected|)
    && a.transcript(p.oldState.transcriptRoot, w.receipts, p.newState.transcriptRoot) && a.frames(w, p)
    && StateFits(p, w.receipts, |protected|)
    && ItemsRootFits(h, p, Derived(InReceiptOrder(w.items, protected)))
    && StreamFits(h, p, Executed(InReceiptOrder(w.items, protected)))
    && p.cBind == h(Streams.Binding(p.binding))
  }

  /** The fault each error reports. */
  ghost predicate Fault(h: Hasher, a: Authenticator, p: Public, w: Witness, e: Error) {
    var rs, items, protected := w.receipts, w.items, Protected(w.receipts, p.namespaceId);
    match e
    case Domain => !DomainAgrees(p)
    case Epoch => !EpochAgrees(p) || exists i | 0 <= i < |rs| :: rs[i].epoch != p.oldState.epoch
    case Config => p.oldState.configHash != p.newState.configHash
    case EmptySpan => rs == []
    case Cursor => rs != [] && (p.oldState.globalCursor >= U64_MAX || exists i | 0 <= i < |rs| :: !CursorFits(p, rs, i))
    case ReceiptOrder => exists i | 0 <= i < |rs| :: !InOrder(rs, i)
    case ReceiptChain => exists i | 0 <= i < |rs| :: rs[i].previousDigest != DigestBefore(p, rs, i)
    case DuplicateReceipt => exists i | 0 <= i < |rs| :: !NewDigest(rs, i)
    case DuplicateEnvelope => exists i | 0 <= i < |rs| :: !NewEnvelope(rs, i)
    case InvalidReceipt => exists i | 0 <= i < |rs| :: !a.receipt(rs[i])
    case InvalidDa => exists i | 0 <= i < |rs| :: !a.da(rs[i], p.newState.daCommitment)
    case DuplicateResolution => exists j | 0 <= j < |items| :: !NewResolution(items, j)
    case OrphanResolution => exists j | 0 <= j < |items| :: !Names(protected, items[j].receiptDigest)
    case MissingResolution => exists k | 0 <= k < |protected| :: !Resolves(items, protected[k].digest)
    case ResolutionBinding => exists k, j | 0 <= k < |protected| && 0 <= j < |items| ::
        items[j].receiptDigest == protected[k].digest
          && !(BindsReceipt(p, protected[k], items[j]) && a.resolution(protected[k], items[j]))
    case InvalidTerminalSemantics => exists k, j | 0 <= k < |protected| && 0 <= j < |items| ::
        items[j].receiptDigest == protected[k].digest && !TerminalGood(items[j])
    case InvalidExecutionLeaf => exists k, j | 0 <= k < |protected| && 0 <= j < |items| ::
        items[j].receiptDigest == protected[k].digest && items[j].execution.logicalIndex != k
    case Transcript => !a.transcript(p.oldState.transcriptRoot, rs, p.newState.transcriptRoot)
    case FrameCommitment => !a.frames(w, p)
    case NewState => rs != [] && !StateFits(p, rs, |protected|)
    case OrderedItemRoot => AllResolve(items, protected)
      && !ItemsRootFits(h, p, Derived(InReceiptOrder(items, protected)))
    case ExecutionStreamRoot => AllResolve(items, protected)
      && !StreamFits(h, p, Executed(InReceiptOrder(items, protected)))
    case Binding => p.cBind != h(Streams.Binding(p.binding))
  }
}
