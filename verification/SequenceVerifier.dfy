/** `verify_sequence_transition`, loop by loop, against what it accepts
    (crates/continuum-lighter-plugin/src/sequence.rs:134-348). */
module SequenceVerifier {
  import opened Wrappers
  import opened Streams
  import opened Sequence

  ghost function DigestsTo(rs: seq<Receipt>, n: nat): set<Hash32>
    requires n <= |rs|
  {
    set i | 0 <= i < n :: rs[i].digest
  }

  ghost function EnvelopesTo(rs: seq<Receipt>, n: nat): set<Hash32>
    requires n <= |rs|
  {
    set i | 0 <= i < n :: rs[i].envelopeHash
  }

  // ----- the receipts

  /** The first loop: cursors, order, chain, duplicates and signatures. */
  method VerifyReceipts(h: Hasher, a: Authenticator, p: Public, w: Witness)
    returns (r: Result<(Hash32, set<Hash32>), Error>)
    requires w.receipts != []
    ensures r.Ok? ==> ReceiptsGood(a, p, w.receipts, |w.receipts|)
    ensures r.Ok? ==> r.value == (w.receipts[|w.receipts| - 1].digest, DigestsTo(w.receipts, |w.receipts|))
    ensures r.Err? ==> Fault(h, a, p, w, r.error)
  {
    var rs := w.receipts;
    if p.oldState.globalCursor + 1 > U64_MAX {
      return Err(Cursor);
    }
    var expectedCursor := p.oldState.globalCursor + 1;
    var previousPosition: Option<(nat, nat)> := None;
    var previousDigest := p.oldState.receiptChainRoot;
    var seenReceipts: set<Hash32>, seenEnvelopes: set<Hash32> := {}, {};
    for i := 0 to |rs|
      invariant expectedCursor == p.oldState.globalCursor + 1 + i
      invariant previousPosition == if i == 0 then None else Some((rs[i - 1].tick, rs[i - 1].position))
      invariant previousDigest == DigestBefore(p, rs, i)
      invariant seenReceipts == DigestsTo(rs, i) && seenEnvelopes == EnvelopesTo(rs, i)
      invariant ReceiptsGood(a, p, rs, i)
    {
      var failure := CheckReceipt(h, a, p, w, i, expectedCursor, previousPosition, previousDigest, seenReceipts,
                                  seenEnvelopes);
      if failure.Some? {
        return Err(failure.value);
      }
      expectedCursor := expectedCursor + 1;
      previousPosition := Some((rs[i].tick, rs[i].position));
      previousDigest := rs[i].digest;
      seenReceipts := seenReceipts + {rs[i].digest};
      seenEnvelopes := seenEnvelopes + {rs[i].envelopeHash};
    }
    r := Ok((previousDigest, seenReceipts));
  }

  method CheckReceipt(h: Hasher, a: Authenticator, p: Public, w: Witness, i: nat, expectedCursor: nat,
                      previousPosition: Option<(nat, nat)>, previousDigest: Hash32, seenReceipts: set<Hash32>,
                      seenEnvelopes: set<Hash32>)
    returns (failure: Option<Error>)
    requires i < |w.receipts| && expectedCursor == p.oldState.globalCursor + 1 + i
    requires previousPosition == if i == 0 then None else Some((w.receipts[i - 1].tick, w.receipts[i - 1].position))
    requires previousDigest == DigestBefore(p, w.receipts, i)
    requires seenReceipts == DigestsTo(w.receipts, i) && seenEnvelopes == EnvelopesTo(w.receipts, i)
    ensures failure.None? ==> ReceiptGood(a, p, w.receipts, i)
    ensures failure.Some? ==> Fault(h, a, p, w, failure.value)
  {
    var rs, receipt := w.receipts, w.receipts[i];
    if receipt.epoch != p.oldState.epoch {
      return Some(Epoch);
    }
    if receipt.globalCursor != expectedCursor || expectedCursor + 1 > U64_MAX {
      assert !CursorFits(p, rs, i);
      return Some(Cursor);
    }
    if previousPosition.Some? {
      var (tick, position) := previousPosition.value;
      if receipt.tick < tick || (receipt.tick == tick && receipt.position <= position) {
        assert !InOrder(rs, i);
        return Some(ReceiptOrder);
      }
    }
    if receipt.previousDigest != previousDigest {
      return Some(ReceiptChain);
    }
    if receipt.digest in seenReceipts {
      assert !NewDigest(rs, i);
      return Some(DuplicateReceipt);
    }
    if receipt.envelopeHash in seenEnvelopes {
      assert !NewEnvelope(rs, i);
      return Some(DuplicateEnvelope);
    }
    if !a.receipt(receipt) {
      return Some(InvalidReceipt);
    }
    if !a.da(receipt, p.newState.daCommitment) {
      return Some(InvalidDa);
    }
    failure := None;
  }

  // ----- the resolutions

  /** A table from receipt digest to resolution, over the first n resolutions. */
  ghost predicate Tabulates(table: map<Hash32, ResolvedItem>, items: seq<ResolvedItem>, n: nat)
    requires n <= |items|
  {
    && (forall d :: d in table <==> exists j :: 0 <= j < n && items[j].receiptDigest == d)
    && (forall j | 0 <= j < n :: items[j].receiptDigest in table && table[items[j].receiptDigest] == items[j])
    && |table| == n
  }

  lemma ProtectedMembers(rs: seq<Receipt>, ns: nat)
    ensures forall r :: r in Protected(rs, ns) <==> r in rs && r.namespaceId == ns
    decreases |rs|
  {
    if rs != [] {
      ProtectedMembers(rs[..|rs| - 1], ns);
      assert rs == rs[..|rs| - 1] + [rs[|rs| - 1]];
    }
  }

  lemma RowIsNew(table: map<Hash32, ResolvedItem>, items: seq<ResolvedItem>, j: nat)
    requires j < |items| && Tabulates(table, items, j)
    ensures items[j].receiptDigest !in table <==> NewResolution(items, j)
  {}

  lemma ResolutionFault(h: Hasher, a: Authenticator, p: Public, w: Witness, j: nat)
    requires j < |w.items|
    ensures !NewResolution(w.items, j) ==> Fault(h, a, p, w, DuplicateResolution)
    ensures !Names(w.receipts, w.items[j].receiptDigest) ==> Fault(h, a, p, w, OrphanResolution)
  {
    if !Names(w.receipts, w.items[j].receiptDigest) {
      NotProtected(p, w, w.items[j].receiptDigest);
    }
  }

  lemma MissingFault(h: Hasher, a: Authenticator, p: Public, w: Witness, k: nat)
    requires var protected := Protected(w.receipts, p.namespaceId);
             k < |protected| && !Resolves(w.items, protected[k].digest)
    ensures Fault(h, a, p, w, MissingResolution)
  {}

  lemma Known(rs: seq<Receipt>, d: Hash32)
    ensures d in DigestsTo(rs, |rs|) <==> Names(rs, d)
  {}

  lemma NoneTabulated(w: Witness)
    ensures ResolutionsGood(w, 0)
  {}

  lemma OneMoreGood(w: Witness, j: nat)
    requires j < |w.items| && ResolutionsGood(w, j)
    ensures NewResolution(w.items, j) && Names(w.receipts, w.items[j].receiptDigest) ==> ResolutionsGood(w, j + 1)
  {
    hide NewResolution;
    hide Names;
  }

  method TabulateResolutions(h: Hasher, a: Authenticator, p: Public, w: Witness, known: set<Hash32>)
    returns (r: Result<map<Hash32, ResolvedItem>, Error>)
    requires known == DigestsTo(w.receipts, |w.receipts|)
    ensures r.Ok? ==> ResolutionsGood(w, |w.items|) && Tabulates(r.value, w.items, |w.items|)
    ensures r.Err? ==> Fault(h, a, p, w, r.error)
  {
    hide Fault;
    hide NewResolution;
    hide Names;
    hide DigestsTo;
    hide ResolutionsGood;
    var table: map<Hash32, ResolvedItem> := map[];
    assert Tabulates(table, w.items, 0);
    hide Tabulates;
    NoneTabulated(w);
    for j := 0 to |w.items|
      invariant ResolutionsGood(w, j) && Tabulates(table, w.items, j)
    {
      var item := w.items[j];
      RowIsNew(table, w.items, j);
      Known(w.receipts, item.receiptDigest);
      ResolutionFault(h, a, p, w, j);
      OneMoreGood(w, j);
      if item.receiptDigest in table {
        return Err(DuplicateResolution);
      }
      if item.receiptDigest !in known {
        return Err(OrphanResolution);
      }
      table := Extend(table, w.items, j);
    }
    r := Ok(table);
  }

  function Extend(table: map<Hash32, ResolvedItem>, items: seq<ResolvedItem>, j: nat)
    : (grown: map<Hash32, ResolvedItem>)
    requires j < |items| && Tabulates(table, items, j) && items[j].receiptDigest !in table
    ensures Tabulates(grown, items, j + 1)
  {
    ExtendTabulates(table, items, j);
    table[items[j].receiptDigest := items[j]]
  }

  lemma ExtendTabulates(table: map<Hash32, ResolvedItem>, items: seq<ResolvedItem>, j: nat)
    requires j < |items| && Tabulates(table, items, j) && items[j].receiptDigest !in table
    ensures Tabulates(table[items[j].receiptDigest := items[j]], items, j + 1)
  {
    var d := items[j].receiptDigest;
    var grown := table[d := items[j]];
    forall m | 0 <= m < j + 1
      ensures items[m].receiptDigest in grown && grown[items[m].receiptDigest] == items[m]
    {
      if m < j {
        RowKept(table, items, j, m);
      }
    }
    forall x
      ensures x in grown <==> exists m :: 0 <= m < j + 1 && items[m].receiptDigest == x
    {
      NamesGrow(table, items, j, x);
    }
    TableGrows(table, items, j);
    hide Tabulates;
    assert Tabulates(grown, items, j + 1) by {
      TabulatesIf(grown, items, j + 1);
    }
  }

  lemma TabulatesIf(table: map<Hash32, ResolvedItem>, items: seq<ResolvedItem>, n: nat)
    requires n <= |items| && |table| == n
    requires forall d :: d in table <==> exists j :: 0 <= j < n && items[j].receiptDigest == d
    requires forall j | 0 <= j < n :: items[j].receiptDigest in table && table[items[j].receiptDigest] == items[j]
    ensures Tabulates(table, items, n)
  {}

  lemma TableGrows(table: map<Hash32, ResolvedItem>, items: seq<ResolvedItem>, j: nat)
    requires j < |items| && Tabulates(table, items, j) && items[j].receiptDigest !in table
    ensures |table[items[j].receiptDigest := items[j]]| == j + 1
  {
    var grown := table[items[j].receiptDigest := items[j]];
    assert |table| == j;
    hide Tabulates;
    assert grown.Keys == table.Keys + {items[j].receiptDigest};
    assert |grown.Keys| == |table.Keys| + 1;
  }

  lemma NamesGrow(table: map<Hash32, ResolvedItem>, items: seq<ResolvedItem>, j: nat, x: Hash32)
    requires j < |items| && Tabulates(table, items, j)
    ensures x in table[items[j].receiptDigest := items[j]]
       <==> exists m :: 0 <= m < j + 1 && items[m].receiptDigest == x
  {
    RowNamed(table, items, j, x);
    hide Tabulates;
    if m :| 0 <= m < j && items[m].receiptDigest == x {
      assert 0 <= m < j + 1;
    }
  }

  lemma RowKept(table: map<Hash32, ResolvedItem>, items: seq<ResolvedItem>, n: nat, m: nat)
    requires n <= |items| && Tabulates(table, items, n) && m < n
    ensures items[m].receiptDigest in table && table[items[m].receiptDigest] == items[m]
  {}

  lemma RowNamed(table: map<Hash32, ResolvedItem>, items: seq<ResolvedItem>, n: nat, d: Hash32)
    requires n <= |items| && Tabulates(table, items, n)
    ensures d in table <==> exists m :: 0 <= m < n && items[m].receiptDigest == d
  {}

  lemma ProtectedNamed(rs: seq<Receipt>, ns: nat, d: Hash32)
    requires Names(Protected(rs, ns), d)
    ensures Names(rs, d)
  {
    var i :| 0 <= i < |Protected(rs, ns)| && Protected(rs, ns)[i].digest == d;
    ProtectedMembers(rs, ns);
    assert Protected(rs, ns)[i] in rs;
  }

  lemma NotProtected(p: Public, w: Witness, d: Hash32)
    requires !Names(w.receipts, d)
    ensures !Names(Protected(w.receipts, p.namespaceId), d)
  {
    if Names(Protected(w.receipts, p.namespaceId), d) {
      ProtectedNamed(w.receipts, p.namespaceId, d);
    }
  }

  // ----- the items, in receipt order

  /** The loop over the namespace's receipts. */
  method VerifyItems(h: Hasher, a: Authenticator, p: Public, w: Witness, protected: seq<Receipt>,
                     table: map<Hash32, ResolvedItem>)
    returns (r: Result<seq<ResolvedItem>, Error>)
    requires protected == Protected(w.receipts, p.namespaceId)
    requires ResolutionsGood(w, |w.items|) && Tabulates(table, w.items, |w.items|)
    ensures r.Ok? ==> AllResolve(w.items, protected) && ItemsGood(a, p, w.items, protected, |protected|)
    ensures r.Ok? ==> r.value == InReceiptOrder(w.items, protected)
    ensures r.Err? ==> Fault(h, a, p, w, r.error)
  {
    hide Fault;
    hide ItemGood;
    hide ResolutionsGood;
    var resolved: seq<ResolvedItem> := [];
    for k := 0 to |protected|
      invariant ItemsGood(a, p, w.items, protected, k) && |resolved| == k
      invariant forall m | 0 <= m < k ::
        Resolves(w.items, protected[m].digest) && resolved[m] == ItemFor(w.items, protected[m].digest)
    {
      var receipt := protected[k];
      if receipt.digest !in table {
        MissingFault(h, a, p, w, k);
        return Err(MissingResolution);
      }
      var item := table[receipt.digest];
      TableIsItemFor(w, table, receipt.digest);
      var failure := CheckItem(h, a, p, w, protected, k, item);
      if failure.Some? {
        return Err(failure.value);
      }
      assert ResolvedAt(a, p, w.items, protected, k);
      resolved := resolved + [item];
    }
    assert AllResolve(w.items, protected) by {
      forall k | 0 <= k < |protected|
        ensures Resolves(w.items, protected[k].digest)
      {
        assert ResolvedAt(a, p, w.items, protected, k);
      }
    }
    r := Ok(resolved);
  }

  lemma TableIsItemFor(w: Witness, table: map<Hash32, ResolvedItem>, d: Hash32)
    requires ResolutionsGood(w, |w.items|) && Tabulates(table, w.items, |w.items|) && d in table
    ensures Resolves(w.items, d) && table[d] == ItemFor(w.items, d) && table[d].receiptDigest == d
  {
    assert Resolves(w.items, d);
    var item := ItemFor(w.items, d);
    var j :| 0 <= j < |w.items| && w.items[j] == item;
  }

  method CheckItem(h: Hasher, a: Authenticator, p: Public, w: Witness, protected: seq<Receipt>, k: nat,
                   item: ResolvedItem)
    returns (failure: Option<Error>)
    requires protected == Protected(w.receipts, p.namespaceId) && k < |protected|
    requires item in w.items && item.receiptDigest == protected[k].digest
    ensures failure.None? ==> ItemGood(a, p, protected[k], item, k)
    ensures failure.Some? ==> Fault(h, a, p, w, failure.value)
  {
    ghost var j :| 0 <= j < |w.items| && w.items[j] == item;
    var receipt := protected[k];
    var derived, execution := item.derived, item.execution;
    if derived.domainHash != p.oldState.domainHash || derived.tick != receipt.tick
       || derived.position != receipt.position
       || derived.envelopeHash != receipt.envelopeHash || derived.receiptDigest != receipt.digest
    {
      assert !BindsReceipt(p, protected[k], w.items[j]);
      return Some(ResolutionBinding);
    }
    if !a.resolution(receipt, item) {
      assert !a.resolution(protected[k], w.items[j]);
      return Some(ResolutionBinding);
    }
    var validTerminal := execution.terminalNoop && execution.txType == 0 && execution.txHash == [0, 0, 0, 0, 0]
                         && execution.outcomeClass == derived.resolution.Code()
                         && derived.terminalReason == execution.outcomeClass;
    var bad := match derived.resolution
      case Clear => execution.terminalNoop || execution.txType == 0 || derived.cleartextLength == 0
        || derived.terminalReason != 0
      case BadEncoding => !validTerminal
      case BadAead => !validTerminal || derived.cleartextLength != 0 || derived.cleartextHash != [0, 0, 0, 0]
      case L1Cancelled => !validTerminal || derived.cleartextLength != 0 || derived.cleartextHash != [0, 0, 0, 0];
    if bad {
      assert !TerminalGood(w.items[j]);
      return Some(InvalidTerminalSemantics);
    }
    if execution.logicalIndex != k {
      assert w.items[j].execution.logicalIndex != k;
      return Some(InvalidExecutionLeaf);
    }
    failure := None;
  }

  // ----- counting

  lemma {:induction false} DistinctDigests(rs: seq<Receipt>, ns: nat)
    requires forall i | 0 <= i < |rs| :: NewDigest(rs, i)
    ensures |ProtectedDigests(rs, ns)| == |Protected(rs, ns)|
    ensures forall d :: d in ProtectedDigests(rs, ns) <==> Names(Protected(rs, ns), d)
    decreases |rs|
  {
    if rs != [] {
      var front, last := rs[..|rs| - 1], rs[|rs| - 1];
      forall i | 0 <= i < |front|
        ensures NewDigest(front, i)
      {
        assert NewDigest(rs, i);
      }
      DistinctDigests(front, ns);
      assert NewDigest(rs, |rs| - 1);
      ProtectedMembers(front, ns);
      if last.namespaceId == ns {
        var before, after := Protected(front, ns), Protected(rs, ns);
        assert after == before + [last];
        if Names(before, last.digest) {
          ProtectedNamed(front, ns, last.digest);
        }
        NamesAppend(before, last);
      } else {
        assert Protected(rs, ns) == Protected(front, ns);
      }
    }
  }

  lemma NamesAppend(rs: seq<Receipt>, last: Receipt)
    ensures forall d :: Names(rs + [last], d) <==> Names(rs, d) || d == last.digest
  {
    forall d
      ensures Names(rs + [last], d) <==> Names(rs, d) || d == last.digest
    {
      if i :| 0 <= i < |rs| && rs[i].digest == d {
        assert (rs + [last])[i].digest == d;
      }
      if d == last.digest {
        assert (rs + [last])[|rs|].digest == d;
      }
    }
  }

  ghost function ProtectedDigests(rs: seq<Receipt>, ns: nat): set<Hash32>
    decreases |rs|
  {
    if rs == [] then {}
    else ProtectedDigests(rs[..|rs| - 1], ns) + if rs[|rs| - 1].namespaceId == ns then {rs[|rs| - 1].digest} else {}
  }

  /** A surplus of resolutions means one of them resolves no receipt of the
      namespace. */
  lemma SurplusIsOrphan(p: Public, w: Witness, protected: seq<Receipt>, table: map<Hash32, ResolvedItem>)
    requires protected == Protected(w.receipts, p.namespaceId)
    requires forall i | 0 <= i < |w.receipts| :: NewDigest(w.receipts, i)
    requires Tabulates(table, w.items, |w.items|) && AllResolve(w.items, protected)
    ensures |w.items| != |protected| <==> exists j | 0 <= j < |w.items| :: !Names(protected, w.items[j].receiptDigest)
  {
    DistinctDigests(w.receipts, p.namespaceId);
    var digests := ProtectedDigests(w.receipts, p.namespaceId);
    assert digests <= table.Keys by {
      forall d | d in digests
        ensures d in table
      {
        var k :| 0 <= k < |protected| && protected[k].digest == d;
        assert Resolves(w.items, protected[k].digest);
      }
    }
    if forall j | 0 <= j < |w.items| :: Names(protected, w.items[j].receiptDigest) {
      assert table.Keys == digests;
    } else {
      var j :| 0 <= j < |w.items| && !Names(protected, w.items[j].receiptDigest);
      assert w.items[j].receiptDigest in table.Keys - digests;
      SmallerSet(digests, table.Keys, w.items[j].receiptDigest);
    }
  }

  lemma SmallerSet(a: set<Hash32>, b: set<Hash32>, x: Hash32)
    requires a <= b && x in b - a
    ensures |a| < |b|
  {
    assert a + (b - a) == b && |b - a| > 0;
    assert |b| == |a| + |b - a|;
  }

  // ----- the verifier

  method FilterProtected(rs: seq<Receipt>, ns: nat) returns (protected: seq<Receipt>)
    ensures protected == Protected(rs, ns)
  {
    protected := [];
    for i := 0 to |rs|
      invariant protected == Protected(rs[..i], ns)
    {
      assert rs[..i + 1][..i] == rs[..i];
      if rs[i].namespaceId == ns {
        protected := protected + [rs[i]];
      }
    }
    assert rs[..|rs|] == rs;
  }

  /** Succeeds only on what `Accepts` describes, and otherwise names a real fault. */
  method VerifyTransition(h: Hasher, a: Authenticator, p: Public, w: Witness) returns (r: Result<(), Error>)
    ensures r.Ok? <==> Accepts(h, a, p, w)
    ensures r.Err? ==> Fault(h, a, p, w, r.error)
  {
    r := RunChecks(h, a, p, w);
    if r.Err? {
      FaultRefutes(h, a, p, w, r.error);
    }
  }

  method RunChecks(h: Hasher, a: Authenticator, p: Public, w: Witness) returns (r: Result<(), Error>)
    ensures r.Ok? ==> Accepts(h, a, p, w)
    ensures r.Err? ==> Fault(h, a, p, w, r.error)
  {
    if p.oldState.domainHash != p.newState.domainHash || p.oldState.domainHash != p.binding.domainHash {
      return Err(Domain);
    }
    if p.oldState.epoch != p.newState.epoch || p.oldState.epoch != p.binding.epoch {
      return Err(Epoch);
    }
    if p.oldState.configHash != p.newState.configHash {
      return Err(Config);
    }
    if w.receipts == [] {
      return Err(EmptySpan);
    }
    var receipts := VerifyReceipts(h, a, p, w);
    if receipts.Err? {
      return Err(receipts.error);
    }
    var (lastDigest, known) := receipts.value;
    var table := TabulateResolutions(h, a, p, w, known);
    if table.Err? {
      return Err(table.error);
    }
    var protected := FilterProtected(w.receipts, p.namespaceId);
    var resolved := VerifyItems(h, a, p, w, protected, table.value);
    if resolved.Err? {
      return Err(resolved.error);
    }
    assert forall i | 0 <= i < |w.receipts| :: NewDigest(w.receipts, i) by {
      forall i | 0 <= i < |w.receipts| ensures NewDigest(w.receipts, i) {
        assert ReceiptGood(a, p, w.receipts, i);
      }
    }
    SurplusIsOrphan(p, w, protected, table.value);
    if |table.value| != |protected| {
      return Err(OrphanResolution);
    }
    r := VerifyCommitments(h, a, p, w, protected, resolved.value, lastDigest);
  }

  /** The checks after the loops. */
  method VerifyCommitments(h: Hasher, a: Authenticator, p: Public, w: Witness, protected: seq<Receipt>,
                           resolved: seq<ResolvedItem>, lastDigest: Hash32)
    returns (r: Result<(), Error>)
    requires w.receipts != [] && protected == Protected(w.receipts, p.namespaceId)
    requires AllResolve(w.items, protected) && resolved == InReceiptOrder(w.items, protected)
    requires lastDigest == w.receipts[|w.receipts| - 1].digest
    ensures r.Ok? ==> a.transcript(p.oldState.transcriptRoot, w.receipts, p.newState.transcriptRoot) && a.frames(w, p)
    ensures r.Ok? ==> StateFits(p, w.receipts, |protected|)
    ensures r.Ok? ==> ItemsRootFits(h, p, Derived(resolved)) && StreamFits(h, p, Executed(resolved))
    ensures r.Ok? ==> p.cBind == h(Streams.Binding(p.binding))
    ensures r.Err? ==> Fault(h, a, p, w, r.error)
  {
    if !a.transcript(p.oldState.transcriptRoot, w.receipts, p.newState.transcriptRoot) {
      return Err(Transcript);
    }
    if !a.frames(w, p) {
      return Err(FrameCommitment);
    }
    var derived, executed := Derived(resolved), Executed(resolved);
    var itemCount := |derived|;
    var newCursor := w.receipts[|w.receipts| - 1].globalCursor;
    if p.oldState.namespaceItemCount + itemCount > U64_MAX {
      return Err(NewState);
    }
    if p.newState.globalCursor != newCursor
       || p.newState.namespaceItemCount != p.oldState.namespaceItemCount + itemCount
       || p.newState.receiptChainRoot != lastDigest || p.newState.framePlanRoot != p.binding.framePlanRoot
       || p.newState.transcriptRoot != p.binding.newTranscriptRoot
       || p.oldState.transcriptRoot != p.binding.oldTranscriptRoot
       || p.oldState.globalCursor != p.binding.oldGlobalCursor || p.newState.globalCursor != p.binding.newGlobalCursor
    {
      return Err(NewState);
    }
    var frame := if derived == [] then 0 else derived[0].frameId;
    var itemRoot := ComputeItemsRoot(h, p.oldState.domainHash, frame, p.oldState.globalCursor, derived);
    if itemRoot != p.binding.orderedItemRoot || itemCount != p.binding.orderedItemCount {
      return Err(OrderedItemRoot);
    }
    var streamRoot := ComputeStreamRoot(h, p.oldState.domainHash, p.oldState.globalCursor, executed);
    if streamRoot != p.binding.executionStreamRoot {
      return Err(ExecutionStreamRoot);
    }
    if h(Streams.Binding(p.binding)) != p.cBind {
      return Err(Error.Binding);
    }
    r := Ok(());
  }

  /** An accepted transition has no fault of any kind. */
  lemma FaultRefutes(h: Hasher, a: Authenticator, p: Public, w: Witness, e: Error)
    requires Fault(h, a, p, w, e)
    ensures !Accepts(h, a, p, w)
  {
    if Accepts(h, a, p, w) {
      var rs := w.receipts;
      match e
      case Epoch | Cursor | ReceiptOrder | ReceiptChain | DuplicateReceipt | DuplicateEnvelope | InvalidReceipt
         | InvalidDa =>
        ReceiptFaultRefutes(h, a, p, w, e);
      case DuplicateResolution | OrphanResolution | MissingResolution =>
        ResolutionFaultRefutes(h, a, p, w, e);
      case ResolutionBinding | InvalidTerminalSemantics | InvalidExecutionLeaf =>
        ItemFaultRefutes(h, a, p, w, e);
      case _ =>
    }
  }

  lemma ReceiptFaultRefutes(h: Hasher, a: Authenticator, p: Public, w: Witness, e: Error)
    requires Fault(h, a, p, w, e) && ReceiptsGood(a, p, w.receipts, |w.receipts|) && EpochAgrees(p)
    ensures e !in {Epoch, Cursor, ReceiptOrder, ReceiptChain, DuplicateReceipt, DuplicateEnvelope, InvalidReceipt,
                   InvalidDa}
  {
    var rs := w.receipts;
    forall i | 0 <= i < |rs|
      ensures rs[i].epoch == p.oldState.epoch && CursorFits(p, rs, i) && InOrder(rs, i)
      ensures rs[i].previousDigest == DigestBefore(p, rs, i) && NewDigest(rs, i) && NewEnvelope(rs, i)
      ensures a.receipt(rs[i]) && a.da(rs[i], p.newState.daCommitment)
    {
      assert ReceiptGood(a, p, rs, i);
    }
    assert rs != [] ==> CursorFits(p, rs, 0);
  }

  lemma TableOf(w: Witness, n: nat) returns (table: map<Hash32, ResolvedItem>)
    requires n <= |w.items| && ResolutionsGood(w, n)
    ensures Tabulates(table, w.items, n)
    decreases n
  {
    table := map[];
    if n > 0 {
      var before := TableOf(w, n - 1);
      assert NewResolution(w.items, n - 1);
      table := Extend(before, w.items, n - 1);
    }
  }

  lemma ResolutionFaultRefutes(h: Hasher, a: Authenticator, p: Public, w: Witness, e: Error)
    requires Fault(h, a, p, w, e) && ReceiptsGood(a, p, w.receipts, |w.receipts|) && ResolutionsGood(w, |w.items|)
    requires AllResolve(w.items, Protected(w.receipts, p.namespaceId))
    requires |w.items| == |Protected(w.receipts, p.namespaceId)|
    ensures e !in {DuplicateResolution, OrphanResolution, MissingResolution}
  {
    if e.OrphanResolution? {
      var table := TableOf(w, |w.items|);
      forall i | 0 <= i < |w.receipts|
        ensures NewDigest(w.receipts, i)
      {
        assert ReceiptGood(a, p, w.receipts, i);
      }
      SurplusIsOrphan(p, w, Protected(w.receipts, p.namespaceId), table);
    }
  }

  /** Resolutions being distinct, the item found for a receipt is the item. */
  lemma ItemUnique(w: Witness, j: nat)
    requires ResolutionsGood(w, |w.items|) && j < |w.items|
    ensures Resolves(w.items, w.items[j].receiptDigest) && ItemFor(w.items, w.items[j].receiptDigest) == w.items[j]
  {
    assert Resolves(w.items, w.items[j].receiptDigest);
    var item := ItemFor(w.items, w.items[j].receiptDigest);
    var k :| 0 <= k < |w.items| && w.items[k] == item;
    assert NewResolution(w.items, j) && NewResolution(w.items, k);
  }

  lemma ItemFaultRefutes(h: Hasher, a: Authenticator, p: Public, w: Witness, e: Error)
    requires Fault(h, a, p, w, e) && ResolutionsGood(w, |w.items|)
    requires var protected := Protected(w.receipts, p.namespaceId); ItemsGood(a, p, w.items, protected, |protected|)
    ensures e !in {ResolutionBinding, InvalidTerminalSemantics, InvalidExecutionLeaf}
  {
    var protected := Protected(w.receipts, p.namespaceId);
    forall k, j | 0 <= k < |protected| && 0 <= j < |w.items| && w.items[j].receiptDigest == protected[k].digest
      ensures ItemGood(a, p, protected[k], w.items[j], k)
    {
      ItemUnique(w, j);
      assert ResolvedAt(a, p, w.items, protected, k);
    }
  }
}
