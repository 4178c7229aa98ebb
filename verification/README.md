# Verified model of the ordering, execution and settlement cores

The repository orders encrypted transactions through signed receipts, a clock made of
repeated squarings and fraud proofs; it opens them after a delay, executes them in a
price-time order book, and joins order and execution in a settlement contract. This
project models those parts in Dafny and proves what they promise. `dafny verify
dfyconfig.toml` checks all of it.

| part | files |
|---|---|
| arithmetic | `ModArith`, `Primes`, `Words`, `Wrappers` |
| VDF, timelock, primality | `Vdf`, `SlidingWindow`, `MillerRabin`, `Timelock`, `Clock`, `Verdicts`, `WaveFaults` |
| contract arithmetic | `BigMul`, `HostVerifier` |
| admission, sealing, fraud proofs | `Digests`, `Records`, `Merkle`, `Envelope`, `Params`, `Admission`, `Sequencer`, `SequencerLaws`, `SequencerHistory`, `AdmissionLaws`, `Frontier`, `FraudProofs` |
| transcript and anchors | `Transcript`, `TranscriptLaws`, `Accountability`, `Anchors` |
| coordinator | `Outcomes`, `Coordinator`, `CoordinatorLaws`, `Fates`, `Pipeline`, `Delivery` |
| order book and tape adapter | `OrderBook`, `BookLaws`, `TradeLaws`, `TapeAdapter`, `AdapterLaws`, `AdapterBook`, `BlockLedger`, `Holes` |
| sequence transition and settlement | `Streams`, `Sequence`, `SequenceVerifier`, `SequenceLaws`, `Join`, `Settlement`, `JoinLaws` |
| runs that reach the failures | `Scenarios` |

Objects the source updates in place are classes (`AdmissionDesk`, `Node`, `Book`,
`SimState`, `OrderedAccumulator`, `ContinuumBinding`), and its loops are loops. Each such
method is tied to a function of the old state; the laws are proved about those functions
and over whole runs.

## Idealisations

- Hashes of the sequencer (keccak, tagged) are constructors of `Digests.Digest`, so equal
  digests have equal preimages; the preimages keep every field the source hashes, with
  fixed-width encodings taken as tuples. The settlement plugin takes its hash as a
  function parameter, and the lemmas that need it assume `Streams.Injective`.
- A signature verifies exactly when the sequencer signed the message; the runs carry the
  set of signed messages. Ticket signatures are a predicate given from outside.
- The AEAD returns the plaintext under the same key, nonce and associated data, and fails
  otherwise. Fiat-Shamir challenges and weights, the Miller-Rabin bases drawn from the
  candidate, and payload parsing are uninterpreted functions; every theorem holds for all of them.
- Integers are unbounded except where the source's width decides a branch: the 32-bit
  truncation of the simple prover's iteration count, the 64-bit checked additions of the
  sequence transition, and the 256-bit words of the limb multiplier.
- The EIP-198 modular exponentiation precompile returns base^e mod m, and 0 for m = 0.

## Main results

- Admission, sealing and fences keep one invariant over every run (`SequencerLaws.EveryRunKeepsInv`);
  an envelope is admitted exactly when nothing stands against it (`AdmissionLaws.AnswerToEnvelope`).
- No honest run convicts of equivocation, reordering or a broken log, alone or beside another
  epoch's (`FraudProofs`, `Accountability.EpochsDoNotMix`). Whoever signs anything: two accepted
  histories that differ, a broken log and a dishonoured receipt each yield a verifying proof
  (`Accountability.SplitHistoriesConvict`, `ChainUnlessConvicted`, `ReceiptBindsBatch`).
- Every sealed entry leaves in one wave at its maturity, and its fate is the solver's answer if that
  comes within the grace, else the cutoff's gap (`Fates.AnswerDecides`, `Fates.UnansweredStands`); a
  timely opening is executed (`Delivery.TimelyOpeningIsExecuted`).
- The sequential verifier accepts exactly the true output beside an honest element, and so do
  setups, openings, waves, segments and the host contract (`Verdicts`); its limb multiplier is exact
  (`BigMul.Mul256x256`).
- Matching is the unique priority fill (`BookLaws.MatchIsThePriorityFill`), trades and the effect of
  an order are exactly accounted for (`TradeLaws`), and published blocks execute again to the same
  results (`BlockLedger.EpochRedoes`).
- Runs of the settlement join and of the contract consume the namespace's resolutions exactly, each
  batch continuing the one before it (`Join.RunConsumesExactly`, `JoinLaws.RunJoinsIff`,
  `JoinLaws.ContractHeadIsLeft`).

## Results where the code and its description part

- **A fence makes the sequencer convictable.** A receipt proves an omission exactly when a
  fence released it and its tick was sealed afterwards (`FraudProofs.OmissionIff`). Two
  submissions, a tick, a fault and a tick reach such a receipt (`Scenarios.FencedReceiptConvicts`).
- **A hole stops anchoring and the adapter.** A sealed tick verifies exactly when no released
  position precedes a kept one (`TranscriptLaws.RunVerifiesIff`). A span with a hole is never
  anchored, however long the node runs (`Anchors.HoleStopsAnchors`). The adapter counts
  positions by entries: once the cutoffs have passed, it gets past a tick exactly when no tick
  up to it has a hole (`Holes.AdapterPassesIffNoHoles`), and no later state lets it past a place
  that is missing (`Holes.HoleStallsAdapter`). A third submission after the fault leaves a hole
  (`Scenarios.HoleReached`, `Scenarios.HoleIsRefused`).
- **Taking a tick and opening the next are two locked sections.** A submission admitted between
  them always lands on the tick just taken, at position 0; it doubles an issued place exactly
  when the tick had receipts, and it is omitted from the record (`FraudProofs.GapSubmission`,
  `FraudProofs.GapReceiptIsOmitted`). Both cases occur (`Scenarios.GapAdmits`,
  `Scenarios.GapCollides`). All other theorems take sealing as atomic.
- **The shutdown pass resolves nothing.** The comment at `crates/sequencer/src/node.rs:453`
  expects trailing positions to become gaps; the pass repeats the last cutoff, and what has not
  matured by the final tick stays pending (`CoordinatorLaws.FinalPassIsIdle`,
  `CoordinatorLaws.ShutdownLeavesPending`).
- **The transcript predicate does not check receipt linkage**: re-linking a receipt leaves the
  verdict on every span as it is (`Transcript.LinkageUnchecked`).
- **The stream commitment omits accounts.** Two tapes with one commitment may leave different
  books (`AdapterLaws.StreamOmitsAccounts`). Under one commitment the entries are the same exactly
  when the accounts are (`AdapterLaws.SameEntriesIffSameAccounts`), so commitment and accounts fix
  the book; different accounts need not show in it (`AdapterLaws.RefusedAccountsDoNotShow`).
- **The simple VDF prover truncates the iteration count to 32 bits**; it agrees with the streaming
  one exactly when the count fits or the challenge exceeds 2^t (`Vdf.ProversAgreeIff`).
- **`mod_pow` is wrong for one input pair**: modulus 1 with exponent 0 (`SlidingWindow.ModularPower`).
- **The contract's range for the challenge is bounded.** An honest segment passes exactly when the
  challenge prime lies within 65536 of its hash and exceeds 3 (`HostVerifier.HonestSegmentOnHost`).
- **Decoding an envelope is not injective.** An accepted byte string is the encoding of what it
  decodes to exactly when its u field counts at least one byte and no leading zero, with zeros before
  (`Envelope.AcceptedIsEncodingIff`); two accepted strings decode alike exactly when they agree
  outside that field and on its value (`Envelope.DecodeAlikeIff`). An encoded envelope decodes to
  itself exactly under two conditions (`Envelope.RoundTripIff`).

## Model

| member | source | states |
|---|---|---|
| FraudProofs.NeverEquivocates | crates/sequencer/src/fraud.rs:27-35 | in every run, under any interleaving of submissions, seals, fences and recoveries, no two signed records of one (epoch, tick) differ |
| FraudProofs.NeverReorders | crates/sequencer/src/fraud.rs:48-72 | no reorder proof verifies in any run, whatever receipt, record, entry and Merkle path the challenger picks, fences included |
| FraudProofs.NeverInvalidLog | crates/sequencer/src/fraud.rs:114-127 | no pair of signed consecutive records breaks the log chain, in any run |
| Accountability.EpochsDoNotMix | crates/sequencer/src/fraud.rs:14-128 | one identity signing two honest runs of different epochs convicts by no equivocation, reorder or log proof over both, and by no omission that its own epoch does not admit |
| Accountability.DifferingRecordsConvict | crates/sequencer/src/fraud.rs:27-35 | two signed records of one epoch and tick convict if and only if they differ in anything but signature bytes |
| Accountability.SplitHistoriesConvict | crates/sequencer/src/fraud.rs:27-35 | for any set of signed messages, two accepted spans of one range hold the same records and batches throughout, or some tick convicts of equivocation, and never both |
| Accountability.BrokenLinkConvictsIff | crates/sequencer/src/fraud.rs:114-127 | after a signed predecessor the transcript predicate refuses a tick for its link if and only if the two records are a verifying log proof |
| Accountability.ChainUnlessConvicted | crates/sequencer/src/fraud.rs:114-127 | a range of published ticks breaks the log only where two consecutive records convict, and an accepted range convicts nowhere: without a proof it is one commitment chain |
| Accountability.DisplacedReceiptConvicts | crates/sequencer/src/fraud.rs:48-72 | against any root the entry at a receipt's place convicts, with its generated path, if and only if it claims that place for another commitment and both objects are signed for one tick |
| Accountability.ReceiptBindsBatch | crates/sequencer/src/fraud.rs:48-104 | for a verifying receipt of an accepted tick an omission is provable if and only if the batch does not hold its commitment at its place, and a reordering if and only if it holds something else there |
| Accountability.LastDigestBindsReceipts | crates/sequencer/src/records.rs:308-320 | two lists of verifying receipts of one length, each linked by digests, that end in one digest agree in every slot, whoever signed them |
| FraudProofs.OmissionIff | crates/sequencer/src/fraud.rs:85-104 | a verifying receipt admits some omission proof if and only if it was released by a fence and its tick is sealed; so none exists in a run without releases |
| FraudProofs.GapSubmission | crates/sequencer/src/node.rs:265-332 | a submission admitted between taking a tick and opening the next gets the taken tick and position 0, and repeats an issued place if and only if the tick had receipts |
| FraudProofs.GapReceiptIsOmitted | crates/sequencer/src/node.rs:265-332 | such a receipt, with the record of its tick and the taken batch, is a verifying omission proof |
| FraudProofs.PlaceFixesReceipt | crates/sequencer/src/admission.rs:195-201 | no (tick, pos) is issued twice: two issued receipts with one place are one receipt |
| FraudProofs.EntryAtPlace | crates/sequencer/src/admission.rs:240-243 | a sealed batch holds, at an issued receipt's place, nothing but that receipt's entry, and only if it was not released |
| SequencerLaws.EveryRunKeepsInv | crates/sequencer/src/admission.rs:110-289 | every reachable state: consecutive ticks and one commitment chain; receipts of a tick numbered from zero in one digest chain across released holes; buffers and sealed batches hold exactly the unreleased receipts; consumed tickets and commitments are exactly theirs, each backing one; the signer signed exactly the issued and sealed objects; every receipt is bound to a log and clock state sealed before its tick |
| SequencerLaws.IssueKeepsInv | crates/sequencer/src/admission.rs:193-235 | reserving a slot keeps all of it |
| SequencerLaws.SealKeepsInv | crates/sequencer/src/node.rs:263-333 | sealing a tick from its buffer keeps all of it |
| SequencerLaws.FenceKeepsInv | crates/sequencer/src/admission.rs:267-285 | releasing reservations keeps all of it, with positions abandoned and tickets returned |
| SequencerLaws.HitIsLiveOverlap | crates/sequencer/src/admission.rs:267-285 | a fence releases a receipt if and only if it is unreleased, of an unsealed tick, and its window overlaps the fault |
| SequencerLaws.RetainIsLive | crates/sequencer/src/admission.rs:270-283 | what a buffer keeps after a fence is the tick's issued list without the released receipts, in order |
| SequencerLaws.FencedUntilRecovery | crates/sequencer/src/admission.rs:143-146 | from a cadence fault until the fence is lifted, whatever happens, no open reservation has a window that overlaps the fault |
| SequencerLaws.AdmissionsMatureAfterWindow | crates/sequencer/src/admission.rs:127-184 | with the startup check passed, every admission in every state matures strictly after its window and the slack |
| SequencerLaws.IssueIsBound | crates/sequencer/src/admission.rs:203-220 | a receipt names the log commitment and clock state after some tick before its own |
| Sequencer.SubmitCases | crates/sequencer/src/admission.rs:110-235 | a submission changes nothing or reserves one fresh slot: inside its window, at the first tick with room, continuing the tick's digest chain, with an unused ticket and commitment |
| Sequencer.NewPlace | crates/sequencer/src/admission.rs:195-199 | a fresh slot lies after every place issued for its tick |
| SequencerHistory.SealedAreTicks | crates/sequencer/src/node.rs:263-333 | a run seals one record per clock tick, with that tick's segment, number and clock state |
| SequencerHistory.SignaturesAreOwn | crates/sequencer/src/admission.rs:203-235 | every issued receipt and sealed record carries the sequencer's signature over exactly its message |
| SequencerHistory.FenceIsLatestFault | crates/sequencer/src/admission.rs:260-289 | admission is fenced up to exactly the latest fault since the last recovery |
| AdmissionLaws.AnswerToEnvelope | crates/sequencer/src/admission.rs:110-235 | a well-formed envelope is admitted if and only if its window is of profile length and holds the open tick, its class exists, its ticket is valid, matching and unused, its commitment new, no fence reaches its window, some tick has room and its body was stored; a full window is answered if and only if only room is missing; every refusal names a ground that holds and changes nothing |
| AdmissionLaws.AnswerToGarbage | crates/sequencer/src/admission.rs:114-124 | other bytes are refused for size or form, whichever it is, and change nothing |
| AdmissionLaws.ReceiptIsForEnvelope | crates/sequencer/src/admission.rs:162-235 | the receipt carries the envelope's commitment, bucket, window and ticket, at the first tick of its window with room, signed |
| AdmissionLaws.AdmittedOnce | crates/sequencer/src/admission.rs:154-160 | an admitted envelope submitted again is refused |
| Frontier.EveryRunKeepsFrontier | crates/sequencer/src/admission.rs:162-201 | with positive capacity, in every run each bucket's counters from the open tick are full, then one partial tick, then empty; no tick exceeds the capacity; a bucket's receipts are issued in strictly increasing (tick, pos) |
| Frontier.SubmissionMeetsFrontier | crates/sequencer/src/admission.rs:129-184 | an admitted receipt stands at its bucket's frontier, and a full-window reply is given if and only if no other objection holds and the window ends before the frontier |
| Frontier.IssueMovesFrontier | crates/sequencer/src/admission.rs:162-198 | each admission is at the frontier, which moves on exactly when its tick fills |
| Admission.FirstRoom | crates/sequencer/src/admission.rs:164-171 | the tick found has room and every earlier one from the open tick is full; none is found only when all are full |
| Admission.AdmissionDesk.SubmitEnvelope | crates/sequencer/src/admission.rs:110-235 | the imperative flow, field by field, is the specification `Submit` |
| Admission.AdmissionDesk.SubmitParsed | crates/sequencer/src/admission.rs:125-235 | the same from the decoded envelope on, with the search as a loop |
| Admission.AdmissionDesk.SearchRoom | crates/sequencer/src/admission.rs:162-171 | the search loop finds the specified tick |
| Admission.AdmissionDesk.Seal | crates/sequencer/src/admission.rs:254-258 | takes the tick's entries in chain order, forgets its buffer and opens the next tick on the new commitment |
| Admission.AdmissionDesk.FenceAt | crates/sequencer/src/admission.rs:267-285 | the loop over buffers, in any order, is the simultaneous fence, and returns the released commitments |
| Merkle.PathVerifies | crates/sequencer/src/records.rs:136-173 | every generated path verifies, for trees of any size |
| Merkle.VerifiesIffAtPosition | crates/sequencer/src/records.rs:161-173 | some path verifies a leaf at a real index if and only if it is the entry there |
| Merkle.VerifyingLeafIsEntry | crates/sequencer/src/records.rs:161-173 | whatever index and path, a verifying leaf is one of the entries |
| Merkle.RootFixesPaddedList | crates/sequencer/src/records.rs:118-132 | two nonempty lists have one root if and only if their padded lists are equal |
| Merkle.PaddedExtends | crates/sequencer/src/records.rs:124-130 | padding keeps the list as a prefix and adds no new leaf |
| Merkle.SameRootSameEntries | crates/sequencer/src/records.rs:118-132 | one root means one set of entries, and at equal length one list; the empty batch is apart |
| Merkle.ClimbFindsPlace | crates/sequencer/src/records.rs:161-173 | a path that reaches a full tree has its height, and the leaf stands at the index modulo the width |
| Merkle.MerkleRoot | crates/sequencer/src/records.rs:118-132 | the level-by-level loop is the recursive tree |
| Merkle.MerklePath | crates/sequencer/src/records.rs:136-159 | the path loop collects the siblings up the tree, and fails only past the end |
| Merkle.MerkleVerify | crates/sequencer/src/records.rs:161-173 | the verification loop is the climb from leaf to root |
| Merkle.HostMerkleRoot | demo/contracts/src/PoSqHost.sol:228-241 | the contract's reduction inside its array gives the same root |
| Envelope.Encode | crates/sequencer/src/envelope.rs:137-165 | slice by slice writing yields the layout, with its two errors |
| Envelope.RoundTripIff | crates/sequencer/src/envelope.rs:137-218 | for every envelope that fits, decode inverts encode if and only if the window is nonempty and the ciphertext class is the visible one |
| Envelope.HeaderIsAssociatedData | crates/sequencer/src/envelope.rs:116-133 | the first 39 encoded bytes are the prefix the client seals under |
| Envelope.AcceptedIsEncodingIff | crates/sequencer/src/envelope.rs:137-218 | every accepted byte string decodes to an envelope that fits, and is its encoding if and only if its u field is canonical: length from 1 to 256, no leading zero byte unless it is the only one, zeros before it |
| Envelope.DecodesIff | crates/sequencer/src/envelope.rs:137-218 | a byte string decodes to e if and only if e fits, has a window and one delay class, and the string is its encoding outside the u field and holds its u there; everything else is refused |
| Envelope.DecodeAlikeIff | crates/sequencer/src/envelope.rs:167-218 | two accepted byte strings decode to one envelope if and only if they agree outside the u field and their u fields have one value |
| Envelope.CanonicalDecodeInjective | crates/sequencer/src/envelope.rs:167-218 | on byte strings with a canonical u field decoding is injective |
| Envelope.PaddingOfUIgnored | crates/sequencer/src/envelope.rs:195-199 | an instance: a nonzero byte in front of a short u decodes to the same envelope |
| Params.CheckNoLook | crates/sequencer/src/params.rs:128-136 | passes if and only if every delay class exceeds the minimum, and otherwise names the first that does not |
| Params.MinimumCoversWindow | crates/sequencer/src/params.rs:117-126 | for an adversary no slower than the public rate the minimum covers the window and the slack in squarings |
| Params.MinimumIsLeast | crates/sequencer/src/params.rs:117-126 | the minimum is the least delay that satisfies the no-look inequality |
| Params.DelayIsLeast | crates/sequencer/src/params.rs:104-110 | a class matures after the least number of ticks whose squarings cover it |
| Params.GraceIsSegments | crates/sequencer/src/params.rs:111-113 | the grace shifts a tick by whole segments |
| Params.MaturesAfterWindow | crates/sequencer/src/params.rs:104-136 | when the check passes, everything admitted in a window matures strictly after the window's end plus the slack |
| Transcript.VerifySpan | crates/sequencer/src/transcript.rs:42-98 | the nested loops are the span specification, first violation included |
| Transcript.TickAccepted | crates/sequencer/src/transcript.rs:53-96 | a tick is accepted if and only if its record is signed and chained, its root is that of its entries, these are numbered from zero with unseen commitments, and each receipt is the digest of its entry |
| Transcript.RefusalIsTrue | crates/sequencer/src/transcript.rs:53-96 | every violation reported of a tick is so |
| Transcript.SpansCompose | crates/sequencer/src/transcript.rs:51-97 | a span is accepted exactly as its two parts are in turn, with the seen set carried over |
| Transcript.EndBindsSpan | crates/sequencer/src/transcript.rs:42-98 | two accepted spans of one length ending in one commitment start in one and hold the same batches and clock states |
| Transcript.NumberedRootsFixEntries | crates/sequencer/src/transcript.rs:62-73 | numbered entry lists with one root are one list |
| Transcript.LinkageUnchecked | crates/sequencer/src/transcript.rs:69-89 | re-linking a receipt to any predecessor digest leaves the verdict on every span unchanged, end commitment and first violation included |
| Transcript.CommitmentBindsSpan | crates/sequencer/src/transcript.rs:110-158 | two stores that replay to one predicate commitment hold the same batches and clock states throughout |
| TranscriptLaws.RunVerifiesIff | crates/sequencer/src/transcript.rs:42-98 | in every run, any span of sealed ticks verifies from the commitment before it if and only if it has no hole, and ends in its last commitment; without releases it always does |
| TranscriptLaws.SpanOfRun | crates/sequencer/src/transcript.rs:51-97 | the same with any seen set that holds nothing of later ticks |
| TranscriptLaws.NumberedIffNoHoles | crates/sequencer/src/transcript.rs:70-73 | a sealed batch is numbered from zero if and only if every released receipt of the tick lies after all kept ones |
| Anchors.AnchoredIff | crates/sequencer/src/node.rs:507-580 | in every reachable state a fully proved span is anchored if and only if it has no hole, and the anchor commits to the log before and after it |
| Anchors.AnchoredWhenProved | crates/sequencer/src/node.rs:507-580 | the same in the segments' own terms: anchored if and only if each segment is proved, the last tick sealed, and no tick of the segments has a hole |
| Anchors.AnchorsTile | crates/sequencer/src/node.rs:507-580 | consecutive anchors tile segments and ticks, each starting in the commitment where the last ended |
| Anchors.AnchorCovers | crates/sequencer/src/node.rs:507-543 | an anchor covers exactly the ticks of its segments, as the clock numbers them |
| Anchors.HoleStopsAnchors | crates/sequencer/src/node.rs:543-556 | a span with a hole is never anchored in any continuation of the run, and nothing after it either |
| Anchors.HolesAreFixed | crates/sequencer/src/node.rs:543-556 | no later event adds or mends a hole of a sealed tick |
| Anchors.MaybeAnchor | crates/sequencer/src/node.rs:500-581 | the loop emits the anchors of the maximal prefix of anchorable spans and stops at the first that is not |
| CoordinatorLaws.EveryRunKeepsInv | crates/sequencer/src/node.rs:308-383 | every state of every run: the waiting waves are exactly the waves still to mature, complete; the flights are exactly the matured ones; the tape is that of the sealed entries |
| CoordinatorLaws.OneFlightEach | crates/sequencer/src/node.rs:308-371 | each sealed entry leaves in exactly one wave, once, at exactly its maturity tick, and not before |
| CoordinatorLaws.OutcomesAreFinal | crates/sequencer/src/store.rs:89-97 | an outcome that is not pending never changes again, over any interleaving of ticks and solver reports |
| CoordinatorLaws.NothingPendsPastCutoff | crates/sequencer/src/store.rs:100-108 | after tick t nothing with maturity plus grace at most t is pending |
| Fates.UnansweredStands | crates/sequencer/src/store.rs:99-108 | an entry no solver report has answered is pending, with its maturity, exactly until maturity plus grace, and the cutoff's gap from then on |
| Fates.AnswerDecides | crates/sequencer/src/node.rs:432-497 | a report's outcome for an entry stands for good if it came before maturity plus grace, and is ignored for the cutoff's gap otherwise |
| Fates.AnsweredOnce | crates/sequencer/src/node.rs:432-446 | no entry is answered twice |
| CoordinatorLaws.FinalPassIsIdle | crates/sequencer/src/node.rs:453-465 | the cutoff pass at shutdown changes no outcome, and every entry still to mature is pending after it |
| CoordinatorLaws.ShutdownLeavesPending | crates/sequencer/src/node.rs:453-465 | whatever the delays, an entry of tick 1 that matures later has a run that ends with it pending after the pass |
| CoordinatorLaws.PendingUntilMature | crates/sequencer/src/node.rs:308-383 | in every state of every run an entry that has not matured is pending: no outcome, opened or gap, appears before maturity |
| CoordinatorLaws.NoWaveWithinWindow | crates/sequencer/src/node.rs:355-371 | with the startup check passed, no wave leaves before the windows of its entries and the slack are over |
| CoordinatorLaws.TickKeepsFlights | crates/sequencer/src/node.rs:355-371 | a tick sends every due wave once and none twice |
| CoordinatorLaws.ApplySettles | crates/sequencer/src/node.rs:469-497 | a solver report replaces only pending outcomes, even with missing or surplus witnesses |
| Coordinator.Node.HandleTick | crates/sequencer/src/node.rs:308-383 | positions, wave scheduling, dispatch and cutoff, loop by loop, make one step of the state machine |
| Coordinator.Node.SendDue | crates/sequencer/src/node.rs:355-371 | removes exactly the due waves and sends each once with its items |
| Coordinator.Node.CutOffOverdue | crates/sequencer/src/node.rs:373-383 | turns exactly the overdue pending positions into unopened gaps |
| Coordinator.Node.HandleWave | crates/sequencer/src/node.rs:432-497 | applies outcomes to items in order, as far as witnesses reach |
| Pipeline.SealedBatchIsBatch | crates/sequencer/src/node.rs:266-328 | every sealed batch of every run, holes or not, is what the scheduler needs: entries of one tick at distinct places |
| Pipeline.StoreExtends | crates/sequencer/src/store.rs:73-97 | over any run of the coordinator each store extends all earlier ones, which is what the adapter's confluence assumes |
| Delivery.AnswerIsRead | demo/gateway/src/lighter_sim.rs:457-488 | the adapter reads the solver's intent or reason at an entry answered in time, and an unopened gap at one answered late |
| Delivery.HeadShowsMaturity | demo/gateway/src/lighter_sim.rs:464-488 | standing at an unanswered entry the adapter reports it with the tick it matures at, until the grace is over |
| Delivery.TimelyOpeningIsExecuted | demo/gateway/src/lighter_sim.rs:457-524 | once the adapter is past an entry opened in time, the tape prefix its state is the fold of holds that intent at its place |
| Holes.NumberedBatchIff | crates/sequencer/src/node.rs:317-328 | the batch scheduled for a sealed tick is numbered from zero if and only if no fence left a hole in the tick |
| Holes.AllPlacesIff | crates/sequencer/src/node.rs:317-328 | a tick's batch puts every place below its entry count on the tape if and only if it is numbered from zero |
| Holes.PlacesAreSettled | crates/sequencer/src/store.rs:73-97 | whether a tick misses a place never changes after it is sealed |
| Holes.PassesIffResolved | demo/gateway/src/lighter_sim.rs:457-500 | over a coordinator's store the adapter gets past a tick if and only if every place up to it is on the tape and resolved |
| Holes.PassesIffAllPlaces | demo/gateway/src/lighter_sim.rs:457-500 | once the cutoffs up to a tick have passed, the adapter gets past it if and only if no tick up to it misses a place |
| Holes.AdapterPassesIffNoHoles | demo/gateway/src/lighter_sim.rs:457-500 | from sequencer to adapter: with the coordinator fed by any reachable sequencer state and the cutoffs passed, the adapter gets past a tick if and only if no fence left a hole up to it |
| Holes.HoleStallsAdapter | demo/gateway/src/lighter_sim.rs:457-488 | no schedule of polls over any later state ever passes a missing place |
| Scenarios.FencedReceiptConvicts | crates/sequencer/src/admission.rs:267-285 | an honest run whose released receipt is a verifying omission |
| Scenarios.HoleReached | crates/sequencer/src/admission.rs:267-285 | an honest run that seals a tick with a hole |
| Scenarios.HoleIsRefused | crates/sequencer/src/transcript.rs:70-73 | the transcript of that run is refused, and its first span is anchored in no continuation |
| Scenarios.GapAdmits | crates/sequencer/src/node.rs:265-332 | a submission is admitted between taking a tick and opening the next |
| Scenarios.GapCollides | crates/sequencer/src/node.rs:265-332 | after an earlier receipt of the tick such a submission gets that receipt's place for another commitment |
| Clock.RunClock | crates/sequencer/src/clock.rs:83-133 | for any sequence of seeds the loop emits the specified ticks, segment ends and proofs |
| Clock.TicksAreConsecutive | crates/sequencer/src/clock.rs:95-101 | over any run the ticks are numbered 1, 2, 3, ... with a fixed count to a segment |
| Clock.NextState | crates/sequencer/src/clock.rs:95-96 | each tick's state is a fixed number of squarings on from the one before |
| Clock.TicksAdvance | crates/sequencer/src/clock.rs:83-133 | every tick event of a run shows its segment, its number and a state q squarings on from the event before, or from the seed |
| Clock.EndShowsLastTick | crates/sequencer/src/clock.rs:100-115 | a segment's end event shows its seed and the state of its last tick |
| Clock.EverySegmentVerifies | crates/sequencer/src/clock.rs:136-157 | every segment of every run passes the watcher's verification against the published end of the segment before |
| Clock.SeedUsesEveryInput | crates/sequencer/src/clock.rs:51-72 | no input of a segment's seed is ignored |
| Clock.SeedIsSquare | crates/sequencer/src/clock.rs:51-72 | every segment starts in a square |
| Verdicts.SegmentVerdict | crates/sequencer/src/clock.rs:136-157 | a seal beside its honest element passes the watcher if and only if it starts in the published seed, runs the profile's squarings and ends where the clock did |
| Vdf.TickAdvance | crates/vdf/src/posq.rs:65-71 | q squarings give x^(2^q) mod N, and x itself for q = 0 |
| Vdf.AdvancesCompose | crates/vdf/src/posq.rs:65-71 | advancing a and then b squarings is advancing a + b |
| Vdf.QuotientPower | crates/vdf/src/posq.rs:108-127 | the streaming division accumulates x to the quotient of 2^t by l, without forming 2^t |
| Vdf.ComputeProof | crates/vdf/src/wesolowski.rs:39-50 | the simple prover takes the base to the quotient of 2^(t mod 2^32) by the challenge |
| Vdf.WesolowskiIdentity | crates/vdf/src/posq.rs:157-171 | pi^l times x^(2^t mod l) is x^(2^t), for every base, count and challenge of at least 2 |
| Vdf.HonestProofAccepted | crates/vdf/src/posq.rs:138-172 | an honest proof is accepted for every t and challenge, unless t = 0 and the base is not reduced, when it is refused as malformed |
| Verdicts.HonestElementVerdict | crates/vdf/src/posq.rs:157-172 | beside its honest element a claimed output is accepted if and only if it is x^(2^t): any other is answered false, whatever the challenge |
| Verdicts.AnyElementVerdict | crates/vdf/src/posq.rs:157-172 | over an invertible base any output with any element is accepted if and only if element^l x^(2^t) = output honest^l |
| Vdf.BinaryModPow | crates/vdf/src/wesolowski.rs:39-50 | the simple exponentiation loop gives the residue for every modulus |
| Vdf.ProversAgreeIff | crates/vdf/src/wesolowski.rs:39-50 | the simple prover equals the streaming one on all bases and moduli if and only if the count fits 32 bits or the challenge exceeds 2^t |
| SlidingWindow.SequentialSquaring | crates/vdf/src/montgomery_simple.rs:26-64 | both strategies and the unrolled chunks equal plain repeated squaring for every count |
| SlidingWindow.ModularPower | crates/vdf/src/montgomery_simple.rs:67-84 | right for every base, exponent and modulus, if and only if not modulus 1 with exponent 0 |
| SlidingWindow.SmallPower | crates/vdf/src/montgomery_simple.rs:86-103 | binary exponentiation gives the residue |
| SlidingWindow.SlidingWindowPower | crates/vdf/src/montgomery_simple.rs:105-165 | the window loop keeps the power of the exponent's high bits and ends in the residue |
| SlidingWindow.FindWindow | crates/vdf/src/montgomery_simple.rs:127-155 | each window is odd, at most the window size, spells the exponent's bits and indexes inside the table |
| SlidingWindow.OddPowers | crates/vdf/src/montgomery_simple.rs:109-119 | the table filled in place holds the odd powers |
| SlidingWindow.WindowStep | crates/vdf/src/montgomery_simple.rs:127-165 | squaring through a window and multiplying by its table entry extends the consumed prefix by the window |
| MillerRabin.IsProbablyPrime | crates/vdf/src/lib.rs:74-137 | the loops decide the acceptance predicate, for any derived bases |
| MillerRabin.PrimeNeverRejected | crates/vdf/src/lib.rs:74-137 | no prime is ever rejected, whatever the derived bases |
| MillerRabin.ExactBelow1681 | crates/vdf/src/lib.rs:74-137 | below 41^2 the verdict is exactly primality |
| MillerRabin.PrimePasses | crates/vdf/src/lib.rs:95-108 | a prime passes the witness loop for every base it does not divide |
| MillerRabin.PassesIff | crates/vdf/src/lib.rs:95-108 | a number passes a base if and only if its Fermat power is 1 and no square on the way there is 1 with a root other than 1 and -1 |
| MillerRabin.AcceptedIff | crates/vdf/src/lib.rs:74-137 | above 37 a number is accepted if and only if no listed prime divides it and no tried base proves it composite |
| MillerRabin.HostAcceptedIff | demo/contracts/src/PoSqHost.sol:294-319 | above 37 the contract accepts exactly the odd numbers that no listed base proves composite |
| MillerRabin.HashToPrime | crates/vdf/src/lib.rs:55-67 | the search ends, at the first accepted candidate |
| MillerRabin.NoPrimeSkipped | crates/vdf/src/lib.rs:62-64 | the search passes over no prime |
| MillerRabin.HostIsProbablePrime | demo/contracts/src/PoSqHost.sol:294-319 | the contract's loops decide its acceptance predicate |
| MillerRabin.HostAcceptsPrimesAbove3 | demo/contracts/src/PoSqHost.sol:294-319 | the contract accepts a prime if and only if it exceeds 3 |
| MillerRabin.HostAcceptsRustPrimes | demo/contracts/src/PoSqHost.sol:290-319 | what the Rust code accepts the contract accepts if and only if it exceeds 3 |
| Primes.Fermat | crates/vdf/src/lib.rs:95-108 | Fermat's little theorem, on which completeness of the witness loop rests |
| Primes.SquareRootsOfOne | crates/vdf/src/lib.rs:101-106 | modulo a prime 1 has only the roots 1 and -1 |
| Primes.LargerPrime | crates/vdf/src/lib.rs:62-64 | there is a prime from any candidate on, so the search ends |
| Timelock.SetupVerifies | crates/vdf/src/tlk.rs:64-93 | every setup verifies, for any delay menu and challenges |
| Verdicts.SetupVerdict | crates/vdf/src/tlk.rs:77-93 | a setup whose proofs are honest elements for what it publishes is accepted if and only if it is for the expected generator and every class publishes the sequential power |
| Timelock.KemAgreement | crates/vdf/src/tlk.rs:122-177 | the solver's u^(2^T) equals the encryptor's h^r |
| Timelock.HonestCiphertextOpens | crates/vdf/src/tlk.rs:122-199 | an honest ciphertext opens to its plaintext if and only if the witness is the solved one and the associated data the same |
| Timelock.Solve | crates/vdf/src/tlk.rs:167-189 | solving succeeds exactly on solvable ciphertexts, and its opening verifies |
| Verdicts.OpeningVerdict | crates/vdf/src/tlk.rs:179-189 | a claimed witness beside its honest element is accepted if and only if it is the solution |
| Timelock.Aggregate | crates/vdf/src/batch_solve.rs:52-67 | the loop multiplies the weighted powers |
| Timelock.AggregateRelation | crates/vdf/src/batch_solve.rs:52-67 | for any weights the aggregates keep W = U^(2^T) |
| Timelock.SolveWave | crates/vdf/src/batch_solve.rs:71-138 | succeeds exactly on solvable waves of any size, each witness is the solved value, and `verify_wave` accepts the result |
| Verdicts.WaveVerdict | crates/vdf/src/batch_solve.rs:112-138 | a wave beside the honest element for its claim is accepted if and only if it fits its ciphertexts, claims the weighted product of its witnesses, and that is the power of the weighted product of the bases |
| WaveFaults.OneWrongWitness | crates/vdf/src/batch_solve.rs:52-67 | a wave with one wrong witness is accepted if and only if the witness and the solution agree in the power of that position's weight |
| Words.AndMask | demo/contracts/src/BigMulMod.sol:74-81 | masking is the residue modulo 2^64, from the bits up |
| Words.OrDisjoint | demo/contracts/src/BigMulMod.sol:104-104 | joining disjoint bit ranges is addition |
| BigMul.SplitLimbs | demo/contracts/src/BigMulMod.sol:67-82 | the limbs spell the operand, each below 2^64 |
| BigMul.ColumnBound | demo/contracts/src/BigMulMod.sol:84-93 | 32 products of limbs stay below 2^133 |
| BigMul.Columns | demo/contracts/src/BigMulMod.sol:84-93 | the columns sum to the product of the operands, each below 2^133, and no word overflows |
| BigMul.NoCarryOverflow | demo/contracts/src/BigMulMod.sol:103-105 | column plus carry never overflows a word and the next carry stays bounded |
| BigMul.PackWord | demo/contracts/src/BigMulMod.sol:100-106 | four columns become one word and a carry that together keep their value |
| BigMul.AllStored | demo/contracts/src/BigMulMod.sol:95-110 | the stored words are the exact product and the final carry is 0 |
| BigMul.Mul256x256 | demo/contracts/src/BigMulMod.sol:45-112 | the 512 bytes are exactly a times b, for all 256-byte operands |
| BigMul.MulMod2048 | demo/contracts/src/BigMulMod.sol:33-41 | reverts exactly on wrong lengths, and otherwise returns (a b) mod n, or 0 for n = 0 |
| HostVerifier.VerifySegmentProof | demo/contracts/src/PoSqHost.sol:327-368 | reverts exactly when a requirement fails, and otherwise accepts if and only if the Wesolowski equation holds |
| HostVerifier.HonestSegmentOnHost | demo/contracts/src/PoSqHost.sol:327-368 | an honest segment with the Rust prover's challenge satisfies the equation, and is admissible if and only if the count is the profile's and the challenge is within 65536 of its hash and above 3 |
| HostVerifier.AdmissibleIsSearched | demo/contracts/src/PoSqHost.sol:327-368 | a call is admissible if and only if lengths and count fit and the challenge is one of the 65537 numbers from the hash on that no listed base proves composite |
| Verdicts.HostVerdictIsRustVerdict | demo/contracts/src/PoSqHost.sol:350-368 | on any claim, honest or not, the contract's equation holds if and only if the Rust verifier accepts it under the same challenge |
| Verdicts.WrongSegmentRefusedOnHost | demo/contracts/src/PoSqHost.sol:350-368 | beside its honest element a segment passes the equation if and only if it ends in the sequential output |
| OrderBook.Book.ExecuteTx | demo/gateway/src/lighter_sim.rs:120-240 | the class, with its index, counters and both sides, behaves as the specification |
| OrderBook.Book.Cross | demo/gateway/src/lighter_sim.rs:155-214 | the matching loop ends, and its trades, remainder and book are the specified match |
| BookLaws.MatchIsThePriorityFill | demo/gateway/src/lighter_sim.rs:155-214 | a result is the match if and only if it is a priority fill: a prefix of the opposite side in (price, nonce) order, all but the last maker consumed, every fill within the limit, stopping only when done or nothing crosses |
| BookLaws.VolumeConserved | demo/gateway/src/lighter_sim.rs:155-214 | the opposite side loses exactly what is filled, and filled plus remaining is the order's size |
| BookLaws.TakerAccounting | demo/gateway/src/lighter_sim.rs:155-237 | size = traded + rested + discarded, nothing of a limit order is discarded, and nothing crossable is left beside a remainder |
| TradeLaws.TradesTakeTheBest | demo/gateway/src/lighter_sim.rs:155-214 | trade k is with the k-th opposite order of the book before, at its price and within the taker's limit, between exactly these parties at the place executed, taking all of each maker but possibly the last; the last price is remembered |
| TradeLaws.OrderEffect | demo/gateway/src/lighter_sim.rs:146-237 | the opposite side is what the trades leave, the own side gains exactly a limit order's remainder under the next nonce, and a remainder means nothing is left within the limit |
| TradeLaws.CancelEffect | demo/gateway/src/lighter_sim.rs:122-130 | a cancel takes its order off, and changes no other order, nonce or price |
| TradeLaws.KeyInUseIff | demo/gateway/src/lighter_sim.rs:122-141 | a client key can be cancelled, and cannot be used again, if and only if an order rests under it |
| TradeLaws.MakersInPriceTimeOrder | demo/gateway/src/lighter_sim.rs:74-93 | makers stand by price and then by age |
| BookLaws.ExecuteKeepsInv | demo/gateway/src/lighter_sim.rs:120-240 | every transaction keeps: both sides ordered with positive sizes and nonces unique below the counter, best bid below best ask, the cancel index exact |
| BookLaws.EveryRunKeepsInv | demo/gateway/src/lighter_sim.rs:120-240 | so does every sequence of creates and cancels from the empty book |
| BookLaws.ClientKeysUnique | demo/gateway/src/lighter_sim.rs:92-93 | a client key names at most one resting order |
| BookLaws.CancelRemovesOne | demo/gateway/src/lighter_sim.rs:122-130 | a cancel removes exactly the order its key names |
| BookLaws.FailureIsNoOp | demo/gateway/src/lighter_sim.rs:122-141 | exactly the listed refusals fail, and a failure leaves the book unchanged |
| TradeLaws.FailureNamesItsCause | demo/gateway/src/lighter_sim.rs:122-141 | a failure names the first cause that applies |
| TapeAdapter.SimState.Advance | demo/gateway/src/lighter_sim.rs:434-535 | a poll is some number of reference steps, as many as the store allows or at least the batch bound, reports progress, and reports the pending position it stands at, with its maturity, whenever it stops short of the bound |
| TapeAdapter.SimState.Replay | demo/gateway/src/lighter_sim.rs:502-524 | replaying the batch with interleaved seals is applying the walked actions in order |
| AdapterLaws.Confluence | demo/gateway/src/lighter_sim.rs:434-535 | however polls are chunked against a growing store, one end state is reached from the other by further steps, and they are equal once nothing can be consumed |
| AdapterLaws.ScheduleIsStepping | demo/gateway/src/lighter_sim.rs:434-535 | any schedule of polls is plain stepping over the final store |
| AdapterLaws.ReachesIff | demo/gateway/src/lighter_sim.rs:457-500 | from the start of an epoch the cursor gets to a place if and only if every tick before it is sealed and every position before it resolved |
| AdapterLaws.EpochOfPolls | demo/gateway/src/lighter_sim.rs:373-535 | an epoch as a whole: however polls are chunked while the store grows, the end state is the audited fold over the resolved prefix of the final tape |
| BlockLedger.EpochRedoes | demo/gateway/src/lighter_sim.rs:373-626 | an epoch keeps the book and restarts the stream, and every published block executes again from the one before it to its results, commitments and book snapshot |
| BlockLedger.RecordIsTape | demo/gateway/src/lighter_sim.rs:537-604 | blocks and block in progress hold, in tape order, exactly the valid entries and exactly the gaps with their reasons, and the trades are those of the recorded results |
| AdapterLaws.SteppingIsPrefixFold | demo/gateway/src/lighter_sim.rs:457-524 | the state is the fold of `process_position` over exactly the resolved prefix before the cursor; nothing at or past a pending head is executed |
| AdapterLaws.SteppingIsAudited | demo/gateway/src/lighter_sim.rs:537-626 | blocks tile the tick range, and consumed positions = tape gaps + adapter gaps + applied + failed, each recorded in one block |
| AdapterLaws.StreamAndBookOfEntries | demo/gateway/src/lighter_sim.rs:571-576 | stream and book are functions of the valid entries alone, gaps leave no trace in them |
| AdapterLaws.StreamBindsEntries | demo/gateway/src/lighter_sim.rs:266-281 | the commitment fixes the number, places and payloads of the valid entries |
| AdapterLaws.StreamOmitsAccounts | demo/gateway/src/lighter_sim.rs:574-576 | a pair of tapes with one commitment and different books |
| AdapterLaws.SameEntriesIffSameAccounts | demo/gateway/src/lighter_sim.rs:571-576 | under one commitment two tapes have the same entries if and only if they have the same accounts in the same places |
| AdapterLaws.RefusedAccountsDoNotShow | demo/gateway/src/lighter_sim.rs:571-576 | a pair with one commitment, different accounts and one book |
| AdapterLaws.StreamAndAccountsFixBook | demo/gateway/src/lighter_sim.rs:571-576 | with the accounts given, the commitment fixes the book |
| AdapterBook.SteppingKeepsBook | demo/gateway/src/lighter_sim.rs:537-604 | the adapter's book keeps the matching engine's invariant on every tape |
| Streams.ComputeStreamRoot | crates/continuum-lighter-plugin/src/binding.rs:61-88 | the loop is the fold from the seeded start |
| Streams.StreamRootInjective | crates/continuum-lighter-plugin/src/binding.rs:61-88 | a stream root fixes the domain, the start cursor and the whole stream, and only them |
| Streams.ItemsRootInjective | crates/continuum-lighter-plugin/src/binding.rs:108-130 | an item root fixes the domain, frame, start cursor and items |
| Streams.RootsHashCounts | crates/continuum-lighter-plugin/src/binding.rs:61-130 | both roots hash the number of items, and the item root each index |
| Streams.OrderedAccumulator.Advance | crates/continuum-lighter-plugin/src/accumulator.rs:44-71 | takes an item if and only if its index is the next and the declared count is not reached, and otherwise changes nothing and says which |
| Streams.OrderedAccumulator.Finish | crates/continuum-lighter-plugin/src/accumulator.rs:81-89 | yields the digest of the items taken exactly when all declared items were |
| Streams.ComputeItemsRoot | crates/continuum-lighter-plugin/src/binding.rs:108-130 | driving the accumulator never fails and gives the fold |
| SequenceVerifier.VerifyTransition | crates/continuum-lighter-plugin/src/sequence.rs:134-348 | succeeds if and only if the transition meets the declarative relation `Accepts`, and every error names a fault that is there |
| SequenceVerifier.VerifyReceipts | crates/continuum-lighter-plugin/src/sequence.rs:157-204 | contiguous cursors within 64 bits, strictly increasing positions, one digest chain, no duplicate digest or envelope, valid signatures and availability |
| SequenceVerifier.TabulateResolutions | crates/continuum-lighter-plugin/src/sequence.rs:206-217 | distinct resolutions, each naming a receipt of the span |
| SequenceVerifier.VerifyItems | crates/continuum-lighter-plugin/src/sequence.rs:228-284 | every namespace receipt has a resolution bound to it with valid terminal semantics at its logical index, collected in receipt order |
| SequenceVerifier.VerifyCommitments | crates/continuum-lighter-plugin/src/sequence.rs:290-345 | the state equations, both roots and the binding hash |
| SequenceVerifier.SurplusIsOrphan | crates/continuum-lighter-plugin/src/sequence.rs:286-288 | the count comparison fails if and only if some resolution names no receipt of the namespace |
| SequenceVerifier.FaultRefutes | crates/continuum-lighter-plugin/src/sequence.rs:134-348 | an accepted transition has no fault of any of the 23 kinds |
| SequenceLaws.ReceiptsGoodIff | crates/continuum-lighter-plugin/src/sequence.rs:157-204 | the checks receipt by receipt hold if and only if the span as a whole is ordered on the tape without repetition, numbered from the old cursor on, and one signed chain from the old chain root |
| SequenceLaws.ReceiptsLinkStates | crates/continuum-lighter-plugin/src/sequence.rs:157-315 | the receipts of an accepted transition lead from the old state's chain root and cursor to the new state's |
| SequenceLaws.TerminalIff | crates/continuum-lighter-plugin/src/sequence.rs:240-275 | the terminal semantics say exactly: live if the envelope cleared, otherwise an empty no-op carrying the reason |
| SequenceLaws.ExecutionsFollowReceipts | crates/continuum-lighter-plugin/src/sequence.rs:228-284 | execution k of an accepted transition is that of the k-th namespace receipt, under index k, as resolved |
| SequenceLaws.StatesAgree | crates/continuum-lighter-plugin/src/sequence.rs:134-156 | domain, epoch and configuration are kept, and the item count grows by the namespace's receipts |
| JoinLaws.AcceptedPublicsAreDetermined | crates/continuum-lighter-plugin/src/sequence.rs:134-348 | one witness over one old state leaves no choice in any cursor, count, root, chain end or binding hash of an accepted transition |
| JoinLaws.BindingHashFixesBatch | crates/continuum-lighter-plugin/src/sequence.rs:290-345 | two accepted transitions with one binding hash have one binding, the same items, executions and namespace receipts in the same order |
| Join.ResolutionsAreBijective | crates/continuum-lighter-plugin/src/sequence.rs:206-288 | in an accepted transition each resolution belongs to exactly one receipt of the namespace |
| Join.BatchConsumes | crates/continuum-lighter-plugin/src/join.rs:71-135 | an accepted batch that joins has executed exactly its namespace's resolutions in receipt order, with logical indexes 0, 1, 2, ..., and moves the head by exactly its receipts and items |
| Join.RunConsumesExactly | crates/continuum-lighter-plugin/src/join.rs:71-135 | over any run of joined batches the receipts carry the cursors from genesis on, each once and in order; the executed streams are item by item their projection to the namespace; cursor and count equal genesis plus what was consumed |
| JoinLaws.AdvancesIff | crates/continuum-lighter-plugin/src/join.rs:71-135 | the join advances if and only if both publics are of the head's chain, start in it and order what they execute, and otherwise complains of something that is so |
| JoinLaws.RunJoinsIff | crates/continuum-lighter-plugin/src/join.rs:71-135 | a run of batches joins if and only if each starts in what the one before left, in cursor, count, transcript root, state root and priority queue; the head is then what the last one left, with its binding hash, on the same domain, epoch and verifiers |
| Settlement.ContinuumBinding.CommitBatch | contracts/production/ContinuumLighterBinding.sol:113-132 | records a batch exactly when its id is free and nothing is zero |
| Settlement.ContinuumBinding.VerifyAndAdvance | contracts/production/ContinuumLighterBinding.sol:136-199 | succeeds if and only if the batch is pending with these commitments, `advance_head` accepts and both proofs verify; then the head is that of `advance_head` and the batch is gone, otherwise nothing changes |
| Settlement.ContractRunsAreJoins | contracts/production/ContinuumLighterBinding.sol:113-199 | whoever calls what in whatever order, the finalised calls are a run of the join from the genesis head, with an accepted transition and an executed stream behind each |
| JoinLaws.ContractHeadIsLeft | contracts/production/ContinuumLighterBinding.sol:136-199 | whoever calls what, the contract's head is what its last finalised batch left, and each finalised batch continues the one before it from genesis |
| JoinLaws.FinalizesIff | contracts/production/ContinuumLighterBinding.sol:136-199 | a call finalises if and only if its batch is pending with these commitments, its publics join the head and both proofs verify |
| Settlement.PendingIsWellFormed | contracts/production/ContinuumLighterBinding.sol:113-132 | whatever is pending was committed by a call, under a nonzero id and binding |

## Left out

- FraudProofs.NeverReorders: and the other run theorems take sealing as one step; `take_tick` and `advance_open` apart are the subject of the two gap lemmas only, because a submission between them breaks the chain invariant.
- Admission.AdmissionDesk.FenceAt: returns the released commitments as a set, because the order in which a map's buffers are visited carries no promise; pending entries omit the stored envelope body, which nothing here reads.
- Admission.AdmissionDesk.SubmitEnvelope: whether the envelope body could be stored is a parameter; tick, position and open-tick arithmetic does not wrap.
- HostVerifier.HonestSegmentOnHost: takes the challenge as an unbounded number; one at or above 2^256 could not be passed to the contract at all.
- BigMul.Mul256x256: scratch memory is fresh zeroed arrays, which is what the contract assumes of memory past its free region; gas and memory expansion are not modelled.
- Verdicts.AnyElementVerdict: says which elements pass, not that they are hard to find; soundness of Wesolowski proofs against elements made for it, of the aggregated wave proof, and secrecy of the timelock are computational claims.
- MillerRabin.PrimeNeverRejected: says nothing of composites at or above 1681, which probabilistic bases may let through.
- OrderBook.Book.ExecuteTx: a side is a key-ordered sequence instead of a tree map, and the hexadecimal round trip of maker accounts is the identity.
- TapeAdapter.SimState.Advance: block timestamps, event broadcasts and the bounds on the kept history are dropped; a block's snapshot is the whole book.
- Join.RunConsumesExactly: takes one namespace for all batches, because the namespace is not among the joined publics and must be pinned by the sequence verifier; nothing is claimed of receipt linkage across spans, as the head carries no receipt-chain root.
- Settlement.ContractRunsAreJoins: assumes both proof verifiers sound; the constructor's revert on a zero domain is a precondition, and verifier addresses are always present.
- Coordinator.Node.HandleTick: delays are an arbitrary function of the class; the order in which waves of one tick are sent is left open, because each runs on its own thread.
- Coordinator.Node.HandleWave: what an opening yields (decryption, intent checks) is given as an outcome; status counters are dropped, since they count events whose outcome was already settled.
- Anchors.MaybeAnchor: the anchor's receipts root, availability attestation, segment seals and signature are not part of the model; a failed write of a sealed tick is not modelled, and the number of segments per anchor is positive.
- Clock.RunClock: sending never fails and proofs are listed apart from the events, because their thread may report at any time; rate calibration is floating point.
- Transcript.VerifySpan: positions are unbounded, so the 32-bit cast of an entry's index is not modelled.
- The contract's slashing entry points, anchor acceptance and forced inclusion in `demo/contracts/src/PoSqHost.sol`; the bridge demo.
- Wall-clock timeliness: late ticks appear as fences at arbitrary moments, which covers more than the node does.
- Sampled batch verification in `crates/vdf/src/batch.rs`, `crates/vdf/src/montgomery.rs` (not part of the crate) and the other squaring backends, which would repeat the same arithmetic.
- The gRPC and HTTP services, stores on disk, dashboards, bots, posters, deployment scripts and vector generators.
- Byte-level preimages of `crates/continuum-lighter-plugin/src/types.rs` and `canonical.rs`, which are fixed-width tuples.
