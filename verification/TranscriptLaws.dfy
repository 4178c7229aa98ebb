/** The predicate on the sequencer's own runs: which spans verify. */
module TranscriptLaws {
  import opened Wrappers
  import opened Digests
  import opened Records
  import opened Params
  import opened Admission
  import opened Merkle
  import opened Sequencer
  import opened SequencerLaws
  import opened Transcript

  function StoreOf(s: Sys): Store {
    t => if 1 <= t <= |s.sealed| then Some(s.sealed[t - 1]) else None
  }

  /** Every released receipt of the tick lies after all that were kept. */
  ghost predicate NoHoles(s: Sys, t: nat) {
    forall q, r | q in s.issued && r in s.issued && q.tick == r.tick == t && q !in s.released && r in s.released ::
      q.pos < r.pos
  }

  /** What a span has seen holds nothing from later ticks. */
  ghost predicate Unseen(s: Sys, t: nat, seen: set<Digest>) {
    forall r | r in s.issued && r !in s.released && r.tick >= t :: r.h !in seen
  }

  ghost predicate ReceiptsGood(t: nat, entries: seq<BatchEntry>, receipts: seq<Receipt>) {
    forall j | 0 <= j < |receipts| :: ReceiptMatches(t, entries, receipts[j])
  }

  ghost predicate Numbered(rs: seq<Receipt>) {
    forall i | 0 <= i < |rs| :: rs[i].pos == i
  }

  lemma {:induction false} LiveAll(rs: seq<Receipt>, released: set<Receipt>)
    requires forall r | r in rs :: r !in released
    ensures Live(rs, released) == rs
  {
    if rs != [] {
      LiveAll(rs[..|rs| - 1], released);
    }
  }

  /** In a numbered list, keeping only a last element and what precedes every
      released one keeps everything before it. */
  lemma LastKept(rs: seq<Receipt>, released: set<Receipt>)
    requires rs != [] && Numbered(rs) && rs[|rs| - 1] !in released
    requires forall q, r | q in rs && r in rs && q !in released && r in released :: q.pos < r.pos
    ensures Live(rs[..|rs| - 1], released) == rs[..|rs| - 1]
  {
    var n := |rs| - 1;
    forall r | r in rs[..n]
      ensures r !in released
    {
      var i :| 0 <= i < n && rs[i] == r;
      assert r in rs && rs[n] in rs;
    }
    LiveAll(rs[..n], released);
  }

  lemma {:induction false} LiveNumbered(rs: seq<Receipt>, released: set<Receipt>)
    requires Numbered(rs)
    requires forall q, r | q in rs && r in rs && q !in released && r in released :: q.pos < r.pos
    ensures Numbered(Live(rs, released))
  {
    if rs != [] {
      if rs[|rs| - 1] in released {
        LiveNumbered(rs[..|rs| - 1], released);
      } else {
        LastKept(rs, released);
      }
    }
  }

  lemma LiveNumberedMeans(rs: seq<Receipt>, released: set<Receipt>, q: Receipt, r: Receipt)
    requires Numbered(rs) && Numbered(Live(rs, released))
    requires q in rs && r in rs && q !in released && r in released
    ensures q.pos < r.pos
  {
    var live := Live(rs, released);
    LiveMembers(rs, released);
    var i :| 0 <= i < |live| && live[i] == q;
    var m :| 0 <= m < |rs| && rs[m] == r;
    if m <= i {
      var p := LiveAt(rs, released, m);
    }
  }

  /** A sealed batch is numbered from zero exactly when the tick has no holes. */
  lemma NumberedIffNoHoles(env: Env, s: Sys, t: nat)
    requires ChainsOk(env, s)
    ensures Numbered(Live(IssuedAt(s.issued, t), s.released)) <==> NoHoles(s, t)
  {
    var rs := IssuedAt(s.issued, t);
    IssuedAtMembers(s.issued, t);
    assert Chained(env.params.epoch, t, rs);
    forall i | 0 <= i < |rs|
      ensures rs[i].pos == i
    {
      assert Linked(env.params.epoch, t, rs, i);
    }
    assert Numbered(rs);
    hide IssuedAt;
    hide Live;
    hide ChainsOk;
    hide Chained;
    if Numbered(Live(rs, s.released)) {
      forall q, r | q in s.issued && r in s.issued && q.tick == r.tick == t && q !in s.released && r in s.released
        ensures q.pos < r.pos
      {
        LiveNumberedMeans(rs, s.released, q, r);
      }
    }
    if NoHoles(s, t) {
      LiveNumbered(rs, s.released);
    }
  }

  lemma SealedNumbered(env: Env, s: Sys, t: nat)
    requires ChainsOk(env, s) && BatchesOk(s) && 1 <= t <= |s.sealed|
    ensures Numbered(s.sealed[t - 1].receipts) <==> NoHoles(s, t)
  {
    assert BatchFits(s.sealed[t - 1], IssuedAt(s.issued, t), s.released);
    NumberedIffNoHoles(env, s, t);
  }

  lemma EntriesGoodIff(env: Env, s: Sys, t: nat, seen: set<Digest>)
    requires ChainsOk(env, s) && BatchesOk(s) && AccountsOk(s) && 1 <= t <= |s.sealed| && Unseen(s, t, seen)
    ensures EntriesGood(t, s.sealed[t - 1].entries, 0, seen) <==> NoHoles(s, t)
    ensures NoHoles(s, t) ==> ReceiptsGood(t, s.sealed[t - 1].entries, s.sealed[t - 1].receipts)
  {
    var sealed := s.sealed[t - 1];
    var rs := IssuedAt(s.issued, t);
    assert BatchFits(sealed, rs, s.released);
    NumberedIffNoHoles(env, s, t);
    var live := sealed.receipts;
    forall j | 0 <= j < |live|
      ensures GoodReceipt(s, t, live[j])
    {
      BatchReceipt(env, s, t, j);
    }
    if Numbered(live) {
      forall j, k | 0 <= j < k < |live|
        ensures live[j].h != live[k].h
      {
        assert GoodReceipt(s, t, live[j]) && GoodReceipt(s, t, live[k]) && live[j] != live[k];
      }
    }
    hide NoHoles;
    hide Live;
    hide IssuedAt;
    if EntriesGood(t, sealed.entries, 0, seen) {
      forall j | 0 <= j < |live|
        ensures live[j].pos == j
      {
        assert sealed.entries[j] == EntryOf(live[j]);
      }
    }
  }

  /** Issued for the tick, kept, and the digest of its fields. */
  ghost predicate GoodReceipt(s: Sys, t: nat, r: Receipt) {
    r in s.issued && r !in s.released && r.tick == t && r.d == DigestStep(r.dPrev, t, r.pos, r.h, r.bucket, r.ticketId)
  }

  lemma BatchReceipt(env: Env, s: Sys, t: nat, j: nat)
    requires ChainsOk(env, s) && BatchesOk(s) && 1 <= t <= |s.sealed| && j < |s.sealed[t - 1].receipts|
    ensures GoodReceipt(s, t, s.sealed[t - 1].receipts[j])
  {
    var rs := IssuedAt(s.issued, t);
    assert BatchFits(s.sealed[t - 1], rs, s.released);
    IssuedAtMembers(s.issued, t);
    var r := LiveAt(rs, s.released, j);
    var i :| 0 <= i < |rs| && rs[i] == r;
    assert Chained(env.params.epoch, t, rs) && Linked(env.params.epoch, t, rs, i);
  }

  lemma SeenAfter(env: Env, s: Sys, t: nat, seen: set<Digest>)
    requires ChainsOk(env, s) && BatchesOk(s) && AccountsOk(s) && 1 <= t <= |s.sealed| && Unseen(s, t, seen)
    ensures Unseen(s, t + 1, seen + CommitmentsFrom(s.sealed[t - 1].entries, 0))
  {
    var sealed := s.sealed[t - 1];
    assert BatchFits(sealed, IssuedAt(s.issued, t), s.released);
    forall r | r in s.issued && r !in s.released && r.tick >= t + 1
      ensures r.h !in CommitmentsFrom(sealed.entries, 0)
    {
      forall j | 0 <= j < |sealed.entries|
        ensures sealed.entries[j].h != r.h
      {
        BatchReceipt(env, s, t, j);
        assert sealed.entries[j] == EntryOf(sealed.receipts[j]);
      }
    }
  }

  /** Everything but the numbering holds of every sealed tick. */
  lemma SealedRecordGood(env: Env, s: Sys, t: nat)
    requires LogOk(env, s) && SignedOk(s) && 1 <= t <= |s.sealed|
    ensures var r := s.sealed[t - 1].record;
            && r.tick == t && r.epoch == env.params.epoch && RecordVerifies(s.signed, r)
            && r.batchRoot == Root(LeavesOf(s.sealed[t - 1].entries))
            && r.cPrev == LogHead(env.params.epoch, s.sealed[..t - 1])
            && r.cT == LogHead(env.params.epoch, s.sealed[..t])
            && r.cT == LogStep(r.cPrev, t, r.batchRoot, GroupElement(r.x))
  {
    assert SealedFits(env.params.epoch, s.sealed, t - 1);
    assert s.sealed[..t][t - 1] == s.sealed[t - 1];
  }

  lemma TickOfRun(env: Env, s: Sys, t: nat, seen: set<Digest>)
    requires Inv(env, s) && 1 <= t <= |s.sealed| && Unseen(s, t, seen)
    ensures var r := CheckTick(s.signed, env.params.epoch, t, StoreOf(s)(t),
                               Span(LogHead(env.params.epoch, s.sealed[..t - 1]), seen));
            && (r.Ok? <==> NoHoles(s, t))
            && (r.Ok? ==> r.value.c == LogHead(env.params.epoch, s.sealed[..t]) && Unseen(s, t + 1, r.value.seen))
  {
    SealedRecordGood(env, s, t);
    EntriesGoodIff(env, s, t, seen);
    SeenAfter(env, s, t, seen);
    hide Inv;
    hide NoHoles;
    hide Unseen;
    hide EntriesGood;
    hide CommitmentsFrom;
    hide ReceiptMatches;
    hide CheckTick;
    hide Root;
    hide LogHead;
    hide LeavesOf;
    TickAccepted(s.signed, env.params.epoch, t, Some(s.sealed[t - 1]),
                 Span(LogHead(env.params.epoch, s.sealed[..t - 1]), seen));
  }

  lemma {:induction false} SpanOfRun(env: Env, s: Sys, start: nat, count: nat, seen: set<Digest>)
    requires Inv(env, s) && 1 <= start && start + count <= |s.sealed| + 1 && Unseen(s, start, seen)
    ensures var r := CheckSpan(s.signed, env.params.epoch, StoreOf(s), start, count,
                               Span(LogHead(env.params.epoch, s.sealed[..start - 1]), seen));
            && (r.Ok? <==> forall t | start <= t < start + count :: NoHoles(s, t))
            && (r.Ok? ==> r.value.c == LogHead(env.params.epoch, s.sealed[..start + count - 1]))
    decreases count
  {
    hide Inv;
    hide NoHoles;
    hide Unseen;
    hide CheckTick;
    hide LogHead;
    if count > 0 {
      TickOfRun(env, s, start, seen);
      var first := CheckTick(s.signed, env.params.epoch, start, StoreOf(s)(start),
                             Span(LogHead(env.params.epoch, s.sealed[..start - 1]), seen));
      if first.Ok? {
        SpanOfRun(env, s, start + 1, count - 1, first.value.seen);
      }
    }
  }

  /** Over any run, a span of sealed ticks verifies from the commitment before it
      exactly when no fence left a hole in it, and then it ends in the commitment
      of its last tick. A run that released nothing verifies throughout. */
  lemma RunVerifiesIff(env: Env, events: seq<Event>, start: nat, count: nat)
    requires Usable(env.params) && 1 <= start && start + count <= |Run(env, events).sealed| + 1
    ensures var s := Run(env, events);
            var r := CheckSpan(s.signed, env.params.epoch, StoreOf(s), start, count,
                               Span(LogHead(env.params.epoch, s.sealed[..start - 1]), {}));
            && (r.Ok? <==> forall t | start <= t < start + count :: NoHoles(s, t))
            && (r.Ok? ==> r.value.c == LogHead(env.params.epoch, s.sealed[..start + count - 1]))
            && (s.released == {} ==> r.Ok?)
  {
    EveryRunKeepsInv(env, events);
    SpanOfRun(env, Run(env, events), start, count, {});
  }
}
