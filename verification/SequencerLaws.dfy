/** Every run of the sequencer keeps its invariant. */
module SequencerLaws {
  import opened Digests
  import opened Records
  import opened Params
  import opened Admission
  import opened Sequencer

  // ----- a submission that is admitted

  ghost function Issue(s: Sys, r: Receipt, delayClass: nat): Sys {
    s.(adm := Reserve(s.adm, r, delayClass), issued := s.issued + [r], signed := s.signed + {ReceiptMessage(r)})
  }

  lemma IssueKeepsLog(env: Env, s: Sys, r: Receipt, k: nat)
    requires LogOk(env, s) && Fresh(env, s.adm, r)
    ensures LogOk(env, Issue(s, r, k))
  {}

  lemma IssueKeepsChains(env: Env, s: Sys, r: Receipt, k: nat)
    requires ChainsOk(env, s) && BuffersOk(s) && Fresh(env, s.adm, r)
    ensures ChainsOk(env, Issue(s, r, k))
  {
    forall t: nat
      ensures Chained(env.params.epoch, t, IssuedAt(s.issued + [r], t))
    {
      IssuedAppend(s.issued, r, t);
      var rs := IssuedAt(s.issued, t);
      assert Chained(env.params.epoch, t, rs) && rs + [] == rs;
      if r.tick == t {
        assert BufferFits(BufferAt(s.adm, t), rs, s.released);
        forall i | 0 <= i < |rs + [r]|
          ensures Linked(env.params.epoch, t, rs + [r], i)
        {
          if i < |rs| {
            assert Linked(env.params.epoch, t, rs, i);
          }
        }
      }
    }
  }

  lemma IssueKeepsBuffers(env: Env, s: Sys, r: Receipt, k: nat)
    requires BuffersOk(s) && Fresh(env, s.adm, r) && r !in s.released
    ensures BuffersOk(Issue(s, r, k))
  {
    hide Count;
    hide IssuedAt;
    hide Live;
    var s' := Issue(s, r, k);
    forall t: nat | t >= s.adm.openTick
      ensures BufferFits(BufferAt(s'.adm, t), IssuedAt(s'.issued, t), s.released)
    {
      IssuedAppend(s.issued, r, t);
      var b, rs := BufferAt(s.adm, t), IssuedAt(s.issued, t);
      assert BufferFits(b, rs, s.released) && rs + [] == rs;
      if r.tick == t {
        LiveAppend(rs, r, s.released);
        var e := PendingEntry(r.tick, r.pos, r.h, r.bucket, k, r.ticketId, r);
        assert BufferAt(s'.adm, t).entries == b.entries + [e];
        assert ReceiptsIn(b.entries + [e]) == ReceiptsIn(b.entries) + [r];
      }
    }
  }

  lemma IssueKeepsBatches(env: Env, s: Sys, r: Receipt, k: nat)
    requires LogOk(env, s) && BatchesOk(s) && Fresh(env, s.adm, r)
    ensures BatchesOk(Issue(s, r, k))
  {
    forall i | 0 <= i < |s.sealed|
      ensures BatchFits(s.sealed[i], IssuedAt(s.issued + [r], i + 1), s.released)
    {
      IssuedAppend(s.issued, r, i + 1);
      assert IssuedAt(s.issued, i + 1) + [] == IssuedAt(s.issued, i + 1);
      assert BatchFits(s.sealed[i], IssuedAt(s.issued, i + 1), s.released);
    }
  }

  lemma IssueKeepsAccounts(env: Env, s: Sys, r: Receipt, k: nat)
    requires AccountsOk(s) && Fresh(env, s.adm, r) && r !in s.released
    ensures AccountsOk(Issue(s, r, k))
  {
    var s' := Issue(s, r, k);
    assert forall q :: q in s'.issued <==> q in s.issued || q == r;
    assert LiveTickets(s') == LiveTickets(s) + {r.ticketId};
    assert LiveCommitments(s') == LiveCommitments(s) + {r.h};
    forall q | q in s.issued && q !in s.released
      ensures q.ticketId != r.ticketId && q.h != r.h
    {
      assert q.ticketId in LiveTickets(s) && q.h in LiveCommitments(s);
    }
  }

  lemma IssueKeepsSigned(s: Sys, r: Receipt, k: nat)
    requires SignedOk(s)
    ensures SignedOk(Issue(s, r, k))
  {
    var s' := Issue(s, r, k);
    assert r in s'.issued && forall q :: q in s'.issued <==> q in s.issued || q == r;
  }

  lemma IssueKeepsInv(env: Env, s: Sys, r: Receipt, k: nat)
    requires Inv(env, s) && Fresh(env, s.adm, r)
    ensures Inv(env, Issue(s, r, k))
  {
    hide LogOk;
    hide ChainsOk;
    hide BuffersOk;
    hide BatchesOk;
    hide AccountsOk;
    hide SignedOk;
    NewPlace(env, s, r);
    assert r !in s.released;
    IssueKeepsLog(env, s, r, k);
    IssueKeepsChains(env, s, r, k);
    IssueKeepsBuffers(env, s, r, k);
    IssueKeepsBatches(env, s, r, k);
    IssueKeepsAccounts(env, s, r, k);
    IssueKeepsSigned(s, r, k);
    assert ReceiptsOk(env, Issue(s, r, k)) by {
      IssueIsBound(env, s, r);
      hide Bound;
      assert forall q :: q in s.issued + [r] <==> q in s.issued || q == r;
    }
  }

  lemma IssueIsBound(env: Env, s: Sys, r: Receipt)
    requires LogOk(env, s) && Fresh(env, s.adm, r)
    ensures Bound(env, s.sealed, r)
  {
    assert s.sealed[..|s.sealed|] == s.sealed;
    assert BoundAt(env, s.sealed, r, |s.sealed|);
  }

  lemma BoundSurvives(env: Env, sealed: seq<SealedTick>, more: seq<SealedTick>, r: Receipt)
    requires Bound(env, sealed, r)
    ensures Bound(env, sealed + more, r)
  {
    var k: nat :| BoundAt(env, sealed, r, k);
    assert (sealed + more)[..k] == sealed[..k];
    assert BoundAt(env, sealed + more, r, k);
  }

  /** Rejections and full-window replies sign nothing about a slot. */
  lemma ReplyKeepsInv(env: Env, s: Sys, m: Message)
    requires Inv(env, s) && (m.RejectionMsg? || m.FullWindowMsg?)
    ensures Inv(env, s.(signed := s.signed + {m}))
  {
    hide SealedFits;
    hide Chained;
    hide BufferFits;
    hide BatchFits;
    hide Bound;
    hide LogHead;
    hide XHead;
    var s' := s.(signed := s.signed + {m});
    assert LiveTickets(s') == LiveTickets(s) && LiveCommitments(s') == LiveCommitments(s);
  }

  lemma SubmissionKeepsInv(env: Env, s: Sys, bytes: Bytes, stored: bool)
    requires Usable(env.params) && Inv(env, s)
    ensures Inv(env, Step(env, s, Submission(bytes, stored)))
  {
    var (adm, o) := Submit(env, s.adm, bytes, stored);
    var k := SubmitCases(env, s.adm, bytes, stored);
    hide Submit;
    hide Inv;
    hide Fresh;
    if o.Admitted? {
      IssueKeepsInv(env, s, o.receipt, k);
    } else {
      ReplyKeepsInv(env, s, OutcomeMessage(env, o));
    }
  }

  // ----- sealing

  lemma BatchOfFits(entries: seq<PendingEntry>)
    requires forall i | 0 <= i < |entries| :: EntryFits(entries[i])
    ensures BatchOf(entries) == EntriesOf(ReceiptsIn(entries))
  {
    forall i | 0 <= i < |entries|
      ensures BatchOf(entries)[i] == EntriesOf(ReceiptsIn(entries))[i]
    {
      assert EntryFits(entries[i]);
    }
  }

  lemma SealKeepsLog(env: Env, s: Sys, segment: nat, x: nat)
    requires LogOk(env, s)
    ensures LogOk(env, SealStep(env, s, segment, x))
  {
    var s' := SealStep(env, s, segment, x);
    var n := |s.sealed|;
    forall i | 0 <= i <= n
      ensures SealedFits(env.params.epoch, s'.sealed, i)
    {
      assert s'.sealed[..i] == s.sealed[..i];
      if i < n {
        assert SealedFits(env.params.epoch, s.sealed, i);
      } else {
        assert s.sealed[..n] == s.sealed;
      }
    }
  }

  lemma SealKeepsRest(env: Env, s: Sys, segment: nat, x: nat)
    requires LogOk(env, s) && ChainsOk(env, s) && BuffersOk(s) && BatchesOk(s)
    ensures var s' := SealStep(env, s, segment, x); ChainsOk(env, s') && BuffersOk(s') && BatchesOk(s')
  {
    var s' := SealStep(env, s, segment, x);
    var n := |s.sealed|;
    forall t: nat | t >= s'.adm.openTick
      ensures BufferFits(BufferAt(s'.adm, t), IssuedAt(s.issued, t), s.released)
    {
      assert BufferFits(BufferAt(s.adm, t), IssuedAt(s.issued, t), s.released);
    }
    forall i | 0 <= i <= n
      ensures BatchFits(s'.sealed[i], IssuedAt(s.issued, i + 1), s.released)
    {
      if i < n {
        assert BatchFits(s.sealed[i], IssuedAt(s.issued, i + 1), s.released);
      } else {
        var b := BufferAt(s.adm, n + 1);
        assert BufferFits(b, IssuedAt(s.issued, n + 1), s.released);
        BatchOfFits(b.entries);
      }
    }
  }

  lemma SealKeepsSigned(env: Env, s: Sys, segment: nat, x: nat)
    requires SignedOk(s)
    ensures SignedOk(SealStep(env, s, segment, x))
  {
    var s' := SealStep(env, s, segment, x);
    var n := |s.sealed|;
    assert RecordMessage(s'.sealed[n].record) in s'.signed;
    forall m | m in s'.signed && m.RecordMsg?
      ensures exists i :: 0 <= i < |s'.sealed| && RecordMessage(s'.sealed[i].record) == m
    {
      if m in s.signed {
        var i :| 0 <= i < n && RecordMessage(s.sealed[i].record) == m;
        assert RecordMessage(s'.sealed[i].record) == m;
      } else {
        assert RecordMessage(s'.sealed[n].record) == m;
      }
    }
  }

  lemma SealKeepsReceipts(env: Env, s: Sys, segment: nat, x: nat)
    requires ReceiptsOk(env, s)
    ensures ReceiptsOk(env, SealStep(env, s, segment, x))
  {
    var s' := SealStep(env, s, segment, x);
    forall r | r in s.issued
      ensures Bound(env, s'.sealed, r)
    {
      BoundSurvives(env, s.sealed, s'.sealed[|s.sealed|..], r);
      assert s'.sealed == s.sealed + s'.sealed[|s.sealed|..];
    }
  }

  lemma SealKeepsInv(env: Env, s: Sys, segment: nat, x: nat)
    requires Inv(env, s)
    ensures Inv(env, SealStep(env, s, segment, x))
  {
    SealKeepsLog(env, s, segment, x);
    SealKeepsRest(env, s, segment, x);
    SealKeepsSigned(env, s, segment, x);
    SealKeepsReceipts(env, s, segment, x);
    var s' := SealStep(env, s, segment, x);
    assert LiveTickets(s') == LiveTickets(s) && LiveCommitments(s') == LiveCommitments(s);
    hide LogOk;
    hide ChainsOk;
    hide BuffersOk;
    hide BatchesOk;
    hide SignedOk;
    hide ReceiptsOk;
  }

  // ----- a fence

  ghost function FenceOf(s: Sys, faultTick: nat): Sys {
    s.(adm := Fence(s.adm, faultTick), released := s.released + ReceiptsHit(s.adm, faultTick))
  }

  /** A fence releases exactly the live receipts of unsealed ticks whose window
      overlaps the fault. */
  lemma HitIsLiveOverlap(env: Env, s: Sys, faultTick: nat, r: Receipt)
    requires LogOk(env, s) && BuffersOk(s)
    ensures r in ReceiptsHit(s.adm, faultTick)
       <==> && r in s.issued && r !in s.released && r.tick >= s.adm.openTick
            && r.window.start <= faultTick < r.window.start + r.window.len
  {
    if r in ReceiptsHit(s.adm, faultTick) {
      HitIsLive(env, s, faultTick, r);
    }
    if r in s.issued && r !in s.released && r.tick >= s.adm.openTick && Overlaps(r.window, faultTick) {
      InBuffer(s, r.tick, r);
      hide LogOk;
      hide BuffersOk;
      var b := BufferAt(s.adm, r.tick);
      var i :| 0 <= i < |b.entries| && b.entries[i].receipt == r;
      assert b.entries[i] in Hit(s.adm, faultTick);
    }
  }

  lemma HitIsLive(env: Env, s: Sys, faultTick: nat, r: Receipt)
    requires LogOk(env, s) && BuffersOk(s) && r in ReceiptsHit(s.adm, faultTick)
    ensures r in s.issued && r !in s.released && r.tick >= s.adm.openTick && Overlaps(r.window, faultTick)
  {
    hide SealedFits;
    hide BufferFits;
    hide Overlaps;
    var e :| e in Hit(s.adm, faultTick) && e.receipt == r;
    var t :| t in s.adm.ticks && e in s.adm.ticks[t].entries && Overlaps(e.receipt.window, faultTick);
    InBuffer(s, t, r);
    var b := BufferAt(s.adm, t);
    var i :| 0 <= i < |b.entries| && b.entries[i] == e;
    assert b.entries[i].receipt == r;
  }

  lemma InBuffer(s: Sys, t: nat, r: Receipt)
    requires BuffersOk(s) && t >= s.adm.openTick
    ensures (exists i :: 0 <= i < |BufferAt(s.adm, t).entries| && BufferAt(s.adm, t).entries[i].receipt == r)
       <==> r in s.issued && r.tick == t && r !in s.released
  {
    var b := BufferAt(s.adm, t);
    assert BufferFits(b, IssuedAt(s.issued, t), s.released);
    IssuedAtMembers(s.issued, t);
    LiveMembers(IssuedAt(s.issued, t), s.released);
    if r in ReceiptsIn(b.entries) {
      var i :| 0 <= i < |b.entries| && ReceiptsIn(b.entries)[i] == r;
      assert b.entries[i].receipt == r;
    }
  }

  lemma {:induction false} RetainIsLive(rs: seq<Receipt>, released: set<Receipt>, released': set<Receipt>,
                                        entries: seq<PendingEntry>, faultTick: nat)
    requires ReceiptsIn(entries) == Live(rs, released)
    requires forall r | r in rs :: r in released' <==> r in released || Overlaps(r.window, faultTick)
    requires forall i | 0 <= i < |entries| :: EntryFits(entries[i])
    ensures ReceiptsIn(Retain(entries, faultTick)) == Live(rs, released')
    ensures forall i | 0 <= i < |Retain(entries, faultTick)| :: EntryFits(Retain(entries, faultTick)[i])
    decreases |rs|
  {
    if rs != [] {
      var last := rs[|rs| - 1];
      if last in released {
        RetainIsLive(rs[..|rs| - 1], released, released', entries, faultTick);
      } else {
        var n := |entries| - 1;
        assert ReceiptsIn(entries[..n]) == ReceiptsIn(entries)[..n] == Live(rs[..|rs| - 1], released);
        assert entries[n].receipt == ReceiptsIn(entries)[n] == last;
        RetainIsLive(rs[..|rs| - 1], released, released', entries[..n], faultTick);
      }
    }
  }

  lemma FenceKeepsBuffers(env: Env, s: Sys, faultTick: nat)
    requires LogOk(env, s) && BuffersOk(s)
    ensures BuffersOk(FenceOf(s, faultTick))
  {
    var s' := FenceOf(s, faultTick);
    forall t: nat | t >= s.adm.openTick
      ensures BufferFits(BufferAt(s'.adm, t), IssuedAt(s.issued, t), s'.released)
    {
      var b, rs := BufferAt(s.adm, t), IssuedAt(s.issued, t);
      assert BufferFits(b, rs, s.released);
      IssuedAtMembers(s.issued, t);
      forall r | r in rs
        ensures r in s'.released <==> r in s.released || Overlaps(r.window, faultTick)
      {
        HitIsLiveOverlap(env, s, faultTick, r);
      }
      RetainIsLive(rs, s.released, s'.released, b.entries, faultTick);
      assert BufferAt(s'.adm, t) == b.(entries := Retain(b.entries, faultTick));
    }
  }

  lemma FenceKeepsBatches(env: Env, s: Sys, faultTick: nat)
    requires LogOk(env, s) && BuffersOk(s) && BatchesOk(s)
    ensures BatchesOk(FenceOf(s, faultTick))
  {
    var s' := FenceOf(s, faultTick);
    forall i | 0 <= i < |s.sealed|
      ensures BatchFits(s.sealed[i], IssuedAt(s.issued, i + 1), s'.released)
    {
      var rs := IssuedAt(s.issued, i + 1);
      assert BatchFits(s.sealed[i], rs, s.released);
      IssuedAtMembers(s.issued, i + 1);
      forall r | r in rs
        ensures r in s'.released <==> r in s.released
      {
        HitIsLiveOverlap(env, s, faultTick, r);
      }
      LiveAgree(rs, s'.released, s.released);
    }
  }

  /** The tickets and commitments a fence gives back are those of the receipts
      it releases. */
  lemma FenceReturns(env: Env, s: Sys, faultTick: nat)
    requires BuffersOk(s) && LogOk(env, s)
    ensures TicketsOf(Hit(s.adm, faultTick)) == set r | r in ReceiptsHit(s.adm, faultTick) :: r.ticketId
    ensures CommitmentsOf(Hit(s.adm, faultTick)) == set r | r in ReceiptsHit(s.adm, faultTick) :: r.h
  {
    var hit := Hit(s.adm, faultTick);
    forall e | e in hit
      ensures e.ticketId == e.receipt.ticketId && e.h == e.receipt.h && e.receipt in ReceiptsHit(s.adm, faultTick)
    {
      var t :| t in s.adm.ticks && e in s.adm.ticks[t].entries && Overlaps(e.receipt.window, faultTick);
      assert BufferFits(BufferAt(s.adm, t), IssuedAt(s.issued, t), s.released);
      assert EntryFits(e);
    }
    var receipts := ReceiptsHit(s.adm, faultTick);
    assert (set r | r in receipts :: r.ticketId) == TicketsOf(hit) by {
      forall r | r in receipts ensures r.ticketId in TicketsOf(hit) {
        var e :| e in hit && e.receipt == r;
      }
    }
    assert (set r | r in receipts :: r.h) == CommitmentsOf(hit) by {
      forall r | r in receipts ensures r.h in CommitmentsOf(hit) {
        var e :| e in hit && e.receipt == r;
      }
    }
  }

  lemma FenceKeepsAccounts(env: Env, s: Sys, faultTick: nat)
    requires LogOk(env, s) && BuffersOk(s) && AccountsOk(s)
    ensures AccountsOk(FenceOf(s, faultTick))
  {
    var s' := FenceOf(s, faultTick);
    var freed := ReceiptsHit(s.adm, faultTick);
    FenceReturns(env, s, faultTick);
    forall r | r in freed
      ensures r in s.issued && r !in s.released
    {
      HitIsLiveOverlap(env, s, faultTick, r);
    }
    assert LiveTickets(s') == LiveTickets(s) - TicketsOf(Hit(s.adm, faultTick));
    assert LiveCommitments(s') == LiveCommitments(s) - CommitmentsOf(Hit(s.adm, faultTick));
  }

  lemma FenceKeepsInv(env: Env, s: Sys, faultTick: nat)
    requires Inv(env, s)
    ensures Inv(env, FenceOf(s, faultTick))
  {
    FenceKeepsBuffers(env, s, faultTick);
    FenceKeepsBatches(env, s, faultTick);
    FenceKeepsAccounts(env, s, faultTick);
    var s' := FenceOf(s, faultTick);
    forall r | r in s'.released
      ensures r in s.issued
    {
      HitIsLiveOverlap(env, s, faultTick, r);
    }
    assert LogOk(env, s');
  }

  // ----- runs

  lemma GenesisInv(env: Env)
    ensures Inv(env, Genesis(env))
  {}

  lemma StepKeepsInv(env: Env, s: Sys, ev: Event)
    requires Usable(env.params) && Inv(env, s)
    ensures Inv(env, Step(env, s, ev))
  {
    match ev
    case Submission(bytes, stored) => SubmissionKeepsInv(env, s, bytes, stored);
    case ClockTick(segment, x) => SealKeepsInv(env, s, segment, x);
    case CadenceFault(tick) => FenceKeepsInv(env, s, tick);
    case Recovery =>
      var s' := Step(env, s, ev);
      assert LiveTickets(s') == LiveTickets(s) && LiveCommitments(s') == LiveCommitments(s);
  }

  /** Every reachable state, under any interleaving of submissions, sealing,
      fences and recoveries. */
  lemma {:induction false} EveryRunKeepsInv(env: Env, events: seq<Event>)
    requires Usable(env.params)
    ensures Inv(env, Run(env, events))
    decreases |events|
  {
    if events == [] {
      GenesisInv(env);
    } else {
      EveryRunKeepsInv(env, events[..|events| - 1]);
      StepKeepsInv(env, Run(env, events[..|events| - 1]), events[|events| - 1]);
    }
  }

  // ----- while a fence is up

  /** The fence covers the fault, and no reservation still to be sealed overlaps it. */
  ghost predicate Fenced(s: Sys, faultTick: nat) {
    && s.adm.fenceUntil.Some? && s.adm.fenceUntil.value >= faultTick
    && forall r | r in s.issued && r !in s.released && r.tick >= s.adm.openTick ::
         !(r.window.start <= faultTick < r.window.start + r.window.len)
  }

  lemma FaultFences(env: Env, s: Sys, faultTick: nat)
    requires Usable(env.params) && Inv(env, s)
    ensures Fenced(Step(env, s, CadenceFault(faultTick)), faultTick)
  {
    var s' := FenceOf(s, faultTick);
    forall r | r in s'.issued && r !in s'.released && r.tick >= s'.adm.openTick
      ensures !Overlaps(r.window, faultTick)
    {
      HitIsLiveOverlap(env, s, faultTick, r);
    }
  }

  lemma StepKeepsFenced(env: Env, s: Sys, ev: Event, faultTick: nat)
    requires Usable(env.params) && LogOk(env, s) && Fenced(s, faultTick) && ev != Recovery
    ensures Fenced(Step(env, s, ev), faultTick)
  {
    match ev
    case Submission(bytes, stored) =>
      var k := SubmitCases(env, s.adm, bytes, stored);
      hide Submit;
      var s' := Step(env, s, ev);
      forall r | r in s'.issued && r !in s'.released && r.tick >= s'.adm.openTick
        ensures !Overlaps(r.window, faultTick)
      {
        assert r in s.issued || r == s'.issued[|s'.issued| - 1];
      }
    case _ =>
  }

  lemma RunIsLogged(env: Env, events: seq<Event>)
    requires Usable(env.params)
    ensures LogOk(env, Run(env, events))
  {
    EveryRunKeepsInv(env, events);
    hide Run;
  }

  /** From a cadence fault until the fence is lifted, no reservation whose window
      overlaps the fault is open, whatever is submitted, sealed or fenced. */
  lemma {:induction false} FencedUntilRecovery(env: Env, events: seq<Event>, faultTick: nat, rest: seq<Event>)
    requires Usable(env.params) && Recovery !in rest
    ensures Fenced(Run(env, events + [CadenceFault(faultTick)] + rest), faultTick)
    decreases |rest|
  {
    hide Fenced;
    hide Inv;
    hide Step;
    if rest == [] {
      assert events + [CadenceFault(faultTick)] + rest == events + [CadenceFault(faultTick)];
      assert (events + [CadenceFault(faultTick)])[..|events|] == events;
      EveryRunKeepsInv(env, events);
      FaultFences(env, Run(env, events), faultTick);
    } else {
      var n := |rest| - 1;
      var whole := events + [CadenceFault(faultTick)] + rest;
      FencedUntilRecovery(env, events, faultTick, rest[..n]);
      assert whole[..|whole| - 1] == events + [CadenceFault(faultTick)] + rest[..n] && whole[|whole| - 1] == rest[n];
      RunIsLogged(env, whole[..|whole| - 1]);
      StepKeepsFenced(env, Run(env, whole[..|whole| - 1]), rest[n], faultTick);
    }
  }

  // ----- no look

  /** Whatever is admitted, in whatever state, matures strictly after its window and
      the slack are over, once the startup check passes with an adversary advantage
      of at least one. */
  lemma AdmissionsMatureAfterWindow(env: Env, adm: AdmState, bytes: Bytes, stored: bool)
    requires Usable(env.params) && NoLookHolds(env.params) && env.params.alphaNum >= env.params.alphaDen
    requires Submit(env, adm, bytes, stored).1.Admitted?
    ensures Envelope.Decode(bytes, env.params.envelopeBytes).Ok?
    ensures var e := Envelope.Decode(bytes, env.params.envelopeBytes).value;
            var r := Submit(env, adm, bytes, stored).1.receipt;
            && e.window == r.window && DelayTicks(env.params, e.delayClass).Some?
            && r.tick + DelayTicks(env.params, e.delayClass).value > r.window.End() + env.params.gammaTicks
  {
    hide Envelope.Decode;
    var k := SubmitCases(env, adm, bytes, stored);
    var e := Envelope.Decode(bytes, env.params.envelopeBytes).value;
    var r := Submit(env, adm, bytes, stored).1.receipt;
    hide FirstRoom;
    assert e.window == r.window && e.delayClass < |env.params.delayClasses|;
    hide Submit;
    MaturesAfterWindow(env.params, e.delayClass, e.window, r.tick);
  }
}
