/** The spill search as a frontier: over any run a bucket's ticks fill in order
    (crates/sequencer/src/admission.rs:162-184, 195-201). */
module Frontier {
  import opened Wrappers
  import opened Digests
  import opened Records
  import opened Params
  import opened Admission
  import opened Sequencer
  import opened SequencerLaws

  /** Full ticks up to f, room at f, nothing after. */
  ghost predicate IsFrontier(adm: AdmState, capacity: nat, bucket: Bucket, f: nat) {
    && f >= adm.openTick
    && (forall u: nat | adm.openTick <= u < f :: Count(adm, u, bucket) == capacity)
    && Count(adm, f, bucket) < capacity
    && (forall u: nat | u > f :: Count(adm, u, bucket) == 0)
  }

  /** The search the code makes finds the frontier, or nothing when the window
      ends before it. */
  lemma SearchIsFrontier(adm: AdmState, capacity: nat, bucket: Bucket, f: nat, end: int)
    requires IsFrontier(adm, capacity, bucket, f)
    ensures FirstRoom(adm, capacity, bucket, adm.openTick, end) == if f <= end then Some(f) else None
  {}

  function CountOf(rs: seq<Receipt>, bucket: Bucket): nat {
    if rs == [] then 0 else CountOf(rs[..|rs| - 1], bucket) + if rs[|rs| - 1].bucket == bucket then 1 else 0
  }

  lemma CountAppend(rs: seq<Receipt>, r: Receipt, bucket: Bucket)
    ensures CountOf(rs + [r], bucket) == CountOf(rs, bucket) + if r.bucket == bucket then 1 else 0
  {
    assert (rs + [r])[..|rs|] == rs;
  }

  /** A bucket's frontier, with all its receipts at or before it. */
  ghost predicate FrontierFits(env: Env, s: Sys, bucket: Bucket, f: nat) {
    && IsFrontier(s.adm, env.params.capacity, bucket, f)
    && forall r | r in s.issued && r.bucket == bucket :: r.tick <= f
  }

  ghost predicate HasFrontier(env: Env, s: Sys, bucket: Bucket) {
    exists f :: FrontierFits(env, s, bucket, f)
  }

  /** No tick is issued more than the capacity of a bucket, and the counters of
      unsealed ticks count every receipt issued, released or not. */
  ghost predicate CountsFit(env: Env, s: Sys, t: nat, bucket: Bucket) {
    var n := CountOf(IssuedAt(s.issued, t), bucket);
    n <= env.params.capacity && (t >= s.adm.openTick ==> Count(s.adm, t, bucket) == n)
  }

  ghost predicate CountsOk(env: Env, s: Sys) {
    forall t: nat, bucket :: CountsFit(env, s, t, bucket)
  }

  predicate Before(q: Receipt, r: Receipt) {
    q.tick < r.tick || (q.tick == r.tick && q.pos < r.pos)
  }

  /** A bucket's receipts are issued in strictly increasing place. */
  ghost predicate OrderOk(s: Sys) {
    forall i, j | 0 <= i < j < |s.issued| && s.issued[i].bucket == s.issued[j].bucket ::
      Before(s.issued[i], s.issued[j])
  }

  ghost predicate FrontierInv(env: Env, s: Sys) {
    CountsOk(env, s) && OrderOk(s) && forall bucket :: HasFrontier(env, s, bucket)
  }

  // ----- steps

  /** The frontier moves on when its tick fills. */
  lemma IssueMovesFrontier(env: Env, s: Sys, r: Receipt, k: nat, bucket: Bucket, f: nat)
    requires env.params.capacity > 0 && Fresh(env, s.adm, r) && FrontierFits(env, s, bucket, f)
    ensures r.bucket == bucket ==> r.tick == f
    ensures var full := r.bucket == bucket && Count(s.adm, f, bucket) + 1 == env.params.capacity;
            FrontierFits(env, Issue(s, r, k), bucket, if full then f + 1 else f)
  {
    if r.bucket == bucket {
      assert r.tick == f by {
        assert Count(s.adm, r.tick, bucket) < env.params.capacity;
        assert f < r.tick ==> Count(s.adm, f, bucket) >= env.params.capacity;
      }
    }
    var s' := Issue(s, r, k);
    forall u: nat
      ensures Count(s'.adm, u, bucket) == Count(s.adm, u, bucket) + if u == r.tick && r.bucket == bucket then 1 else 0
    {}
    assert forall q :: q in s'.issued <==> q in s.issued || q == r;
  }

  lemma IssueKeepsCounts(env: Env, s: Sys, r: Receipt, k: nat)
    requires CountsOk(env, s) && Fresh(env, s.adm, r)
    ensures CountsOk(env, Issue(s, r, k))
  {
    var s' := Issue(s, r, k);
    forall t: nat, bucket
      ensures CountsFit(env, s', t, bucket)
    {
      assert CountsFit(env, s, t, bucket);
      IssuedAppend(s.issued, r, t);
      var rs := IssuedAt(s.issued, t);
      if r.tick == t {
        CountAppend(rs, r, bucket);
      } else {
        assert rs + [] == rs;
      }
    }
  }

  lemma IssueKeepsOrder(env: Env, s: Sys, r: Receipt, k: nat)
    requires env.params.capacity > 0 && Inv(env, s) && FrontierInv(env, s) && Fresh(env, s.adm, r)
    ensures OrderOk(Issue(s, r, k))
  {
    NewPlace(env, s, r);
    assert HasFrontier(env, s, r.bucket);
    var f :| FrontierFits(env, s, r.bucket, f);
    IssueMovesFrontier(env, s, r, k, r.bucket, f);
    var s' := Issue(s, r, k);
    forall i, j | 0 <= i < j < |s'.issued| && s'.issued[i].bucket == s'.issued[j].bucket
      ensures Before(s'.issued[i], s'.issued[j])
    {
      if j == |s.issued| {
        assert s.issued[i] in s.issued;
      } else {
        assert Before(s.issued[i], s.issued[j]);
      }
    }
  }

  lemma IssueKeepsFrontier(env: Env, s: Sys, r: Receipt, k: nat)
    requires env.params.capacity > 0 && Inv(env, s) && FrontierInv(env, s) && Fresh(env, s.adm, r)
    ensures FrontierInv(env, Issue(s, r, k))
  {
    IssueKeepsCounts(env, s, r, k);
    IssueKeepsOrder(env, s, r, k);
    forall bucket
      ensures HasFrontier(env, Issue(s, r, k), bucket)
    {
      assert HasFrontier(env, s, bucket);
      var f :| FrontierFits(env, s, bucket, f);
      IssueMovesFrontier(env, s, r, k, bucket, f);
    }
  }

  lemma SealKeepsFrontier(env: Env, s: Sys, segment: nat, x: nat)
    requires env.params.capacity > 0 && LogOk(env, s) && FrontierInv(env, s)
    ensures FrontierInv(env, SealStep(env, s, segment, x))
  {
    var s' := SealStep(env, s, segment, x);
    var n := s.adm.openTick;
    assert forall u: nat, bucket | u > n :: Count(s'.adm, u, bucket) == Count(s.adm, u, bucket);
    forall t: nat, bucket
      ensures CountsFit(env, s', t, bucket)
    {
      assert CountsFit(env, s, t, bucket);
    }
    forall bucket
      ensures HasFrontier(env, s', bucket)
    {
      assert HasFrontier(env, s, bucket);
      var f :| FrontierFits(env, s, bucket, f);
      assert FrontierFits(env, s', bucket, if f == n then n + 1 else f);
    }
  }

  lemma SameCountsKeepFrontier(env: Env, s: Sys, s': Sys)
    requires FrontierInv(env, s) && s'.issued == s.issued && s'.adm.openTick == s.adm.openTick
    requires forall u: nat, bucket :: Count(s'.adm, u, bucket) == Count(s.adm, u, bucket)
    ensures FrontierInv(env, s')
  {
    forall t: nat, bucket
      ensures CountsFit(env, s', t, bucket)
    {
      assert CountsFit(env, s, t, bucket);
    }
    forall bucket
      ensures HasFrontier(env, s', bucket)
    {
      assert HasFrontier(env, s, bucket);
      var f :| FrontierFits(env, s, bucket, f);
      assert FrontierFits(env, s', bucket, f);
    }
  }

  lemma GenesisFrontier(env: Env)
    requires env.params.capacity > 0
    ensures FrontierInv(env, Genesis(env))
  {
    var s := Genesis(env);
    forall bucket
      ensures HasFrontier(env, s, bucket)
    {
      assert FrontierFits(env, s, bucket, 1);
    }
  }

  lemma StepKeepsFrontier(env: Env, s: Sys, ev: Event)
    requires Usable(env.params) && env.params.capacity > 0 && Inv(env, s) && FrontierInv(env, s)
    ensures FrontierInv(env, Step(env, s, ev))
  {
    hide FrontierInv;
    match ev
    case Submission(bytes, stored) =>
      var (adm, o) := Submit(env, s.adm, bytes, stored);
      var k := SubmitCases(env, s.adm, bytes, stored);
      hide Submit;
      hide Fresh;
      if o.Admitted? {
        IssueKeepsFrontier(env, s, o.receipt, k);
      } else {
        SameCountsKeepFrontier(env, s, Step(env, s, ev));
      }
    case ClockTick(segment, x) => SealKeepsFrontier(env, s, segment, x);
    case CadenceFault(tick) => SameCountsKeepFrontier(env, s, Step(env, s, ev));
    case Recovery => SameCountsKeepFrontier(env, s, Step(env, s, ev));
  }

  lemma {:induction false} EveryRunKeepsFrontier(env: Env, events: seq<Event>)
    requires Usable(env.params) && env.params.capacity > 0
    ensures FrontierInv(env, Run(env, events))
    decreases |events|
  {
    if events == [] {
      GenesisFrontier(env);
    } else {
      var front := events[..|events| - 1];
      EveryRunKeepsInv(env, front);
      EveryRunKeepsFrontier(env, front);
      StepKeepsFrontier(env, Run(env, front), events[|events| - 1]);
    }
  }

  /** An admitted receipt stands at its bucket's frontier; a full-window reply is
      given exactly to an otherwise admissible envelope whose window ends before
      the frontier. */
  lemma SubmissionMeetsFrontier(env: Env, s: Sys, bytes: Bytes, stored: bool, f: nat)
    requires Usable(env.params) && |bytes| == env.params.envelopeBytes
    requires Envelope.Decode(bytes, env.params.envelopeBytes).Ok?
    requires IsFrontier(s.adm, env.params.capacity, Envelope.Decode(bytes, env.params.envelopeBytes).value.bucket, f)
    ensures var e := Envelope.Decode(bytes, env.params.envelopeBytes).value;
            var objection := Objection(env, s.adm, Commitment(env.params.epoch, bytes), e);
            var o := Submit(env, s.adm, bytes, stored).1;
            && (o.FullWindow? <==> objection.None? && f > e.window.End())
            && (o.Admitted? <==> objection.None? && f <= e.window.End() && stored)
            && (o.Admitted? ==> o.receipt.tick == f && o.receipt.bucket == e.bucket)
  {
    hide Envelope.Decode;
    var e := Envelope.Decode(bytes, env.params.envelopeBytes).value;
    SearchIsFrontier(s.adm, env.params.capacity, e.bucket, f, e.window.End());
    hide Objection;
    hide FirstRoom;
  }
}
