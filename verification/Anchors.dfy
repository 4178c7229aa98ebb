/** Anchoring (crates/sequencer/src/node.rs:499-581): each fully proved span of
    segments is replayed and committed to, and a span with a hole stops it. */
module Anchors {
  import opened Wrappers
  import opened Digests
  import opened Records
  import opened Params
  import opened ModArith
  import opened Admission
  import opened Merkle
  import opened Sequencer
  import opened SequencerLaws
  import opened Transcript
  import opened TranscriptLaws

  datatype Anchor = Anchor(firstSegment: nat, lastSegment: nat, firstTick: nat, lastTick: nat, cB: Digest,
                           transcript: PredicateCommitment)

  /** The span that ends with a segment: `anchorEverySegments` segments. */
  function FirstSegment(p: PosqParams, last: nat): nat
    requires p.anchorEverySegments <= last + 1
  {
    last + 1 - p.anchorEverySegments
  }

  function FirstTick(p: PosqParams, last: nat): nat
    requires p.anchorEverySegments <= last + 1
  {
    FirstSegment(p, last) * p.segmentTicks + 1
  }

  function LastTick(p: PosqParams, last: nat): nat {
    (last + 1) * p.segmentTicks
  }

  /** Every segment of the span is proved, and its last tick is sealed. */
  predicate SpanReady(p: PosqParams, sealed: seq<SealedTick>, proved: set<nat>, last: nat)
    requires p.anchorEverySegments <= last + 1
  {
    && (forall k | FirstSegment(p, last) <= k <= last :: k in proved)
    && 1 <= LastTick(p, last) <= |sealed|
  }

  lemma SpanTicks(p: PosqParams, sealed: seq<SealedTick>, proved: set<nat>, last: nat)
    requires 0 < p.anchorEverySegments <= last + 1 && SpanReady(p, sealed, proved, last)
    ensures 1 <= FirstTick(p, last) <= LastTick(p, last) && last < LastTick(p, last)
  {
    var f := p.segmentTicks;
    MulMonotone(1, f, last + 1);
    MulMonotone(FirstSegment(p, last), last, f);
    assert (last + 1) * f == last * f + f;
  }

  /** One pass of the loop: an anchor, or nothing when the span is not ready or its
      transcript fails. */
  function AnchorAt(env: Env, s: Sys, proved: set<nat>, last: nat): Option<Anchor>
    requires 0 < env.params.anchorEverySegments <= last + 1
  {
    var p := env.params;
    if !SpanReady(p, s.sealed, proved, last) then None
    else
      SpanTicks(p, s.sealed, proved, last);
      var first, end := FirstTick(p, last), LastTick(p, last);
      var r := ReplaySpec(s.signed, p.epoch, s.sealed[first - 1].record.cPrev, first, end, StoreOf(s));
      if r.Err? then None
      else Some(Anchor(FirstSegment(p, last), last, first, end, s.sealed[end - 1].record.cT, r.value.commitment))
  }

  function AnchorsFrom(env: Env, s: Sys, proved: set<nat>, last: nat): seq<Anchor>
    requires 0 < env.params.anchorEverySegments <= last + 1
    decreases if last <= |s.sealed| then |s.sealed| + 1 - last else 0
  {
    var a := AnchorAt(env, s, proved, last);
    if a.None? then []
    else
      SpanTicks(env.params, s.sealed, proved, last);
      [a.value] + AnchorsFrom(env, s, proved, last + env.params.anchorEverySegments)
  }

  method TryAnchor(env: Env, s: Sys, proved: set<nat>, last: nat) returns (a: Option<Anchor>)
    requires 0 < env.params.anchorEverySegments <= last + 1
    ensures a == AnchorAt(env, s, proved, last)
  {
    var p := env.params;
    if !SpanReady(p, s.sealed, proved, last) {
      return None;
    }
    SpanTicks(p, s.sealed, proved, last);
    var first, end := FirstTick(p, last), LastTick(p, last);
    var r := Replay(s.signed, p.epoch, s.sealed[first - 1].record.cPrev, first, end, StoreOf(s));
    if r.Err? {
      return None;
    }
    a := Some(Anchor(FirstSegment(p, last), last, first, end, s.sealed[end - 1].record.cT, r.value.commitment));
  }

  /** `maybe_anchor`: `last` is the segment after which the next anchor is due. */
  method MaybeAnchor(env: Env, s: Sys, proved: set<nat>, nextLast: nat) returns (anchors: seq<Anchor>, last: nat)
    requires 0 < env.params.anchorEverySegments <= nextLast + 1
    ensures anchors == AnchorsFrom(env, s, proved, nextLast)
    ensures nextLast <= last && AnchorAt(env, s, proved, last).None?
    ensures last == if anchors == [] then nextLast
            else anchors[|anchors| - 1].lastSegment + env.params.anchorEverySegments
  {
    hide AnchorAt;
    hide SpanReady;
    var p := env.params;
    last, anchors := nextLast, [];
    while true
      invariant nextLast <= last
      invariant last == if anchors == [] then nextLast else anchors[|anchors| - 1].lastSegment + p.anchorEverySegments
      invariant AnchorsFrom(env, s, proved, nextLast) == anchors + AnchorsFrom(env, s, proved, last)
      decreases if last <= |s.sealed| then |s.sealed| + 1 - last else 0
    {
      var a := TryAnchor(env, s, proved, last);
      AnchorIsReady(env, s, proved, last);
      if a.None? {
        assert AnchorsFrom(env, s, proved, last) == [];
        return;
      }
      ghost var rest := AnchorsFrom(env, s, proved, last + p.anchorEverySegments);
      assert anchors + ([a.value] + rest) == anchors + [a.value] + rest;
      anchors := anchors + [a.value];
      last := last + p.anchorEverySegments;
    }
  }

  lemma AnchorIsReady(env: Env, s: Sys, proved: set<nat>, last: nat)
    requires 0 < env.params.anchorEverySegments <= last + 1
    ensures var a := AnchorAt(env, s, proved, last);
            a.Some? ==>
              SpanReady(env.params, s.sealed, proved, last) && last < |s.sealed| && a.value.lastSegment == last
  {
    if AnchorAt(env, s, proved, last).Some? {
      SpanTicks(env.params, s.sealed, proved, last);
    }
  }

  /** The span a segment ends has no hole in any of its ticks. */
  ghost predicate SpanWhole(p: PosqParams, s: Sys, last: nat)
    requires p.anchorEverySegments <= last + 1
  {
    forall t | FirstTick(p, last) <= t <= LastTick(p, last) :: NoHoles(s, t)
  }

  /** A span of sealed ticks replays exactly when it has no hole. */
  lemma ReplayOfState(env: Env, s: Sys, first: nat, end: nat)
    requires Inv(env, s) && 1 <= first <= end <= |s.sealed|
    ensures var epoch := env.params.epoch;
            var r := ReplaySpec(s.signed, epoch, s.sealed[first - 1].record.cPrev, first, end, StoreOf(s));
            && (r.Ok? <==> forall t | first <= t <= end :: NoHoles(s, t))
            && s.sealed[end - 1].record.cT == LogHead(epoch, s.sealed[..end])
            && (r.Ok? ==>
                  r.value.commitment == PredicateCommitment(epoch, first, end, LogHead(epoch, s.sealed[..first - 1]),
                                                            LogHead(epoch, s.sealed[..end])))
  {
    hide LogOk;
    hide SignedOk;
    hide ChainsOk;
    hide BuffersOk;
    hide BatchesOk;
    hide AccountsOk;
    hide ReceiptsOk;
    hide NoHoles;
    hide CheckSpan;
    hide CheckTick;
    hide LogHead;
    hide Root;
    hide LeavesOf;
    SealedRecordGood(env, s, first);
    SealedRecordGood(env, s, end);
    SpanOfRun(env, s, first, CountBetween(first, end), {});
  }

  /** In any run a ready span is anchored exactly when it has no hole, and the anchor
      commits to the log before and after it. */
  lemma AnchoredIff(env: Env, s: Sys, proved: set<nat>, last: nat)
    requires Inv(env, s) && 0 < env.params.anchorEverySegments <= last + 1
    ensures var p := env.params;
            var a := AnchorAt(env, s, proved, last);
            && (a.Some? <==> SpanReady(p, s.sealed, proved, last) && SpanWhole(p, s, last))
            && (a.Some? ==>
                  var first, end := FirstTick(p, last), LastTick(p, last);
                  && 1 <= first <= end <= |s.sealed| && a.value.cB == LogHead(p.epoch, s.sealed[..end])
                  && a.value.transcript
                     == PredicateCommitment(p.epoch, first, end, LogHead(p.epoch, s.sealed[..first - 1]), a.value.cB))
  {
    hide Inv;
    hide NoHoles;
    hide ReplaySpec;
    hide LogHead;
    hide StoreOf;
    var p := env.params;
    if SpanReady(p, s.sealed, proved, last) {
      SpanTicks(p, s.sealed, proved, last);
      hide FirstTick;
      hide LastTick;
      ReplayOfState(env, s, FirstTick(p, last), LastTick(p, last));
    }
  }

  /** Anchors tile: each starts at the tick and the commitment where the one before
      it ended. */
  lemma {:induction false} AnchorsTile(env: Env, s: Sys, proved: set<nat>, last: nat, i: nat)
    requires Inv(env, s) && 0 < env.params.anchorEverySegments <= last + 1
    requires i + 1 < |AnchorsFrom(env, s, proved, last)|
    ensures var anchors := AnchorsFrom(env, s, proved, last);
            var a, b := anchors[i], anchors[i + 1];
            && b.firstSegment == a.lastSegment + 1 && b.firstTick == a.lastTick + 1
            && b.transcript.cBefore == a.transcript.cAfter == a.cB
    decreases i
  {
    hide Inv;
    hide AnchorAt;
    var next := last + env.params.anchorEverySegments;
    if i > 0 {
      AnchorsTile(env, s, proved, next, i - 1);
    } else {
      AdjacentAnchors(env, s, proved, last);
    }
  }

  lemma AdjacentAnchors(env: Env, s: Sys, proved: set<nat>, last: nat)
    requires Inv(env, s) && 0 < env.params.anchorEverySegments <= last + 1
    requires AnchorAt(env, s, proved, last).Some?
    requires AnchorAt(env, s, proved, last + env.params.anchorEverySegments).Some?
    ensures var a := AnchorAt(env, s, proved, last).value;
            var b := AnchorAt(env, s, proved, last + env.params.anchorEverySegments).value;
            && b.firstSegment == a.lastSegment + 1 && b.firstTick == a.lastTick + 1
            && b.transcript.cBefore == a.transcript.cAfter == a.cB
  {
    hide Inv;
    hide AnchorAt;
    hide SpanWhole;
    hide SpanReady;
    hide LogHead;
    var next := last + env.params.anchorEverySegments;
    AnchoredIff(env, s, proved, last);
    AnchoredIff(env, s, proved, next);
    AnchorFields(env, s, proved, last);
    AnchorFields(env, s, proved, next);
    assert FirstSegment(env.params, next) == last + 1;
  }

  /** A span is anchored exactly when each of its segments is proved, its last tick is
      sealed, and no tick of its segments has a hole. */
  lemma AnchoredWhenProved(env: Env, s: Sys, proved: set<nat>, last: nat)
    requires Inv(env, s) && 0 < env.params.anchorEverySegments <= last + 1
    ensures var f, every := env.params.segmentTicks, env.params.anchorEverySegments;
            AnchorAt(env, s, proved, last).Some?
            <==> && (forall k: nat | last + 1 - every <= k <= last :: k in proved)
                 && 1 <= (last + 1) * f <= |s.sealed|
                 && forall t: nat | (last + 1 - every) * f + 1 <= t <= (last + 1) * f :: NoHoles(s, t)
  {
    hide Inv;
    hide NoHoles;
    hide AnchorAt;
    AnchoredIff(env, s, proved, last);
  }

  lemma AnchorFields(env: Env, s: Sys, proved: set<nat>, last: nat)
    requires 0 < env.params.anchorEverySegments <= last + 1
    ensures var a := AnchorAt(env, s, proved, last);
            a.Some? ==> a.value.firstSegment == FirstSegment(env.params, last) && a.value.lastSegment == last
                        && a.value.firstTick == FirstTick(env.params, last)
                        && a.value.lastTick == LastTick(env.params, last)
  {}

  /** An anchor covers exactly the ticks of its segments, as the clock numbers them. */
  lemma AnchorCovers(p: PosqParams, last: nat, t: nat)
    requires p.anchorEverySegments <= last + 1 && p.segmentTicks > 0 && t > 0
    ensures FirstTick(p, last) <= t <= LastTick(p, last)
       <==> last + 1 - p.anchorEverySegments <= (t - 1) / p.segmentTicks <= last
  {
    var f, q := p.segmentTicks, (t - 1) / p.segmentTicks;
    assert t - 1 == q * f + (t - 1) % f;
    var first := last + 1 - p.anchorEverySegments;
    MultipleBelowIff(f, first, q, (t - 1) % f);
    MultipleBelowIff(f, last + 1, q, (t - 1) % f);
  }

  lemma MultipleBelowIff(f: nat, k: nat, q: nat, r: nat)
    requires r < f
    ensures k * f <= q * f + r <==> k <= q
  {
    if k <= q {
      MulMonotone(k, q, f);
    } else {
      MulMonotone(q + 1, k, f);
      assert (q + 1) * f == q * f + f;
    }
  }

  // ----- a hole is forever

  lemma SealedSurvives(env: Env, events: seq<Event>, ev: Event)
    requires Usable(env.params)
    ensures Run(env, events).sealed <= Run(env, events + [ev]).sealed
  {
    assert (events + [ev])[..|events|] == events;
    var s := Run(env, events);
    hide Run;
    if ev.Submission? {
      var k := SubmitCases(env, s.adm, ev.bytes, ev.stored);
    }
  }

  /** Whatever happens next, a sealed tick keeps or lacks its holes. */
  lemma HolesAreFixed(env: Env, events: seq<Event>, ev: Event, t: nat)
    requires Usable(env.params) && 1 <= t <= |Run(env, events).sealed|
    ensures NoHoles(Run(env, events + [ev]), t) <==> NoHoles(Run(env, events), t)
  {
    var s, s' := Run(env, events), Run(env, events + [ev]);
    EveryRunKeepsInv(env, events);
    EveryRunKeepsInv(env, events + [ev]);
    SealedSurvives(env, events, ev);
    hide Run;
    assert s.sealed[t - 1] == s'.sealed[t - 1];
    SealedNumbered(env, s, t);
    SealedNumbered(env, s', t);
  }

  /** So a span sealed with a hole is never anchored, however long the run goes on:
      the anchor cursor stays at it for good. */
  lemma {:induction false} HoleStopsAnchors(env: Env, events: seq<Event>, more: seq<Event>, proved: set<nat>, last: nat,
                                            t: nat)
    requires Usable(env.params) && 0 < env.params.anchorEverySegments <= last + 1
    requires 1 <= t <= |Run(env, events).sealed| && FirstTick(env.params, last) <= t <= LastTick(env.params, last)
    requires !NoHoles(Run(env, events), t)
    ensures AnchorsFrom(env, Run(env, events + more), proved, last) == []
    decreases |more|
  {
    hide NoHoles;
    hide AnchorAt;
    hide Inv;
    HoleStays(env, events, more, t);
    EveryRunKeepsInv(env, events + more);
    AnchoredIff(env, Run(env, events + more), proved, last);
    hide Run;
  }

  lemma {:induction false} HoleStays(env: Env, events: seq<Event>, more: seq<Event>, t: nat)
    requires Usable(env.params) && 1 <= t <= |Run(env, events).sealed|
    ensures t <= |Run(env, events + more).sealed|
    ensures (NoHoles(Run(env, events + more), t) <==> NoHoles(Run(env, events), t))
    decreases |more|
  {
    hide NoHoles;
    if more == [] {
      assert events + more == events;
    } else {
      var front, last := more[..|more| - 1], more[|more| - 1];
      HoleStays(env, events, front, t);
      assert events + more == events + front + [last];
      hide Run;
      SealedSurvives(env, events + front, last);
      HolesAreFixed(env, events + front, last, t);
    }
  }
}
